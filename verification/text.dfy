/** The slice of JavaScript string behaviour the model relies on:
    `trim`, `toLowerCase`, `includes`, `startsWith`, `padStart`,
    `split` on one character, and decimal rendering of integers. */
module Text {

  /** The WhiteSpace and LineTerminator code points that `String.prototype.trim` removes. */
  predicate IsSpace(c: char)
  {
    || c == ' ' || c == '\t' || c == '\n' || c == '\r' || c == '\U{B}' || c == '\U{C}'
    || c == '\U{A0}' || c == '\U{1680}' || ('\U{2000}' <= c <= '\U{200A}')
    || c == '\U{2028}' || c == '\U{2029}' || c == '\U{202F}' || c == '\U{205F}'
    || c == '\U{3000}' || c == '\U{FEFF}'
  }

  predicate IsDigit(c: char) { '0' <= c <= '9' }

  /** Lower-casing of Basic Latin and basic Cyrillic capitals (U+0400..U+042F). */
  function LowerChar(c: char): char
  {
    if 'A' <= c <= 'Z' then (c as int + 32) as char
    else if '\U{410}' <= c <= '\U{42F}' then (c as int + 32) as char
    else if '\U{400}' <= c <= '\U{40F}' then (c as int + 80) as char
    else c
  }

  function Lower(s: string): (r: string)
    ensures |r| == |s|
    ensures forall k | 0 <= k < |s| :: r[k] == LowerChar(s[k])
  {
    seq(|s|, k requires 0 <= k < |s| => LowerChar(s[k]))
  }

  /** Lower-casing twice changes nothing more than lower-casing once. */
  lemma LowerIdempotent(s: string)
    ensures Lower(Lower(s)) == Lower(s)
  {
    assert forall k | 0 <= k < |s| :: LowerChar(LowerChar(s[k])) == LowerChar(s[k]);
  }

  /** The first index at or after `i` whose character does not satisfy `p`,
      or |s| when there is none. */
  function SkipFrom(s: string, p: char -> bool, i: nat): (r: nat)
    requires i <= |s|
    ensures i <= r <= |s|
    ensures forall k | i <= k < r :: p(s[k])
    ensures r < |s| ==> !p(s[r])
    decreases |s| - i
  {
    if i < |s| && p(s[i]) then SkipFrom(s, p, i + 1) else i
  }

  /** The end of `s[lo..e]` once the characters satisfying `p` at its back
      are dropped. */
  function SkipBack(s: string, p: char -> bool, lo: nat, e: nat): (r: nat)
    requires lo <= e <= |s|
    ensures lo <= r <= e
    ensures forall k | r <= k < e :: p(s[k])
    ensures r > lo ==> !p(s[r - 1])
  {
    if e > lo && p(s[e - 1]) then SkipBack(s, p, lo, e - 1) else e
  }

  /** The infix left after removing the characters satisfying `p` at both ends. */
  function Strip(s: string, p: char -> bool): (r: string)
    ensures |r| <= |s|
  {
    var a := SkipFrom(s, p, 0);
    s[a..SkipBack(s, p, a, |s|)]
  }

  /** What `Strip` leaves: the infix of `s` after its leading run of
      stripped characters, with no stripped character at either end, empty
      exactly when every character is stripped, and followed only by
      stripped characters. */
  lemma StripSpec(s: string, p: char -> bool)
    ensures var r := Strip(s, p);
      && (r == [] || (!p(r[0]) && !p(r[|r| - 1])))
      && (r == [] <==> forall k | 0 <= k < |s| :: p(s[k]))
      && SkipFrom(s, p, 0) + |r| <= |s|
      && r == s[SkipFrom(s, p, 0)..SkipFrom(s, p, 0) + |r|]
      && forall k | SkipFrom(s, p, 0) + |r| <= k < |s| :: p(s[k])
  {
    var a := SkipFrom(s, p, 0);
    var e := SkipBack(s, p, a, |s|);
    var r := Strip(s, p);
    assert r == s[a..e] && |r| == e - a;
    if a < e {
      assert r[0] == s[a] && r[|r| - 1] == s[e - 1];
    }
  }

  lemma StripUnchanged(s: string, p: char -> bool)
    requires s == [] || (!p(s[0]) && !p(s[|s| - 1]))
    ensures Strip(s, p) == s
  {
    assert SkipFrom(s, p, 0) == 0;
    assert s[0..|s|] == s;
  }

  lemma StripIdempotent(s: string, p: char -> bool)
    ensures Strip(Strip(s, p), p) == Strip(s, p)
  {
    StripSpec(s, p);
    StripUnchanged(Strip(s, p), p);
  }

  /** `String.prototype.trim`: the infix left after removing white space at both ends. */
  function Trim(s: string): (r: string)
    ensures |r| <= |s|
  {
    Strip(s, IsSpace)
  }

  /** The trimmed string has no white space at either end, is empty exactly
      when `s` is all white space, and is the infix of `s` after its leading
      white space, followed only by white space. */
  lemma TrimSpec(s: string)
    ensures var r := Trim(s);
      && (r == [] || (!IsSpace(r[0]) && !IsSpace(r[|r| - 1])))
      && (r == [] <==> forall k | 0 <= k < |s| :: IsSpace(s[k]))
      && SkipFrom(s, IsSpace, 0) + |r| <= |s|
      && r == s[SkipFrom(s, IsSpace, 0)..SkipFrom(s, IsSpace, 0) + |r|]
      && forall k | SkipFrom(s, IsSpace, 0) + |r| <= k < |s| :: IsSpace(s[k])
  {
    StripSpec(s, IsSpace);
  }

  /** A string with no white space at either end is its own trim. */
  lemma TrimUnchanged(s: string)
    requires s == [] || (!IsSpace(s[0]) && !IsSpace(s[|s| - 1]))
    ensures Trim(s) == s
  {
    StripUnchanged(s, IsSpace);
  }

  /** Trimming is idempotent. */
  lemma TrimIdempotent(s: string)
    ensures Trim(Trim(s)) == Trim(s)
  {
    StripIdempotent(s, IsSpace);
  }

  predicate OccursAt(s: string, sub: string, i: int)
  {
    0 <= i && i + |sub| <= |s| && s[i..i + |sub|] == sub
  }

  /** `String.prototype.includes`. */
  predicate Contains(s: string, sub: string)
    decreases |s|
  {
    |sub| <= |s| && (s[..|sub|] == sub || Contains(s[1..], sub))
  }

  /** `Contains` holds exactly when `sub` occurs at some position of `s`. */
  lemma {:induction false} ContainsSpec(s: string, sub: string)
    ensures Contains(s, sub) <==> exists i :: OccursAt(s, sub, i)
    decreases |s|
  {
    if |sub| <= |s| {
      if s[..|sub|] == sub {
        assert OccursAt(s, sub, 0);
      } else {
        ContainsSpec(s[1..], sub);
        if Contains(s[1..], sub) {
          var i :| OccursAt(s[1..], sub, i);
          assert s[1..][i..i + |sub|] == s[i + 1..i + 1 + |sub|];
          assert OccursAt(s, sub, i + 1);
        }
        if i :| OccursAt(s, sub, i) {
          assert i != 0;
          assert s[1..][i - 1..i - 1 + |sub|] == s[i..i + |sub|];
          assert OccursAt(s[1..], sub, i - 1);
        }
      }
    } else {
      if i :| OccursAt(s, sub, i) {
        assert false;
      }
    }
  }

  /** `String.prototype.startsWith`. */
  predicate StartsWith(s: string, prefix: string)
  {
    |prefix| <= |s| && s[..|prefix|] == prefix
  }

  /** `String.prototype.padStart` with a one-character fill string. */
  function PadStart(s: string, width: nat, fill: char): (r: string)
    ensures |r| == if |s| >= width then |s| else width
    ensures r[|r| - |s|..] == s
    ensures forall k | 0 <= k < |r| - |s| :: r[k] == fill
  {
    if |s| >= width then s else seq(width - |s|, _ => fill) + s
  }

  /** `String.prototype.split` with a one-character separator. */
  function Split(s: string, sep: char): (r: seq<string>)
    ensures |r| >= 1
    ensures forall k | 0 <= k < |r| :: sep !in r[k]
  {
    if s == [] then [[]]
    else
      var parts := Split(s[..|s| - 1], sep);
      var c := s[|s| - 1];
      if c == sep then parts + [[]]
      else parts[..|parts| - 1] + [parts[|parts| - 1] + [c]]
  }

  function Join(parts: seq<string>, sep: char): string
    requires |parts| >= 1
  {
    if |parts| == 1 then parts[0] else Join(parts[..|parts| - 1], sep) + [sep] + parts[|parts| - 1]
  }

  /** Joining the pieces of a split with the separator gives back the string. */
  lemma {:induction false} JoinSplit(s: string, sep: char)
    ensures Join(Split(s, sep), sep) == s
  {
    if s != [] {
      var n := |s| - 1;
      var parts := Split(s[..n], sep);
      JoinSplit(s[..n], sep);
      assert s == s[..n] + [s[n]];
      if s[n] != sep {
        var m := |parts| - 1;
        var parts' := parts[..m] + [parts[m] + [s[n]]];
        assert parts'[..m] == parts[..m];
        if m > 0 {
          assert Join(parts', sep) == Join(parts[..m], sep) + [sep] + (parts[m] + [s[n]]);
        }
      }
    }
  }

  /** Splitting a join of separator-free pieces gives back the pieces. */
  lemma {:induction false} SplitJoin(parts: seq<string>, sep: char)
    requires |parts| >= 1
    requires forall k | 0 <= k < |parts| :: sep !in parts[k]
    ensures Split(Join(parts, sep), sep) == parts
  {
    var m := |parts| - 1;
    if m == 0 {
      SplitNoSeparator(parts[0], sep);
    } else {
      var init := parts[..m];
      assert forall k | 0 <= k < |init| :: init[k] == parts[k];
      SplitJoin(init, sep);
      assert Join(parts, sep) == Join(init, sep) + [sep] + parts[m];
      SplitAppend(Join(init, sep), parts[m], sep);
      assert parts == init + [parts[m]];
    }
  }

  /** A string without the separator splits into itself alone. */
  lemma {:induction false} SplitNoSeparator(t: string, sep: char)
    requires sep !in t
    ensures Split(t, sep) == [t]
  {
    if t != [] {
      var n := |t| - 1;
      SplitNoSeparator(t[..n], sep);
      assert t[..n] + [t[n]] == t;
    }
  }

  /** Appending the separator and a separator-free piece adds that piece to
      the split. */
  lemma {:induction false} SplitAppend(s: string, t: string, sep: char)
    requires sep !in t
    ensures Split(s + [sep] + t, sep) == Split(s, sep) + [t]
  {
    var u := s + [sep] + t;
    if t == [] {
      assert u == s + [sep];
      assert u[..|u| - 1] == s;
    } else {
      var n := |t| - 1;
      var t' := t[..n];
      SplitAppend(s, t', sep);
      assert u[..|u| - 1] == s + [sep] + t';
      assert u[|u| - 1] == t[n];
      var parts := Split(s, sep) + [t'];
      assert parts[..|parts| - 1] == Split(s, sep);
      assert t' + [t[n]] == t;
    }
  }

  function DigitChar(d: nat): (c: char)
    requires d < 10
    ensures IsDigit(c)
  {
    (48 + d) as char
  }

  function DigitValue(c: char): (d: nat)
    requires IsDigit(c)
    ensures d < 10
  {
    c as int - 48
  }

  /** Decimal rendering of a natural number, as `String(n)` gives it. */
  function NatString(n: nat): (r: string)
    ensures |r| >= 1
    ensures forall k | 0 <= k < |r| :: IsDigit(r[k])
    ensures |r| > 1 ==> r[0] != '0'
    ensures n < 10 <==> |r| == 1
  {
    if n < 10 then [DigitChar(n)] else NatString(n / 10) + [DigitChar(n % 10)]
  }

  /** Value of a string of decimal digits. */
  function DigitsValue(s: string): nat
    requires forall k | 0 <= k < |s| :: IsDigit(s[k])
  {
    if s == [] then 0 else 10 * DigitsValue(s[..|s| - 1]) + DigitValue(s[|s| - 1])
  }

  /** Reading back the decimal rendering of `n` gives `n`. */
  lemma {:induction false} NatStringValue(n: nat)
    ensures DigitsValue(NatString(n)) == n
  {
    if n >= 10 {
      NatStringValue(n / 10);
      var r := NatString(n);
      assert r[..|r| - 1] == NatString(n / 10);
    }
  }

  /** Decimal rendering of an integer (`String(n)` / `n.toString()` for safe integers). */
  function IntString(n: int): (r: string)
    ensures |r| >= 1
    ensures n < 0 <==> r[0] == '-'
  {
    if n < 0 then "-" + NatString(-n) else NatString(n)
  }

  /** Lexicographic order on code points, the order `localeCompare` gives
      the model's fixed-format date strings. */
  predicate StrLe(a: string, b: string)
    decreases |a|
  {
    a == [] || (b != [] && (a[0] < b[0] || (a[0] == b[0] && StrLe(a[1..], b[1..]))))
  }

  lemma {:induction false} StrLeReflexive(a: string)
    ensures StrLe(a, a)
    decreases |a|
  {
    if a != [] {
      StrLeReflexive(a[1..]);
    }
  }

  lemma {:induction false} StrLeTotal(a: string, b: string)
    ensures StrLe(a, b) || StrLe(b, a)
    decreases |a|
  {
    if a != [] && b != [] && a[0] == b[0] {
      StrLeTotal(a[1..], b[1..]);
    }
  }

  lemma {:induction false} StrLeTransitive(a: string, b: string, c: string)
    requires StrLe(a, b) && StrLe(b, c)
    ensures StrLe(a, c)
    decreases |a|
  {
    if a != [] && a[0] == b[0] && b[0] == c[0] {
      StrLeTransitive(a[1..], b[1..], c[1..]);
    }
  }

  lemma {:induction false} StrLeAntisymmetric(a: string, b: string)
    requires StrLe(a, b) && StrLe(b, a)
    ensures a == b
    decreases |a|
  {
    if a != [] {
      StrLeAntisymmetric(a[1..], b[1..]);
      assert a == [a[0]] + a[1..] && b == [b[0]] + b[1..];
    }
  }
}
