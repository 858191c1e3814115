/** The bot's interface languages: choosing one from a Telegram language
    code, and the flag shown on the button that switches to it. */
module Lang {
  import opened Wrappers
  import opened Seqs

  /** The keys of the locale's start message. */
  datatype Lang = En | Ru | Latam | Uz | Vn | Br

  /** Every language, in the order of the locale's keys. */
  const Langs: seq<Lang> := [En, Ru, Latam, Uz, Vn, Br]

  /** The locale key of a language, also the callback data of its button. */
  function Key(l: Lang): string
  {
    match l
    case En => "en"
    case Ru => "ru"
    case Latam => "latam"
    case Uz => "uz"
    case Vn => "vn"
    case Br => "br"
  }

  /** Reference table: the language codes that select each language other
      than the default English. */
  function Codes(l: Lang): seq<string>
  {
    match l
    case En => []
    case Ru => ["ru", "ua", "kz"]
    case Latam => ["ar", "cl", "co", "mx", "pe"]
    case Uz => ["uz"]
    case Vn => ["vn"]
    case Br => ["br"]
  }

  lemma LangsComplete(l: Lang)
    ensures l in Langs && Distinct(Langs)
    ensures Distinct(Map(Langs, Key))
  {
  }

  /** The language of a user's Telegram language code: a missing or empty
      code is English, a listed code selects its language, and every other
      code falls back to English. */
  function GetLang(code: Option<string>): (r: Lang)
    ensures forall l | l != En :: r == l <==> code.Some? && code.value in Codes(l)
    ensures code.None? || code == Some("") ==> r == En
  {
    if code.None? || code.value == "" then En
    else if code.value in ["ru", "ua", "kz"] then Ru
    else if code.value in ["ar", "cl", "co", "mx", "pe"] then Latam
    else if code.value == "uz" then Uz
    else if code.value == "vn" then Vn
    else if code.value == "br" then Br
    else En
  }

  /** No code selects two languages. */
  lemma CodesDisjoint(a: Lang, b: Lang, c: string)
    requires c in Codes(a) && c in Codes(b)
    ensures a == b
  {
  }

  /** A locale key read back as a language code gives its language, except
      "latam", which is not a Telegram code and so gives English. */
  lemma GetLangOfKey(l: Lang)
    ensures GetLang(Some(Key(l))) == l <==> l != Latam
    ensures GetLang(Some(Key(Latam))) == En
  {
  }

  /** The two-letter region whose flag stands for a language. */
  function Region(l: Lang): string
  {
    match l
    case En => "US"
    case Ru => "RU"
    case Latam => "MX"
    case Uz => "UZ"
    case Vn => "VN"
    case Br => "BR"
  }

  predicate IsUpperLetter(c: char) { 'A' <= c <= 'Z' }

  /** The regional indicator symbol of a capital letter (U+1F1E6 is A). */
  function Indicator(c: char): (r: char)
    requires IsUpperLetter(c)
    ensures 0x1F1E6 <= r as int <= 0x1F1FF
  {
    (0x1F1E6 + (c as int - 'A' as int)) as char
  }

  function IndicatorLetter(r: char): (c: char)
    requires 0x1F1E6 <= r as int <= 0x1F1FF
    ensures IsUpperLetter(c)
  {
    ('A' as int + (r as int - 0x1F1E6)) as char
  }

  /** The flag emoji of a region: one regional indicator per letter. */
  function Flag(region: string): (r: string)
    requires forall k | 0 <= k < |region| :: IsUpperLetter(region[k])
    ensures |r| == |region|
    ensures forall k | 0 <= k < |r| :: r[k] == Indicator(region[k])
  {
    seq(|region|, k requires 0 <= k < |region| => Indicator(region[k]))
  }

  /** The letters a flag is spelt with. */
  function FlagRegion(flag: string): (r: string)
    requires forall k | 0 <= k < |flag| :: 0x1F1E6 <= flag[k] as int <= 0x1F1FF
    ensures |r| == |flag|
  {
    seq(|flag|, k requires 0 <= k < |flag| => IndicatorLetter(flag[k]))
  }

  /** Reading the letters back from a flag gives the region. */
  lemma FlagRoundTrip(region: string)
    requires forall k | 0 <= k < |region| :: IsUpperLetter(region[k])
    ensures FlagRegion(Flag(region)) == region
  {
    var f := Flag(region);
    var back := FlagRegion(f);
    forall k | 0 <= k < |region|
      ensures back[k] == region[k]
    {
      assert f[k] == Indicator(region[k]);
    }
  }

  // ----- Button labels -----

  /** The UTF-8 encoding of a code point outside the Basic Multilingual
      Plane: four bytes. */
  function Utf8Astral(c: char): (r: seq<nat>)
    requires 0x10000 <= c as int
    ensures |r| == 4
    ensures 0xF0 <= r[0] < 0xF8 && forall k | 1 <= k < 4 :: 0x80 <= r[k] < 0xC0
  {
    var n := c as int;
    [0xF0 + n / 0x40000, 0x80 + n / 0x1000 % 64, 0x80 + n / 64 % 64, 0x80 + n % 64]
  }

  /** The code point four UTF-8 bytes stand for. */
  function Utf8AstralValue(b: seq<nat>): int
    requires |b| == 4
  {
    (b[0] as int - 0xF0) * 0x40000 + (b[1] as int - 0x80) * 0x1000 + (b[2] as int - 0x80) * 64 + (b[3] as int - 0x80)
  }

  /** Decoding the four bytes gives the code point back. */
  lemma Utf8AstralRoundTrip(c: char)
    requires 0x10000 <= c as int
    ensures Utf8AstralValue(Utf8Astral(c)) == c as int
  {
    var n := c as int;
    assert n == n / 0x40000 * 0x40000 + n / 0x1000 % 64 * 0x1000 + n / 64 % 64 * 64 + n % 64;
  }

  /** A byte read as TIS-620 (Thai) text: the bytes from 0xA1 on are the Thai
      block from U+0E01 on, and lower bytes stand for the code point with
      the same number. */
  function ThaiChar(b: nat): (c: char)
    requires b < 0xFC
  {
    if b >= 0xA1 then (0x0E00 + b - 0xA0) as char else b as char
  }

  /** The byte a TIS-620 character was read from. */
  function ThaiByte(c: char): nat
  {
    if 0x0E01 <= c as int <= 0x0E5B then c as int - 0x0E00 + 0xA0 else c as int
  }

  lemma ThaiRoundTrip(b: nat)
    requires b < 0xFC
    ensures ThaiByte(ThaiChar(b)) == b
  {
  }

  /** A character outside the Basic Multilingual Plane, encoded as UTF-8 and
      the bytes read back as TIS-620. */
  function MisreadChar(c: char): (r: string)
    requires 0x10000 <= c as int
    ensures |r| == 4
  {
    var b := Utf8Astral(c);
    [ThaiChar(b[0]), ThaiChar(b[1]), ThaiChar(b[2]), ThaiChar(b[3])]
  }

  /** A string of characters outside the Basic Multilingual Plane, saved as
      UTF-8 and read back as TIS-620 text. */
  function Misread(s: string): (r: string)
    requires forall k | 0 <= k < |s| :: 0x10000 <= s[k] as int
    ensures |r| == 4 * |s|
  {
    if s == [] then [] else MisreadChar(s[0]) + Misread(s[1..])
  }

  /** The code points of a string. */
  function CodePoints(s: string): (r: seq<int>)
    ensures |r| == |s|
    ensures forall k | 0 <= k < |s| :: r[k] == s[k] as int
  {
    seq(|s|, k requires 0 <= k < |s| => s[k] as int)
  }

  /** Recovery of a misread text: its characters taken back to TIS-620 bytes
      and decoded as UTF-8, four bytes at a time. */
  function Reread(t: string): (r: seq<int>)
    requires |t| % 4 == 0
    ensures |r| == |t| / 4
  {
    if t == [] then []
    else
      [Utf8AstralValue([ThaiByte(t[0]), ThaiByte(t[1]), ThaiByte(t[2]), ThaiByte(t[3])])] + Reread(t[4..])
  }

  /** Rereading a misread string gives its code points back. */
  lemma {:induction false} RereadMisread(s: string)
    requires forall k | 0 <= k < |s| :: 0x10000 <= s[k] as int
    ensures Reread(Misread(s)) == CodePoints(s)
  {
    if s != [] {
      var t := Misread(s);
      var b := Utf8Astral(s[0]);
      assert t[..4] == MisreadChar(s[0]) && t[4..] == Misread(s[1..]);
      forall k | 0 <= k < 4
        ensures ThaiByte(t[k]) == b[k]
      {
        ThaiRoundTrip(b[k]);
      }
      assert [ThaiByte(t[0]), ThaiByte(t[1]), ThaiByte(t[2]), ThaiByte(t[3])] == b;
      Utf8AstralRoundTrip(s[0]);
      RereadMisread(s[1..]);
      assert CodePoints(s) == [s[0] as int] + CodePoints(s[1..]);
    }
  }

  /** A regional indicator misread: three fixed characters, then the Thai
      letter six past U+0E00 for A, one further for each later letter. */
  lemma MisreadIndicator(c: char)
    requires IsUpperLetter(c)
    ensures MisreadChar(Indicator(c)) == ['\U{0E50}', '\U{9F}', '\U{87}', (0x0E06 + (c as int - 'A' as int)) as char]
  {
    var n := Indicator(c) as int;
    assert n / 0x40000 == 0 && n / 0x1000 % 64 == 31 && n / 64 % 64 == 7;
    assert n % 64 == 0x26 + (c as int - 'A' as int);
  }

  /** The misread flag of a two-letter region. */
  lemma MisreadFlag(region: string)
    requires |region| == 2 && IsUpperLetter(region[0]) && IsUpperLetter(region[1])
    ensures Misread(Flag(region)) == MisreadChar(Indicator(region[0])) + MisreadChar(Indicator(region[1]))
  {
    var f := Flag(region);
    assert f[1..] == [Indicator(region[1])] && f[1..][1..] == [];
  }

  /** The label of a language's button as the source file holds it: the flag
      of its region saved as UTF-8 and read back as TIS-620 text, eight
      characters such as U+0E50 U+009F U+0087 U+0E17 for the indicator R. */
  function GetLangLabel(l: Lang): (r: string)
    ensures |r| == 8
    ensures r == Misread(Flag(Region(l)))
  {
    var region := Region(l);
    MisreadFlag(region);
    MisreadIndicator(region[0]);
    MisreadIndicator(region[1]);
    match l
    case Ru => "\U{0E50}\U{9F}\U{87}\U{0E17}\U{0E50}\U{9F}\U{87}\U{0E1A}"
    case En => "\U{0E50}\U{9F}\U{87}\U{0E1A}\U{0E50}\U{9F}\U{87}\U{0E18}"
    case Latam => "\U{0E50}\U{9F}\U{87}\U{0E12}\U{0E50}\U{9F}\U{87}\U{0E1D}"
    case Uz => "\U{0E50}\U{9F}\U{87}\U{0E1A}\U{0E50}\U{9F}\U{87}\U{0E1F}"
    case Vn => "\U{0E50}\U{9F}\U{87}\U{0E1B}\U{0E50}\U{9F}\U{87}\U{0E13}"
    case Br => "\U{0E50}\U{9F}\U{87}\U{0E07}\U{0E50}\U{9F}\U{87}\U{0E17}"
  }

  lemma CodePointsInjective(f: string, g: string)
    requires CodePoints(f) == CodePoints(g)
    ensures f == g
  {
    forall k | 0 <= k < |f|
      ensures f[k] == g[k]
    {
      assert CodePoints(f)[k] == CodePoints(g)[k];
    }
  }

  /** Rereading a label gives the flag of its language's region, and the
      region can be read off that flag. */
  lemma LabelRereads(l: Lang)
    ensures Reread(GetLangLabel(l)) == CodePoints(Flag(Region(l)))
    ensures FlagRegion(Flag(Region(l))) == Region(l)
  {
    RereadMisread(Flag(Region(l)));
    FlagRoundTrip(Region(l));
  }

  /** Each label rereads as its language's flag, and different languages
      have different labels. */
  lemma {:induction false} LabelIsFlag(l: Lang, m: Lang)
    ensures Reread(GetLangLabel(l)) == CodePoints(Flag(Region(l)))
    ensures GetLangLabel(l) == GetLangLabel(m) ==> l == m
  {
    LabelRereads(l);
    LabelRereads(m);
    if GetLangLabel(l) == GetLangLabel(m) {
      CodePointsInjective(Flag(Region(l)), Flag(Region(m)));
      assert Region(l) == Region(m);
    }
  }
}
