/** The pure helpers of the Telegram bot: who may authenticate, reading the
    referral payload of `/start`, whether the webhook needs setting, channel
    subscription, the closed-testing mode, the language buttons and the
    MarkdownV2 escaping of message text. */
module Bot {
  import opened Wrappers
  import opened Seqs
  import opened Text
  import opened Lang

  // ----- Authentication -----

  /** A Telegram id as the handlers receive it: absent, text or a number. */
  datatype TelegramId = Absent | TextId(text: string) | NumberId(number: int)

  /** JavaScript truthiness of an id. */
  predicate Truthy(id: TelegramId)
  {
    match id
    case Absent => false
    case TextId(s) => s != ""
    case NumberId(n) => n != 0
  }

  /** Only a present, non-empty, non-zero id may authenticate. */
  function CanAuthenticate(id: TelegramId): (r: bool)
    ensures r <==> id != Absent && id != TextId("") && id != NumberId(0)
    ensures r <==> Truthy(id)
  {
    if !Truthy(id) then false else true
  }

  // ----- The /start payload -----

  const ReferralPrefix := "kentId"

  /** The second space-separated word of the message text, if any. */
  function StartPayload(text: Option<string>): (r: Option<string>)
    ensures r.Some? <==> text.Some? && |Split(text.value, ' ')| >= 2
    ensures r.Some? ==> r.value == Split(text.value, ' ')[1] && ' ' !in r.value
  {
    if text.None? then None
    else
      var words := Split(text.value, ' ');
      if |words| >= 2 then Some(words[1]) else None
  }

  /** The referrer named by `/start`: present only when the payload starts
      with the referral prefix and something follows it. Every other
      message gets the plain start reply. */
  function StartReferrer(text: Option<string>): (r: Option<string>)
    ensures r.Some? <==> StartPayload(text).Some? && StartsWith(StartPayload(text).value, ReferralPrefix)
                         && |StartPayload(text).value| > |ReferralPrefix|
    ensures r.Some? ==> ReferralPrefix + r.value == StartPayload(text).value && r.value != ""
  {
    var payload := StartPayload(text);
    if payload.None? || payload.value == "" then None
    else if !StartsWith(payload.value, ReferralPrefix) then None
    else
      var referrerId := payload.value[|ReferralPrefix|..];
      if |referrerId| == 0 then None
      else Some(referrerId)
  }

  /** A command followed by the prefixed referrer id, with any further words,
      yields that referrer id. */
  lemma StartReferrerOfCommand(command: string, referrerId: string, rest: seq<string>, words: seq<string>)
    requires ' ' !in command && ' ' !in referrerId && referrerId != ""
    requires forall k | 0 <= k < |rest| :: ' ' !in rest[k]
    requires words == [command, ReferralPrefix + referrerId] + rest
    ensures StartReferrer(Some(Join(words, ' '))) == Some(referrerId)
  {
    assert ' ' !in ReferralPrefix + referrerId;
    assert forall k | 2 <= k < |words| :: words[k] == rest[k - 2];
    assert forall k | 0 <= k < |words| :: ' ' !in words[k];
    ReferrerOfWords(words, referrerId);
  }

  lemma ReferrerOfWords(words: seq<string>, referrerId: string)
    requires |words| >= 2 && forall k | 0 <= k < |words| :: ' ' !in words[k]
    requires words[1] == ReferralPrefix + referrerId && referrerId != ""
    ensures StartReferrer(Some(Join(words, ' '))) == Some(referrerId)
  {
    SplitJoin(words, ' ');
    ReferrerOfPayload(Join(words, ' '), referrerId);
  }

  lemma ReferrerOfPayload(text: string, referrerId: string)
    requires StartPayload(Some(text)) == Some(ReferralPrefix + referrerId) && referrerId != ""
    ensures StartReferrer(Some(text)) == Some(referrerId)
  {
    var payload := ReferralPrefix + referrerId;
    assert payload[..|ReferralPrefix|] == ReferralPrefix;
    assert payload[|ReferralPrefix|..] == referrerId;
  }

  // ----- Setting the webhook -----

  /** The update kinds the bot subscribes to. */
  const AllowedUpdates: seq<string> := [
    "message", "chat_member", "my_chat_member", "callback_query", "shipping_query",
    "inline_query", "business_message", "chat_join_request", "chosen_inline_result",
    "pre_checkout_query"]

  /** Every required kind is in the list Telegram reports; a missing list
      includes nothing. */
  function AllIncluded(required: seq<string>, reported: Option<seq<string>>): (r: bool)
    ensures r <==> required == [] || (reported.Some? && forall u | u in required :: u in reported.value)
  {
    if required == [] then true
    else reported.Some? && required[0] in reported.value && AllIncluded(required[1..], reported)
  }

  /** The webhook is left alone when Telegram already has the configured
      url and every required update kind; otherwise it is set again. */
  function WebhookAlreadySet(url: string, reported: Option<seq<string>>, configuredUrl: string): (r: bool)
    ensures r <==> url == configuredUrl && reported.Some? && forall u | u in AllowedUpdates :: u in reported.value
  {
    url == configuredUrl && AllIncluded(AllowedUpdates, reported)
  }

  /** Reporting more kinds than required still counts as set, and losing any
      required kind makes the bot set the webhook again. */
  lemma WebhookAlreadySetMonotone(url: string, reported: seq<string>, extra: seq<string>, missing: string)
    requires WebhookAlreadySet(url, Some(reported), url)
    requires missing in AllowedUpdates
    ensures WebhookAlreadySet(url, Some(reported + extra), url)
    ensures !WebhookAlreadySet(url, Some(Filter(reported, u => u != missing)), url)
  {
    FilterMembers(reported, u => u != missing);
  }

  // ----- Channel subscription and closed testing -----

  const SubscribedStatuses: seq<string> := ["creator", "administrator", "member", "restricted"]

  /** A channel member counts as subscribed unless they left, were kicked or
      have a status the bot does not know. */
  function IsTgSubscriptionComplete(status: string): (r: bool)
    ensures r <==> status in SubscribedStatuses
    ensures status == "left" || status == "kicked" ==> !r
  {
    match status
    case "creator" => true
    case "administrator" => true
    case "member" => true
    case "restricted" => true
    case "left" => false
    case "kicked" => false
    case _ => false
  }

  /** The three access flags of a closed-testing user; an absent flag is
      `None`. */
  datatype CbtUser = CbtUser(fightClubAccess: Option<bool>, gameDevAccess: Option<bool>, kingAccess: Option<bool>)

  function Flags(u: CbtUser): seq<Option<bool>>
  {
    [u.fightClubAccess, u.gameDevAccess, u.kingAccess]
  }

  /** A closed-testing user is in that mode when any of the flags is set. */
  function IsCbtMode(u: CbtUser): (r: bool)
    ensures r <==> Some(true) in Flags(u)
    ensures r <==> exists k | 0 <= k < 3 :: Flags(u)[k] == Some(true)
  {
    u.fightClubAccess == Some(true) || u.gameDevAccess == Some(true) || u.kingAccess == Some(true)
  }

  // ----- Language buttons -----

  /** An inline button with its text and callback data. */
  datatype Button = Button(text: string, data: string)

  function LangButton(l: Lang): Button
  {
    Button(GetLangLabel(l), Key(l))
  }

  /** One button per language other than the current one, in locale order,
      or none when language buttons are switched off. */
  function LangBtns(showLangBts: bool, current: Lang): (r: seq<Button>)
    ensures !showLangBts ==> r == []
  {
    if showLangBts then Map(Filter(Langs, IsNot(current)), LangButton) else []
  }

  function IsNot(current: Lang): Lang -> bool { (m: Lang) => m != current }

  /** With buttons on, the list has five buttons, offers every language but
      the current one, and each button's data is a distinct locale key. */
  lemma LangBtnsSpec(current: Lang, l: Lang)
    ensures |LangBtns(true, current)| == 5
    ensures LangButton(l) in LangBtns(true, current) <==> l != current
    ensures Distinct(Map(LangBtns(true, current), (b: Button) => b.data))
  {
    LangBtnsCount(current);
    LangBtnsMembers(current, l);
    LangBtnsDistinct(current);
  }

  lemma LangBtnsCount(current: Lang)
    ensures |LangBtns(true, current)| == 5
  {
    LangsComplete(current);
    assert multiset(Langs)[current] == 1;
    CountFiltered(Langs, current);
  }

  lemma LangBtnsMembers(current: Lang, l: Lang)
    ensures LangButton(l) in LangBtns(true, current) <==> l != current
  {
    if LangButton(l) in LangBtns(true, current) {
      LangBtnsOnlyOthers(current, l);
    }
    if l != current {
      LangBtnsAllOthers(current, l);
    }
  }

  lemma LangBtnsOnlyOthers(current: Lang, l: Lang)
    requires LangButton(l) in LangBtns(true, current)
    ensures l != current
  {
    var kept := Filter(Langs, IsNot(current));
    var r := LangBtns(true, current);
    assert r == Map(kept, LangButton);
    var i :| 0 <= i < |kept| && r[i] == LangButton(l);
    KeyInjective(kept[i], l);
    assert kept[i] in kept;
    FilterMembers(Langs, IsNot(current));
  }

  lemma LangBtnsAllOthers(current: Lang, l: Lang)
    requires l != current
    ensures LangButton(l) in LangBtns(true, current)
  {
    var kept := Filter(Langs, IsNot(current));
    var r := LangBtns(true, current);
    assert r == Map(kept, LangButton);
    assert l in kept by {
      assert l in Langs;
      FilterMembers(Langs, IsNot(current));
    }
    var i := IndexOf(kept, l);
    assert r[i] == LangButton(l);
  }

  /** Different languages have different locale keys: already their first
      letters differ. */
  lemma KeyInjective(a: Lang, b: Lang)
    ensures Key(a) == Key(b) ==> a == b
  {
    assert Key(a)[0] == Key(b)[0] ==> a == b;
  }

  lemma LangBtnsDistinct(current: Lang)
    ensures Distinct(Map(LangBtns(true, current), (b: Button) => b.data))
  {
    var kept := Filter(Langs, IsNot(current));
    LangsComplete(current);
    FilterDistinct(Langs, IsNot(current), Key);
    assert Map(LangBtns(true, current), (b: Button) => b.data) == Map(kept, Key);
  }

  /** Dropping the one occurrence of a language leaves one fewer. */
  lemma CountFiltered(s: seq<Lang>, x: Lang)
    requires multiset(s)[x] == 1
    ensures |Filter(s, IsNot(x))| == |s| - 1
  {
    FilterSpec(s, IsNot(x));
    var f := Filter(s, IsNot(x));
    assert multiset(f) == multiset(s) - multiset{x} by {
      forall y
        ensures multiset(f)[y] == (multiset(s) - multiset{x})[y]
      {
      }
    }
  }

  // ----- MarkdownV2 escaping -----

  /** The characters MarkdownV2 reserves. */
  const Special: set<char> := {'_', '*', '[', ']', '(', ')', '~', '`', '>', '#', '+', '-', '=', '|', '{', '}', '.', '!'}

  function CountSpecial(s: string): nat
  {
    if s == [] then 0 else (if s[0] in Special then 1 else 0) + CountSpecial(s[1..])
  }

  /** Message text with a backslash put before every reserved character;
      everything else, backslashes included, is kept in order. */
  function EscapeMarkdownV2(s: string): (r: string)
    ensures |r| == |s| + CountSpecial(s)
    ensures r != [] ==> r[0] !in Special
    ensures forall c | c in r :: c in s || c == '\\'
  {
    if s == [] then []
    else (if s[0] in Special then ['\\', s[0]] else [s[0]]) + EscapeMarkdownV2(s[1..])
  }

  /** Reading an escaped text: a backslash before a reserved character is
      dropped, every other character is kept. */
  function Unescape(t: string): (r: string)
    decreases |t|
  {
    if t == [] then []
    else if |t| >= 2 && t[0] == '\\' && t[1] in Special then [t[1]] + Unescape(t[2..])
    else [t[0]] + Unescape(t[1..])
  }

  /** Unescaping an escaped text gives back the original. */
  lemma {:induction false} UnescapeEscape(s: string)
    ensures Unescape(EscapeMarkdownV2(s)) == s
  {
    if s != [] {
      var rest := EscapeMarkdownV2(s[1..]);
      UnescapeEscape(s[1..]);
      if s[0] in Special {
        var t := ['\\', s[0]] + rest;
        assert t[2..] == rest;
      } else {
        var t := [s[0]] + rest;
        assert t[1..] == rest;
        if |t| >= 2 {
          assert t[1] == rest[0];
        }
      }
    }
  }

  /** Escaping works character by character, so it distributes over
      concatenation. */
  lemma {:induction false} EscapeAppend(a: string, b: string)
    ensures EscapeMarkdownV2(a + b) == EscapeMarkdownV2(a) + EscapeMarkdownV2(b)
    ensures CountSpecial(a + b) == CountSpecial(a) + CountSpecial(b)
  {
    if a != [] {
      assert (a + b)[1..] == a[1..] + b;
      EscapeAppend(a[1..], b);
    } else {
      assert a + b == b;
    }
  }

  /** Text without reserved characters is sent unchanged. */
  lemma {:induction false} EscapePlain(s: string)
    requires forall k | 0 <= k < |s| :: s[k] !in Special
    ensures EscapeMarkdownV2(s) == s
  {
    if s != [] {
      EscapePlain(s[1..]);
    }
  }
}
