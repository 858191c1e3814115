/** The Telegram webhook endpoint: choosing which bot an update belongs to
    from its secret token, and the time-interval helper defined beside it.
    Instants are milliseconds since the epoch. */
module Webhook {
  import opened Wrappers

  datatype Interval = Interval(start: int, end: int)

  /** A half-open interval holds at least one instant. */
  predicate NonEmpty(i: Interval) { i.start < i.end }

  /** `contains` as written: the instant is not before the start and not
      before the end either. */
  predicate ContainsAsWritten(i: Interval, d: int)
  {
    i.start <= d && d >= i.end
  }

  /** `contains` as intended: the instant lies in the half-open interval. */
  predicate Contains(i: Interval, d: int)
  {
    i.start <= d < i.end
  }

  /** The written test holds exactly from the later of the two bounds on,
      so for a non-empty interval it accepts no instant of the interval
      and every instant from the end on. */
  lemma ContainsAsWrittenMeaning(i: Interval, d: int)
    ensures ContainsAsWritten(i, d) <==> d >= (if i.start < i.end then i.end else i.start)
    ensures NonEmpty(i) ==> (ContainsAsWritten(i, d) <==> !Contains(i, d) && d >= i.end)
  {
  }

  /** The interval from 0 to 10 holds 5, which the written test rejects, and
      does not hold 20, which the written test accepts. */
  lemma ContainsAsWrittenCounterexample(i: Interval, inside: int, after: int)
    requires i == Interval(0, 10) && inside == 5 && after == 20
    ensures Contains(i, inside) && !ContainsAsWritten(i, inside)
    ensures !Contains(i, after) && ContainsAsWritten(i, after)
  {
  }

  /** One interval starts inside the other. */
  predicate Intersects(a: Interval, b: Interval)
  {
    (a.start >= b.start && a.start < b.end) || (b.start >= a.start && b.start < a.end)
  }

  lemma IntersectsSymmetric(a: Interval, b: Interval)
    ensures Intersects(a, b) <==> Intersects(b, a)
  {
  }

  /** For non-empty intervals the test agrees with the reference: some
      instant lies in both, equivalently the later start is before the
      earlier end. */
  lemma IntersectsCommonInstant(a: Interval, b: Interval)
    requires NonEmpty(a) && NonEmpty(b)
    ensures Intersects(a, b) <==> exists d :: Contains(a, d) && Contains(b, d)
    ensures Intersects(a, b) <==> Max(a.start, b.start) < Min(a.end, b.end)
  {
    var s := Max(a.start, b.start);
    if Intersects(a, b) {
      assert Contains(a, s) && Contains(b, s);
    }
  }

  /** An interval overlaps itself exactly when it is not empty. */
  lemma IntersectsSelf(a: Interval)
    ensures Intersects(a, a) <==> NonEmpty(a)
  {
  }

  /** Beyond the reference: an empty interval whose instant lies inside
      another one counts as intersecting it. */
  lemma EmptyIntervalIntersects(a: Interval, b: Interval)
    requires a.start == a.end && Contains(b, a.start)
    ensures Intersects(a, b) && !(exists d :: Contains(a, d) && Contains(b, d))
  {
  }

  function Max(x: int, y: int): int { if x < y then y else x }
  function Min(x: int, y: int): int { if x < y then x else y }

  // ----- The endpoint -----

  /** The two bots an update can be routed to. */
  datatype Target = Primary | MirrorBot

  /** The bot an update is addressed to: the primary bot when the token is
      its secret, otherwise the mirror when the token is the mirror's
      secret, otherwise none. */
  function SelectBot(token: string, secret: string, mirrorSecret: Option<string>): (r: Option<Target>)
    ensures r == Some(Primary) <==> token == secret
    ensures r == Some(MirrorBot) <==> token != secret && mirrorSecret == Some(token)
    ensures r.None? <==> token != secret && mirrorSecret != Some(token)
  {
    if token == secret then Some(Primary)
    else if mirrorSecret.Some? && token == mirrorSecret.value then Some(MirrorBot)
    else None
  }

  /** Whether the chosen bot processed the update or its handler threw. */
  datatype Outcome = Handled | Threw

  /** The HTTP reply: a status when one was set (the framework's 200
      otherwise) and a text body; an empty body is `None`. */
  datatype Response = Response(status: Option<nat>, body: Option<string>)

  const Unauthorized := Response(Some(401), Some("Error"))

  /** The POST handler. The secret-token header is read first: a missing or
      empty header, or one matching neither secret, is refused with 401
      "Error". Otherwise the update goes to the chosen bot, whose `handle`
      stands for its update handler; the reply is "Ok" when it succeeds,
      and an empty body when it throws, because the error is only logged. */
  function TelegramBotWebhook(header: Option<string>, secret: string, mirrorSecret: Option<string>,
                              handle: Target -> Outcome): (r: Response)
    ensures r == Unauthorized <==>
      header.None? || header.value == "" || SelectBot(header.value, secret, mirrorSecret).None?
    ensures r.status.None? <==> r != Unauthorized
    ensures r == Response(None, Some("Ok")) <==>
      header.Some? && header.value != "" && SelectBot(header.value, secret, mirrorSecret).Some?
      && handle(SelectBot(header.value, secret, mirrorSecret).value) == Handled
  {
    if header.None? || header.value == "" then Unauthorized
    else
      var bot := SelectBot(header.value, secret, mirrorSecret);
      if bot.None? then Unauthorized
      else if handle(bot.value) == Handled then Response(None, Some("Ok"))
      else Response(None, None)
  }

  /** The primary bot wins when both bots share a secret, and the mirror is
      reachable only through its own, different secret. */
  lemma PrimaryPreferred(secret: string, handle: Target -> Outcome)
    requires secret != ""
    ensures SelectBot(secret, secret, Some(secret)) == Some(Primary)
    ensures TelegramBotWebhook(Some(secret), secret, Some(secret), handle) ==
      (if handle(Primary) == Handled then Response(None, Some("Ok")) else Response(None, None))
  {
  }

  /** Without a mirror, only the primary secret is let through. */
  lemma NoMirrorOnlyPrimary(header: Option<string>, secret: string, handle: Target -> Outcome)
    ensures TelegramBotWebhook(header, secret, None, handle) != Unauthorized <==>
      header.Some? && header.value != "" && header.value == secret
  {
  }
}
