/** The message thrown on a non-success response by `checkFines` and
    `checkFinesStream` (src/api.ts:79-82, 103-106): the body's `detail` when
    it is present and not null, otherwise the server-error text followed by
    the numeric status. */
module ApiErrors {
  import opened Wrappers
  import opened Text

  /** "server error " in the page's language. */
  const ServerErrorText := "שגיאת שרת "

  /** The body of a failed response as `res.json().catch(() => ({}))` sees
      it: an unreadable body becomes the empty object, whose `detail` is
      absent. A `detail` that is `null` or missing is `None`. */
  datatype ErrorBody = Unreadable | Body(detail: Option<string>)

  function Detail(body: ErrorBody): Option<string> {
    match body
    case Unreadable => None
    case Body(d) => d
  }

  /** `detail ?? \`שגיאת שרת ${status}\``. An empty `detail` is kept: `??`
      only falls back on null and undefined. */
  function ErrorMessage(body: ErrorBody, status: nat): (msg: string)
    ensures Detail(body).Some? ==> msg == Detail(body).value
    ensures Detail(body).None? ==> StartsWith(msg, ServerErrorText)
    ensures Detail(body).None? ==> FallbackStatus(msg) == Some(status)
    ensures Detail(body).None? ==> |msg| > |ServerErrorText| && (msg[|ServerErrorText|] == '0' ==> status == 0)
  {
    match Detail(body)
    case Some(d) => d
    case None =>
      var msg := ServerErrorText + NatToString(status);
      assert msg[..|ServerErrorText|] == ServerErrorText;
      assert msg[|ServerErrorText|..] == NatToString(status);
      ParseNatToString(status);
      msg
  }

  /** Reads the status back out of a fallback message: the digits after the
      server-error text. */
  function FallbackStatus(msg: string): Option<nat> {
    if StartsWith(msg, ServerErrorText) && |msg| > |ServerErrorText| && AllDigits(msg[|ServerErrorText|..])
    then Some(ParseDigits(msg[|ServerErrorText|..]))
    else None
  }

  /** Without a usable `detail`, different statuses always give different
      messages. */
  lemma FallbackDistinguishesStatus(body: ErrorBody, body': ErrorBody, status: nat, status': nat)
    requires Detail(body).None? && Detail(body').None?
    requires ErrorMessage(body, status) == ErrorMessage(body', status')
    ensures status == status'
  {
  }

  /** A body that says "invalid id" yields exactly that message; an
      unreadable one yields the server-error text with the status. */
  lemma ErrorMessageExamples()
    ensures ErrorMessage(Body(Some("invalid id")), 400) == "invalid id"
    ensures ErrorMessage(Unreadable, 502) == ServerErrorText + "502"
    ensures ErrorMessage(Body(None), 500) == ServerErrorText + "500"
  {
  }
}
