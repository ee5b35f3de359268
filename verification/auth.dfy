/**
 * The authorization gate at the top of both handlers: a GET to the
 * validate-user service with the caller's cookies. The call itself is
 * foreign and enters as its outcome.
 */
module Auth {
  import opened Wrappers

  /** What `requests.get(...)` produced: no result, a reply with a status, or an exception. */
  datatype AuthOutcome = NoResult | Replied(status: int) | Raised(message: string)

  const HttpOk := 200
  const HttpUnauthorized := 401

  function DigitChar(d: nat): char
    requires d < 10
  {
    ('0' as int + d) as char
  }

  /** `str(n)` for a non-negative integer. */
  function NatToString(n: nat): (s: string)
    ensures |s| >= 1
    decreases n
  {
    if n < 10 then [DigitChar(n)] else NatToString(n / 10) + [DigitChar(n % 10)]
  }

  /** `str(n)` for any integer. */
  function IntToString(n: int): string {
    if n < 0 then "-" + NatToString(-n) else NatToString(n)
  }

  /** `str()` of an `HTTPException`: its status code, a colon and its detail. */
  function HttpExceptionText(status: nat, detail: string): string {
    NatToString(status) + ": " + detail
  }

  /**
   * The detail of the 401 the handler raises, or None when the authorizer
   * answered 200. The 401s raised at lines 119 and 122 are themselves caught
   * by the `except Exception` at line 123 and raised again, so every detail
   * starts with "Authorization Failed:".
   */
  function AuthRejection(auth: AuthOutcome): (r: Option<string>)
    ensures r.None? <==> auth == Replied(HttpOk)
    ensures r.Some? ==> |r.value| >= 21 && r.value[..21] == "Authorization Failed:"
    ensures auth.Raised? ==> r == Some("Authorization Failed:" + auth.message)
  {
    match auth
    case NoResult =>
      Some("Authorization Failed:" + HttpExceptionText(HttpUnauthorized, "Authorization Failed"))
    case Replied(status) =>
      if status == HttpOk then None
      else Some("Authorization Failed:"
                + HttpExceptionText(HttpUnauthorized, "Authorization Failed status_code=" + IntToString(status)))
    case Raised(message) =>
      Some("Authorization Failed:" + message)
  }
}
