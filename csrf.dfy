/**
 * The CSRF middleware (`csrf` in `src/server/middleware/csrf.rs`): a
 * double-submit-cookie check on state-changing requests.
 */
module Csrf {
  import opened Wrappers
  import opened Http

  const CsrfHeader := "x-csrf-token"
  const CsrfCookie := "csrf_token"
  const Forbidden := 403
  const RejectionBody := "CSRF token missing or invalid"

  datatype Method = Get | Head | Post | Put | Delete | Patch | Options | Connect | Trace | Extension(name: string)

  /** What the middleware does with the request: pass it on, or answer it itself. */
  datatype Response = Forwarded | Rejected(status: nat, body: string)

  /** The methods the middleware guards. */
  predicate StateChanging(m: Method) {
    m == Post || m == Put || m == Delete
  }

  /**
   * The decision. The cookie jar is given already parsed, as a map from
   * cookie name to value; the header token is `x-csrf-token` when present
   * and readable as text.
   */
  function Check(m: Method, jar: map<string, string>, headers: seq<Header>): (r: Response)
    ensures r.Forwarded? <==>
      (!StateChanging(m) || (CsrfCookie in jar && HeaderText(headers, CsrfHeader) == Some(jar[CsrfCookie])))
    ensures r.Rejected? ==> r == Rejected(Forbidden, RejectionBody)
  {
    match m
    case Post | Put | Delete =>
      var tokenInCookie := if CsrfCookie in jar then Some(jar[CsrfCookie]) else None;
      var tokenInHeader := HeaderText(headers, CsrfHeader);
      if tokenInCookie.None? || tokenInHeader.None? || tokenInCookie != tokenInHeader then
        Rejected(Forbidden, RejectionBody)
      else Forwarded
    case _ => Forwarded
  }

  /** Safe methods pass whatever cookies and headers they carry. */
  lemma SafeMethodsIgnoreTokens(m: Method, jar1: map<string, string>, h1: seq<Header>,
                                jar2: map<string, string>, h2: seq<Header>)
    requires !StateChanging(m)
    ensures Check(m, jar1, h1) == Check(m, jar2, h2) == Forwarded
  {
  }

  /** A guarded request is rejected when the cookie is missing, the header is missing, or they differ. */
  lemma GuardedRejections(m: Method, jar: map<string, string>, headers: seq<Header>)
    requires StateChanging(m)
    ensures CsrfCookie !in jar ==> Check(m, jar, headers) == Rejected(403, "CSRF token missing or invalid")
    ensures HeaderText(headers, CsrfHeader).None? ==> Check(m, jar, headers).Rejected?
    ensures (CsrfCookie in jar && HeaderText(headers, CsrfHeader).Some?
      && HeaderText(headers, CsrfHeader).value != jar[CsrfCookie]) ==> Check(m, jar, headers).Rejected?
  {
  }
}
