/**
 * `ForwardedForKeyExtractor::extract`: the client address the rate limiter
 * keys on, taken from the proxy headers in a fixed order of trust.
 */
module KeyExtractor {
  import opened Wrappers
  import opened Strings
  import opened Http

  datatype GovernorError = UnableToExtractKey

  const FlyClientIp := "fly-client-ip"
  const XForwardedFor := "x-forwarded-for"

  /** The address text `Fly-Client-IP` offers: the whole value, trimmed. */
  function FlyCandidate(headers: seq<Header>): Option<string> {
    var s :- HeaderText(headers, FlyClientIp);
    Some(Trim(s))
  }

  /** The address text `X-Forwarded-For` offers: its first comma-separated element, trimmed. */
  function ForwardedCandidate(headers: seq<Header>): Option<string> {
    var s :- HeaderText(headers, XForwardedFor);
    Some(Trim(SplitFirst(s, ',')))
  }

  /** The texts the extractor tries, most trusted first. */
  function Candidates(headers: seq<Header>): seq<string> {
    (match FlyCandidate(headers) case Some(c) => [c] case None => [])
    + (match ForwardedCandidate(headers) case Some(c) => [c] case None => [])
  }

  /** The address parsed from the first candidate that parses. */
  function FirstParsed<Ip>(parseIp: string -> Option<Ip>, candidates: seq<string>): (r: Option<Ip>)
    ensures r.None? <==> forall i :: 0 <= i < |candidates| ==> parseIp(candidates[i]).None?
    ensures r.Some? ==> exists i :: (0 <= i < |candidates| && parseIp(candidates[i]) == r
      && forall j :: 0 <= j < i ==> parseIp(candidates[j]).None?)
  {
    if candidates == [] then None
    else if parseIp(candidates[0]).Some? then parseIp(candidates[0])
    else
      assert forall i :: 1 <= i < |candidates| ==> candidates[i] == candidates[1..][i - 1];
      FirstParsed(parseIp, candidates[1..])
  }

  /**
   * The extractor: `Fly-Client-IP` when its trimmed value parses, else the
   * first element of `X-Forwarded-For` when it parses, else an error. The
   * address parser (`str::parse::<IpAddr>`) is a parameter.
   */
  function Extract<Ip>(parseIp: string -> Option<Ip>, headers: seq<Header>): (r: Result<Ip, GovernorError>)
    ensures r == match FirstParsed(parseIp, Candidates(headers))
      case Some(ip) => Ok(ip)
      case None => Err(UnableToExtractKey)
  {
    var fly := HeaderText(headers, FlyClientIp);
    if fly.Some? && parseIp(Trim(fly.value)).Some? then
      Ok(parseIp(Trim(fly.value)).value)
    else
      var forwarded := HeaderText(headers, XForwardedFor);
      if forwarded.Some? && parseIp(Trim(SplitFirst(forwarded.value, ','))).Some? then
        Ok(parseIp(Trim(SplitFirst(forwarded.value, ','))).value)
      else
        Err(UnableToExtractKey)
  }

  /** A parsable `Fly-Client-IP` decides the key, whatever `X-Forwarded-For` says. */
  lemma FlyClientIpWins<Ip>(parseIp: string -> Option<Ip>, headers: seq<Header>, other: seq<Header>)
    requires FlyCandidate(headers).Some? && parseIp(FlyCandidate(headers).value).Some?
    requires HeaderText(other, FlyClientIp) == HeaderText(headers, FlyClientIp)
    ensures Extract(parseIp, headers) == Extract(parseIp, other) == Ok(parseIp(FlyCandidate(headers).value).value)
  {
    assert Candidates(headers)[0] == FlyCandidate(headers).value;
    assert Candidates(other)[0] == FlyCandidate(headers).value;
  }

  /** Without a usable `Fly-Client-IP`, the key comes from `X-Forwarded-For` alone. */
  lemma FallsBackToForwarded<Ip>(parseIp: string -> Option<Ip>, headers: seq<Header>)
    requires FlyCandidate(headers).None? || parseIp(FlyCandidate(headers).value).None?
    ensures Extract(parseIp, headers) == match ForwardedCandidate(headers)
      case Some(c) => (if parseIp(c).Some? then Ok(parseIp(c).value) else Err(UnableToExtractKey))
      case None => Err(UnableToExtractKey)
  {
    if FlyCandidate(headers).Some? {
      assert FirstParsed(parseIp, Candidates(headers)) == FirstParsed(parseIp, Candidates(headers)[1..]);
    }
  }

  /**
   * Only the first element of `X-Forwarded-For` is consulted: two requests
   * whose lists agree on it get the same key, however the rest of the
   * lists differ, and an unparsable first element is an error even when a
   * later one would parse.
   */
  lemma LaterElementsIgnored<Ip>(parseIp: string -> Option<Ip>, h1: seq<Header>, h2: seq<Header>,
                                 first: string, rest1: string, rest2: string)
    requires ',' !in first
    requires HeaderText(h1, FlyClientIp) == HeaderText(h2, FlyClientIp)
    requires HeaderText(h1, XForwardedFor) == Some(first + "," + rest1)
    requires HeaderText(h2, XForwardedFor) == Some(first + "," + rest2)
    ensures Extract(parseIp, h1) == Extract(parseIp, h2)
    ensures (FlyCandidate(h1).None? || parseIp(FlyCandidate(h1).value).None?) && parseIp(Trim(first)).None?
      ==> Extract(parseIp, h1) == Err(UnableToExtractKey)
  {
    SplitFirstOf(first, ',', rest1);
    SplitFirstOf(first, ',', rest2);
    assert ForwardedCandidate(h1) == ForwardedCandidate(h2) == Some(Trim(first));
    assert Candidates(h1) == Candidates(h2);
  }

  /** A request without either header gets no key. */
  lemma NoHeadersNoKey<Ip>(parseIp: string -> Option<Ip>, headers: seq<Header>)
    requires forall i :: 0 <= i < |headers| ==> headers[i].name != FlyClientIp && headers[i].name != XForwardedFor
    ensures Extract(parseIp, headers) == Err(UnableToExtractKey)
  {
    assert Candidates(headers) == [];
  }
}
