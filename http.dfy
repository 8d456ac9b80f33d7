/**
 * The slice of the `http` crate the middleware reads: a header map with
 * lower-case names, `HeaderMap::get` and `HeaderValue::to_str`.
 */
module Http {
  import opened Wrappers

  newtype byte = b: int | 0 <= b < 256

  /** A header field; names are stored lower-case, as `HeaderName` normalises them. */
  datatype Header = Header(name: string, value: seq<byte>)

  /** `HeaderMap::get`: the value of the first field with this name. */
  function Get(headers: seq<Header>, name: string): (r: Option<seq<byte>>)
    ensures r.None? <==> forall i :: 0 <= i < |headers| ==> headers[i].name != name
    ensures r.Some? ==> exists i :: (0 <= i < |headers| && headers[i].name == name
      && r.value == headers[i].value && forall j :: 0 <= j < i ==> headers[j].name != name)
  {
    if headers == [] then None
    else if headers[0].name == name then Some(headers[0].value)
    else
      assert forall i :: 1 <= i < |headers| ==> headers[i] == headers[1..][i - 1];
      Get(headers[1..], name)
  }

  /** Bytes `to_str` accepts: a tab or visible ASCII. */
  predicate Visible(b: byte) {
    b == 9 || 32 <= b < 127
  }

  /** `HeaderValue::to_str`: the value as text when every byte is visible ASCII or a tab. */
  function ToStr(v: seq<byte>): (r: Option<string>)
    ensures r.Some? <==> forall i :: 0 <= i < |v| ==> Visible(v[i])
    ensures r.Some? ==> |r.value| == |v| && forall i :: 0 <= i < |v| ==> r.value[i] as int == v[i] as int
    decreases |v|
  {
    if v == [] then Some([])
    else if !Visible(v[|v| - 1]) then None
    else
      var init :- ToStr(v[..|v| - 1]);
      Some(init + [v[|v| - 1] as int as char])
  }

  /** A header's value as text, when it is present and `to_str` accepts it. */
  function HeaderText(headers: seq<Header>, name: string): Option<string> {
    var v :- Get(headers, name);
    ToStr(v)
  }
}
