/**
 * Where the server answers: the authentication router is mounted under `/api`,
 * and the two Google routes sit on that router. The server listens on PORT,
 * read with `parseInt`, or 5050 when PORT is unset or empty.
 */
module Routes {
  import opened Wrappers
  import opened Text

  const ApiMount: string := "/api"
  const GoogleRoute: string := "/auth/google"
  const GoogleCallbackRoute: string := "/auth/google/callback"
  const DefaultPort: string := "5050"

  /** A router path as the server exposes it, under the mount. */
  function Mounted(route: string): (path: string)
    ensures StartsWith(path, ApiMount) && path[|ApiMount|..] == route
  {
    var path := ApiMount + route;
    assert path[..|ApiMount|] == ApiMount;
    path
  }

  /** `PORT || "5050"`: the port text the server and the callback URL both start from. */
  function PortText(port: Option<string>): (t: string)
    ensures Truthy(port) ==> t == port.value
    ensures !Truthy(port) ==> t == DefaultPort
  {
    if Truthy(port) then port.value else DefaultPort
  }

  /** `parseInt(process.env.PORT || "5050")`: the port the server listens on; absent (NaN) for a non-numeric PORT. */
  function ListenPort(port: Option<string>): (p: Option<int>)
    ensures !Truthy(port) ==> p == Some(5050)
    ensures Truthy(port) && IsNumeral(port.value) ==> p == Some(NumeralValue(port.value))
  {
    DefaultPortIsNumeral();
    ParseInt(PortText(port))
  }

  /** The default port text is the decimal numeral of 5050. */
  lemma DefaultPortIsNumeral()
    ensures IsNumeral(DefaultPort) && NumeralValue(DefaultPort) == 5050
  {
    assert "5"[..0] == "";
    assert NumeralValue("5") == 5;
    assert "50"[..1] == "5";
    assert NumeralValue("50") == 50;
    assert "505"[..2] == "50";
    assert NumeralValue("505") == 505;
    assert DefaultPort[..3] == "505";
  }
}
