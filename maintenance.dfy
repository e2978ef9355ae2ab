/**
 * The Traefik maintenance middleware (maintenance.go): construction from a
 * config, the maintenance-mode predicate, client-address resolution, the
 * whitelist test and the per-request decision with its effect on the response.
 *
 * Outside effects are inputs: `World` carries what os.Stat, the trigger GET,
 * the source GET and os.ReadFile would return for this request.
 */
module Maintenance {
  import opened Wrappers
  import opened GoStrings
  import GoNet
  import GoUrl
  import opened Http

  /** The plugin configuration (Config). */
  datatype Config = Config(
    enabled: bool,
    fileName: string,
    triggerUrl: string,
    httpResponseCode: int,
    httpContentType: string,
    whiteListIps: seq<string>)

  /** CreateConfig: the defaults the host starts from before applying user settings. */
  function CreateConfig(): (c: Config)
    ensures !c.enabled && c.fileName == [] && c.triggerUrl == [] && c.whiteListIps == []
    ensures c.httpResponseCode == StatusOK && c.httpContentType == "text/html; charset=utf-8"
  {
    Config(false, "", "", StatusOK, "text/html; charset=utf-8", [])
  }

  /** The middleware instance (MaintenancePage); never changed after New builds it. */
  datatype MaintenancePage = MaintenancePage(
    enabled: bool,
    fileName: string,
    triggerUrl: string,
    httpResponseCode: int,
    httpContentType: string,
    whiteListIps: seq<GoNet.IPNet>,
    name: string)

  /** New's two errors: "file_name is required" and "invalid CIDR: ..." naming the entry. */
  datatype ConfigError = FileNameRequired | InvalidCIDR(entry: string)

  /** The page New builds from an accepted config and the parsed whitelist. */
  function PageOf(config: Config, nets: seq<GoNet.IPNet>, name: string): MaintenancePage {
    MaintenancePage(config.enabled, config.fileName, config.triggerUrl,
                    config.httpResponseCode, config.httpContentType, nets, name)
  }

  /** Entry k is the first whitelist entry that is not a valid CIDR. */
  predicate FirstInvalidCIDR(ips: seq<string>, k: int) {
    0 <= k < |ips| && GoNet.ParseCIDR(ips[k]).None?
    && forall j :: 0 <= j < k ==> GoNet.ParseCIDR(ips[j]).Some?
  }

  /** `nets` holds, in order, the networks the entries of `ips` parse to. */
  predicate ParsedInOrder(ips: seq<string>, nets: seq<GoNet.IPNet>) {
    |nets| == |ips| && forall j :: 0 <= j < |ips| ==> GoNet.ParseCIDR(ips[j]) == Some(nets[j])
  }

  /**
   * New: refuses an empty file name first, then the first whitelist entry that
   * does not parse; otherwise copies the settings and parses the whitelist in order.
   */
  method New(config: Config, name: string) returns (r: Result<MaintenancePage, ConfigError>)
    ensures r.Err? <==> |config.fileName| == 0 || exists k :: FirstInvalidCIDR(config.whiteListIps, k)
    ensures |config.fileName| == 0 ==> r == Err(FileNameRequired)
    ensures |config.fileName| > 0 && r.Err? ==>
              exists k :: FirstInvalidCIDR(config.whiteListIps, k) && r == Err(InvalidCIDR(config.whiteListIps[k]))
    ensures r.Ok? ==> r.value == PageOf(config, r.value.whiteListIps, name)
    ensures r.Ok? ==> ParsedInOrder(config.whiteListIps, r.value.whiteListIps)
  {
    if |config.fileName| == 0 {
      return Err(FileNameRequired);
    }
    var whiteIps: seq<GoNet.IPNet> := [];
    var i := 0;
    while i < |config.whiteListIps|
      invariant 0 <= i <= |config.whiteListIps|
      invariant ParsedInOrder(config.whiteListIps[..i], whiteIps)
    {
      var ipnet := GoNet.ParseCIDR(config.whiteListIps[i]);
      if ipnet.None? {
        assert FirstInvalidCIDR(config.whiteListIps, i) by {
          forall j | 0 <= j < i ensures GoNet.ParseCIDR(config.whiteListIps[j]).Some? {
            assert config.whiteListIps[..i][j] == config.whiteListIps[j];
          }
        }
        return Err(InvalidCIDR(config.whiteListIps[i]));
      }
      assert config.whiteListIps[..i + 1] == config.whiteListIps[..i] + [config.whiteListIps[i]];
      whiteIps := whiteIps + [ipnet.value];
      i := i + 1;
    }
    assert config.whiteListIps[..i] == config.whiteListIps;
    forall k | 0 <= k < |config.whiteListIps| ensures !FirstInvalidCIDR(config.whiteListIps, k) {
      assert GoNet.ParseCIDR(config.whiteListIps[k]) == Some(whiteIps[k]);
    }
    return Ok(PageOf(config, whiteIps, name));
  }

  /**
   * maintenanceEnabled: off when disabled; on when enabled with a trigger URL
   * (the trigger itself is checked later); otherwise on exactly when the file
   * named fileName exists (`fileExists` is os.Stat's answer).
   */
  function MaintenanceEnabled(m: MaintenancePage, fileExists: bool): (on: bool)
    ensures !m.enabled ==> !on
    ensures m.enabled && |m.triggerUrl| > 0 ==> on
    ensures m.enabled && |m.triggerUrl| == 0 ==> (on <==> fileExists)
  {
    if !m.enabled then false
    else if m.enabled && |m.triggerUrl| > 0 then true
    else fileExists
  }

  /** isURL: url.Parse accepts the text and reports a scheme and a host. */
  function IsURL(s: string): bool {
    GoUrl.HasSchemeAndHost(s)
  }

  /** triggerMaintenance, given the outcome of the GET of the trigger URL. */
  function TriggerMaintenance(resp: FetchResult): (live: bool)
    ensures live <==> resp.Response? && resp.statusCode == StatusOK
  {
    match resp
    case TransportError => false
    case Response(code, _) => code == StatusOK
  }

  /** The address isWhiteListed parses: the text before the first ':'. */
  function AddressPart(ipStr: string): string {
    Split(ipStr, ':')[0]
  }

  /** Some network of the list contains the address. */
  predicate AnyContains(nets: seq<GoNet.IPNet>, ip: Option<GoNet.IPv4>) {
    exists i :: 0 <= i < |nets| && GoNet.Contains(nets[i], ip)
  }

  /** Some whitelist network contains the address parsed from the text before the first ':'. */
  predicate WhiteListed(nets: seq<GoNet.IPNet>, ipStr: string) {
    AnyContains(nets, GoNet.ParseIP(AddressPart(ipStr)))
  }

  /** isWhiteListed: scans the networks in order and stops at the first that contains the address. */
  method IsWhiteListed(m: MaintenancePage, ipStr: string) returns (listed: bool)
    ensures listed <==> exists i :: 0 <= i < |m.whiteListIps| &&
                          GoNet.Contains(m.whiteListIps[i], GoNet.ParseIP(Split(ipStr, ':')[0]))
  {
    var ipPortPair := Split(ipStr, ':');
    var i := 0;
    while i < |m.whiteListIps|
      invariant 0 <= i <= |m.whiteListIps|
      invariant forall j :: 0 <= j < i ==> !GoNet.Contains(m.whiteListIps[j], GoNet.ParseIP(ipPortPair[0]))
    {
      var ip := GoNet.ParseIP(ipPortPair[0]);
      if GoNet.Contains(m.whiteListIps[i], ip) {
        return true;
      }
      i := i + 1;
    }
    return false;
  }

  /** With no networks, or an address that does not parse, nobody is whitelisted. */
  lemma NotWhiteListed(nets: seq<GoNet.IPNet>, ipStr: string)
    requires nets == [] || GoNet.ParseIP(AddressPart(ipStr)).None?
    ensures !WhiteListed(nets, ipStr)
  {
  }

  /** The order of the networks, and repeats among them, do not change the verdict. */
  lemma WhiteListedOrderFree(nets: seq<GoNet.IPNet>, others: seq<GoNet.IPNet>, ipStr: string)
    requires forall n :: n in nets <==> n in others
    ensures WhiteListed(nets, ipStr) <==> WhiteListed(others, ipStr)
  {
    AnyContainsOrderFree(nets, others, GoNet.ParseIP(AddressPart(ipStr)));
  }

  lemma AnyContainsOrderFree(nets: seq<GoNet.IPNet>, others: seq<GoNet.IPNet>, ip: Option<GoNet.IPv4>)
    requires forall n :: n in nets <==> n in others
    ensures AnyContains(nets, ip) <==> AnyContains(others, ip)
  {
    if AnyContains(nets, ip) {
      var i :| 0 <= i < |nets| && GoNet.Contains(nets[i], ip);
      assert nets[i] in others;
      var j :| 0 <= j < |others| && others[j] == nets[i];
    }
    if AnyContains(others, ip) {
      var j :| 0 <= j < |others| && GoNet.Contains(others[j], ip);
      assert others[j] in nets;
      var i :| 0 <= i < |nets| && nets[i] == others[j];
    }
  }

  /** The port after a ':' never matters to the whitelist. */
  lemma WhiteListedIgnoresPort(nets: seq<GoNet.IPNet>, host: string, port: string)
    requires ':' !in host
    ensures WhiteListed(nets, host + ":" + port) <==> WhiteListed(nets, host)
  {
    IndexOfAfterFree(host, ':', port);
    assert (host + ":" + port)[..|host|] == host;
    assert IndexOf(host, ':') == |host|;
    assert AddressPart(host + ":" + port) == AddressPart(host);
  }

  /** Canonical names of the two headers getRealIP reads. */
  const XForwardedFor: string := "X-Forwarded-For"
  const XRealIP: string := "X-Real-IP"

  /** getRealIP: X-Forwarded-For's first entry, else X-Real-IP, else the host of RemoteAddr, else RemoteAddr. */
  function GetRealIP(r: Request): string {
    var xff := HeaderGet(r.header, XForwardedFor);
    var first := if xff != "" then TrimSpace(Split(xff, ',')[0]) else "";
    if first != "" then first
    else
      var xri := HeaderGet(r.header, XRealIP);
      if xri != "" then xri
      else
        match GoNet.SplitHostPort(r.remoteAddr)
        case Some(hp) => hp.host
        case None => r.remoteAddr
  }

  /** The text of X-Forwarded-For's first comma-separated entry, before trimming. */
  function FirstForwarded(r: Request): string {
    var xff := HeaderGet(r.header, XForwardedFor);
    xff[..IndexOf(xff, ',')]
  }

  /** When X-Forwarded-For's first entry holds more than white space, the client address is that entry trimmed. */
  lemma ForwardedForWins(r: Request)
    requires !AllSpace(FirstForwarded(r))
    ensures GetRealIP(r) == TrimSpace(FirstForwarded(r))
  {
    var xff := HeaderGet(r.header, XForwardedFor);
    TrimSpaceEmpty(FirstForwarded(r));
    assert xff != "";
  }

  /** That address is cut out of the first entry between stretches of white space. */
  lemma ForwardedForSlice(r: Request) returns (i: nat, j: nat)
    requires !AllSpace(FirstForwarded(r))
    ensures i <= j <= |FirstForwarded(r)| && GetRealIP(r) == FirstForwarded(r)[i..j]
    ensures AllSpace(FirstForwarded(r)[..i]) && AllSpace(FirstForwarded(r)[j..])
  {
    ForwardedForWins(r);
    i, j := TrimSpaceSlice(FirstForwarded(r));
  }

  /** That address is non-empty, holds no comma and has no white space at either end. */
  lemma ForwardedForClean(r: Request)
    requires !AllSpace(FirstForwarded(r))
    ensures GetRealIP(r) != "" && ',' !in GetRealIP(r)
    ensures !IsSpace(GetRealIP(r)[0]) && !IsSpace(GetRealIP(r)[|GetRealIP(r)| - 1])
  {
    var f := FirstForwarded(r);
    ForwardedForWins(r);
    TrimSpaceEmpty(f);
    TrimSpaceLacks(f, ',');
  }

  /**
   * When the first X-Forwarded-For entry is blank or the header absent:
   * X-Real-IP verbatim if set, else the host SplitHostPort finds in RemoteAddr,
   * else RemoteAddr as it is.
   */
  lemma FallbackOrder(r: Request)
    requires AllSpace(FirstForwarded(r))
    ensures HeaderGet(r.header, XRealIP) != "" ==> GetRealIP(r) == HeaderGet(r.header, XRealIP)
    ensures HeaderGet(r.header, XRealIP) == "" && GoNet.SplitHostPort(r.remoteAddr).Some? ==>
              GetRealIP(r) == GoNet.SplitHostPort(r.remoteAddr).value.host
    ensures HeaderGet(r.header, XRealIP) == "" && GoNet.SplitHostPort(r.remoteAddr).None? ==>
              GetRealIP(r) == r.remoteAddr
  {
    var xff := HeaderGet(r.header, XForwardedFor);
    TrimSpaceEmpty(FirstForwarded(r));
  }

  /** With no forwarding headers, a peer address "host:port" resolves to its host. */
  lemma PeerAddressHost(r: Request, host: string, port: string)
    requires AllSpace(FirstForwarded(r)) && HeaderGet(r.header, XRealIP) == ""
    requires '[' !in host && ']' !in host && ':' !in host
    requires '[' !in port && ']' !in port && ':' !in port
    requires r.remoteAddr == host + ":" + port
    ensures GetRealIP(r) == host
  {
    GoNet.SplitJoinHostPort(host, port);
    FallbackOrder(r);
  }

  /** What the outside world answers during one request. */
  datatype FileRead = FileRead(data: seq<Byte>, failed: bool)    // os.ReadFile: bytes read, and whether it erred

  datatype World = World(
    fileExists: bool,       // os.Stat(fileName) succeeds
    trigger: FetchResult,   // http.Get(triggerUrl)
    source: FetchResult,    // http.Get(fileName), when fileName is a URL
    file: FileRead)         // os.ReadFile(fileName), when it is not

  /**
   * What Go's HTTP client guarantees of the trigger GET: text that url.Parse
   * does not read as a scheme and a host is refused ("unsupported protocol
   * scheme", "no Host in request URL") before any connection is made.
   */
  predicate ClientRefusesNonURL(m: MaintenancePage, w: World) {
    !IsURL(m.triggerUrl) ==> w.trigger == TransportError
  }

  /** The three gates of ServeHTTP, evaluated left to right: mode, trigger, not whitelisted. */
  predicate Intercepts(m: MaintenancePage, r: Request, w: World) {
    MaintenanceEnabled(m, w.fileExists) && TriggerMaintenance(w.trigger)
    && !WhiteListed(m.whiteListIps, GetRealIP(r))
  }

  /** What one request does to the response and to the chain. */
  datatype Action =
    | Forward                   // nothing written; next called once
    | Abandon                   // nothing written; next not called
    | Respond(contentType: string, status: int, body: seq<Byte>, thenNext: bool)

  /** The decision ServeHTTP takes for a request. */
  function Decide(m: MaintenancePage, r: Request, w: World): Action {
    Outcome(m, Intercepts(m, r, w), w)
  }

  /** The decision once the gates have been evaluated: `intercept` is their verdict. */
  function Outcome(m: MaintenancePage, intercept: bool, w: World): Action {
    if !intercept then Forward
    else if IsURL(m.fileName) then
      match w.source
      case TransportError => Abandon
      case Response(code, body) =>
        if code == StatusOK then Respond(m.httpContentType, m.httpResponseCode, body, false) else Forward
    else Respond(m.httpContentType, m.httpResponseCode, w.file.data, true)
  }

  /**
   * The writer after an action: header, then status (the first
   * non-informational one wins; Write fixes 200 when none has been), then
   * body, then next. Nothing written before is lost.
   */
  function Apply(s: WriterState, a: Action): (t: WriterState)
    ensures s.body <= t.body
    ensures s.status.Some? ==> t.status == s.status
    ensures s.nextCalls <= t.nextCalls <= s.nextCalls + 1
  {
    match a
    case Forward => s.(nextCalls := s.nextCalls + 1)
    case Abandon => s
    case Respond(ct, code, body, thenNext) =>
      var st := if s.status.Some? then s.status.value else SentStatus(code);
      WriterState(Some(ct), Some(st), if BodyAllowed(st) then s.body + body else s.body,
                  s.nextCalls + if thenNext then 1 else 0)
  }

  /**
   * The condition of ServeHTTP: mode, then trigger, then whitelist, each
   * evaluated only when the ones before it held.
   */
  method EvaluateGates(m: MaintenancePage, r: Request, world: World) returns (intercept: bool)
    ensures intercept <==> MaintenanceEnabled(m, world.fileExists) && TriggerMaintenance(world.trigger)
                           && !WhiteListed(m.whiteListIps, GetRealIP(r))
  {
    intercept := MaintenanceEnabled(m, world.fileExists) && TriggerMaintenance(world.trigger);
    if intercept {
      var listed := IsWhiteListed(m, GetRealIP(r));
      intercept := !listed;
    }
  }

  /** The three writes of a maintenance response: Content-Type, status, body. */
  method WriteResponse(m: MaintenancePage, body: seq<Byte>, w: ResponseWriter)
    modifies w
    ensures w.State() == Apply(old(w.State()), Respond(m.httpContentType, m.httpResponseCode, body, false))
  {
    w.SetContentType(m.httpContentType);
    w.WriteHeader(m.httpResponseCode);
    w.Write(body);
  }

  /** ServeHTTP: the gates in order, then the page or the next handler. */
  method ServeHTTP(m: MaintenancePage, r: Request, world: World, w: ResponseWriter)
    modifies w
    ensures w.State() == Apply(old(w.State()), Decide(m, r, world))
  {
    var intercept := EvaluateGates(m, r, world);
    Dispatch(m, intercept, world, w);
  }

  /**
   * The body of ServeHTTP's if: the URL source is fetched and written on 200,
   * abandoned on a transport error and forwarded otherwise; the file source is
   * written and then falls through to next.
   */
  method Dispatch(m: MaintenancePage, intercept: bool, world: World, w: ResponseWriter)
    modifies w
    ensures w.State() == Apply(old(w.State()), Outcome(m, intercept, world))
  {
    if intercept {
      if IsURL(m.fileName) {
        match world.source
        case TransportError =>
          return;
        case Response(code, body) =>
          if code == StatusOK {
            WriteResponse(m, body, w);
            return;
          }
      } else {
        WriteResponse(m, world.file.data, w);
      }
    }
    w.CallNext();
  }
}
