/**
 * What ServeHTTP promises, stated over the decision `Decide` and its effect
 * `Apply` on the response writer (ServeHTTP's postcondition ties the two to the
 * method).
 */
module MaintenanceProperties {
  import opened Wrappers
  import GoNet
  import GoUrl
  import opened Http
  import opened Maintenance

  /** Mode off: forwarded untouched, whatever the trigger, source, file and client say. */
  lemma ModeOffForwards(m: MaintenancePage, r: Request, world: World, s: WriterState)
    requires !MaintenanceEnabled(m, world.fileExists)
    ensures Apply(s, Decide(m, r, world)) == s.(nextCalls := s.nextCalls + 1)
  {
  }

  /** Trigger down (error or non-200): forwarded untouched, whoever the client is. */
  lemma TriggerDownForwards(m: MaintenancePage, r: Request, world: World, s: WriterState)
    requires !TriggerMaintenance(world.trigger)
    ensures Apply(s, Decide(m, r, world)) == s.(nextCalls := s.nextCalls + 1)
  {
  }

  /** A whitelisted client is forwarded untouched. */
  lemma WhiteListedForwards(m: MaintenancePage, r: Request, world: World, s: WriterState)
    requires WhiteListed(m.whiteListIps, GetRealIP(r))
    ensures Apply(s, Decide(m, r, world)) == s.(nextCalls := s.nextCalls + 1)
  {
  }

  /** Short-circuit: with the mode off, the trigger's answer is never looked at. */
  lemma TriggerNotConsultedWhenOff(m: MaintenancePage, r: Request, world: World, t: FetchResult)
    requires !MaintenanceEnabled(m, world.fileExists)
    ensures Decide(m, r, world) == Decide(m, r, world.(trigger := t))
  {
  }

  /** Short-circuit: with the trigger down, neither the client nor the whitelist is looked at. */
  lemma WhiteListNotConsultedWhenTriggerDown(m: MaintenancePage, r: Request, world: World,
                                              r2: Request, nets: seq<GoNet.IPNet>)
    requires !TriggerMaintenance(world.trigger)
    ensures Decide(m, r, world) == Decide(m.(whiteListIps := nets), r2, world)
  {
  }

  /** URL source, fetch failed: nothing is written and next is not called. */
  lemma URLSourceErrorAbandons(m: MaintenancePage, r: Request, world: World, s: WriterState)
    requires Intercepts(m, r, world) && IsURL(m.fileName) && world.source.TransportError?
    ensures Apply(s, Decide(m, r, world)) == s
  {
  }

  /**
   * URL source answering 200: the configured header and status, the fetched
   * body when that status allows one, and no next.
   */
  lemma URLSourceOkResponds(m: MaintenancePage, r: Request, world: World, s: WriterState)
    requires Intercepts(m, r, world) && IsURL(m.fileName)
    requires world.source.Response? && world.source.statusCode == StatusOK
    ensures var st := if s.status.Some? then s.status.value else SentStatus(m.httpResponseCode);
            Apply(s, Decide(m, r, world)) ==
              WriterState(Some(m.httpContentType), Some(st),
                          if BodyAllowed(st) then s.body + world.source.body else s.body, s.nextCalls)
  {
  }

  /** URL source answering anything but 200: nothing is written and next is called once. */
  lemma URLSourceOtherForwards(m: MaintenancePage, r: Request, world: World, s: WriterState)
    requires Intercepts(m, r, world) && IsURL(m.fileName)
    requires world.source.Response? && world.source.statusCode != StatusOK
    ensures Apply(s, Decide(m, r, world)) == s.(nextCalls := s.nextCalls + 1)
  {
  }

  /**
   * File source: the configured header and status, the bytes os.ReadFile gave
   * (empty or partial on an error, written all the same) when that status
   * allows a body, and then next too.
   */
  lemma FileSourceRespondsThenForwards(m: MaintenancePage, r: Request, world: World, s: WriterState)
    requires Intercepts(m, r, world) && !IsURL(m.fileName)
    ensures var st := if s.status.Some? then s.status.value else SentStatus(m.httpResponseCode);
            Apply(s, Decide(m, r, world)) ==
              WriterState(Some(m.httpContentType), Some(st),
                          if BodyAllowed(st) then s.body + world.file.data else s.body, s.nextCalls + 1)
  {
  }

  /** A read error does not change what the file branch writes. */
  lemma FileReadErrorIgnored(m: MaintenancePage, r: Request, world: World, failed: bool)
    ensures Decide(m, r, world) == Decide(m, r, world.(file := FileRead(world.file.data, failed)))
  {
  }

  /** The writer a request handler starts from. */
  function Fresh(): WriterState {
    WriterState(None, None, [], 0)
  }

  /**
   * On a fresh writer: next is called at most once; a body, a status or a
   * Content-Type appears only when the request was intercepted, and then they
   * are the configured ones; a body only under a status that allows one; next
   * is skipped only when intercepting a URL source.
   */
  lemma FreshWriterOutcome(m: MaintenancePage, r: Request, world: World)
    ensures var s := Apply(Fresh(), Decide(m, r, world));
            s.nextCalls <= 1
            && (s.contentType.Some? || s.status.Some? || s.body != [] ==> Intercepts(m, r, world))
            && (s.contentType.Some? ==>
                  s.contentType == Some(m.httpContentType) && s.status == Some(SentStatus(m.httpResponseCode)))
            && (s.body != [] ==> BodyAllowed(SentStatus(m.httpResponseCode)))
            && (s.nextCalls == 0 ==> Intercepts(m, r, world) && IsURL(m.fileName))
  {
    FreshOutcome(m, Intercepts(m, r, world), world);
  }

  /** The same, for a given verdict of the gates. */
  lemma FreshOutcome(m: MaintenancePage, intercept: bool, world: World)
    ensures var s := Apply(Fresh(), Outcome(m, intercept, world));
            s.nextCalls <= 1
            && (s.contentType.Some? || s.status.Some? || s.body != [] ==> intercept)
            && (s.contentType.Some? ==>
                  s.contentType == Some(m.httpContentType) && s.status == Some(SentStatus(m.httpResponseCode)))
            && (s.body != [] ==> BodyAllowed(SentStatus(m.httpResponseCode)))
            && (s.nextCalls == 0 ==> intercept && IsURL(m.fileName))
  {
  }

  /** A page built from the defaults (with a file name supplied) forwards every request. */
  lemma DefaultsForward(fileName: string, nets: seq<GoNet.IPNet>, name: string, r: Request, world: World)
    ensures Decide(PageOf(CreateConfig().(fileName := fileName), nets, name), r, world) == Forward
  {
  }

  /**
   * A trigger that is not an absolute URL with a host can never be fetched, so
   * a page configured with one never intercepts.
   */
  lemma NonURLTriggerNeverIntercepts(m: MaintenancePage, r: Request, world: World)
    requires ClientRefusesNonURL(m, world) && !IsURL(m.triggerUrl)
    ensures Decide(m, r, world) == Forward
  {
  }

  /**
   * ServeHTTP calls the trigger even when none is configured; the empty text
   * is not a URL, so such a page never intercepts, file or no file.
   */
  lemma EmptyTriggerNeverIntercepts(m: MaintenancePage, r: Request, world: World)
    requires ClientRefusesNonURL(m, world) && m.triggerUrl == ""
    ensures Decide(m, r, world) == Forward
  {
    GoUrl.PathsAreNotURLs(m.triggerUrl);
    NonURLTriggerNeverIntercepts(m, r, world);
  }
}
