/**
 * The page that hosts the planning document in an iframe: the messages it
 * exchanges with that document, the capture of the document's state for a
 * save (a direct read, else a message round trip through a one-slot
 * pending resolver, guarded by a 3000 ms timer) and the save itself.
 *
 * The direct read of the iframe's window is a parameter (`direct`, `null`
 * when the read fails), and so are the server's replies. Each capture is a
 * promise, named by a request number; `settled` records how each one ended.
 */
module PcpHost {
  import opened Wrappers
  import opened Values
  import Routes

  const GetStateMessage: Value := Obj(map["type" := Str("PCP_GET_STATE")])
  const CaptureError := "Não foi possível capturar o estado do PCP. Tente recarregar a página."
  const EmptyStateError := "Estado vazio retornado pelo PCP"
  const SaveError := "Erro ao salvar"

  /** How a capture promise ended. */
  datatype Settlement = Resolved(state: Value) | Rejected(message: string)

  /** A promise settles once: settling an already settled one changes nothing. */
  function SettleOnce(settled: map<nat, Settlement>, id: nat, s: Settlement): map<nat, Settlement> {
    if id in settled then settled else settled[id := s]
  }

  /** `m2` keeps every entry of `m1` as it was. */
  predicate Extends(m1: map<nat, Settlement>, m2: map<nat, Settlement>) {
    forall id :: id in m1 ==> id in m2 && m2[id] == m1[id]
  }

  /** Settling keeps every earlier outcome and leaves the promise settled, with `s` if it was still pending. */
  lemma SettleOnceSpec(settled: map<nat, Settlement>, id: nat, s: Settlement)
    ensures Extends(settled, SettleOnce(settled, id, s))
    ensures id in SettleOnce(settled, id, s)
    ensures id !in settled ==> SettleOnce(settled, id, s)[id] == s
    ensures id in settled ==> SettleOnce(settled, id, s)[id] == settled[id]
    ensures SettleOnce(settled, id, s).Keys == settled.Keys + {id}
  {
  }

  /** Every field of the page at one moment. */
  datatype PageState = PageState(
    iframeReady: bool,
    saving: bool,
    lastSaved: Option<string>,
    resolver: Option<nat>,
    liveCoverage: Value,
    outbox: seq<Value>,
    settled: map<nat, Settlement>,
    timers: set<nat>,
    nextRequest: nat,
    saveRequest: Option<nat>)

  /**
   * The page's invariant: the request in the resolver slot still has its
   * timer and is not settled; all request numbers were handed out; a save
   * is running exactly when it has a capture request.
   */
  predicate Consistent(s: PageState) {
    && (s.resolver.Some? ==> s.resolver.value in s.timers && s.resolver.value !in s.settled)
    && (forall id :: id in s.timers ==> id < s.nextRequest)
    && (forall id :: id in s.settled ==> id < s.nextRequest)
    && (s.saving <==> s.saveRequest.Some?)
    && (s.saveRequest.Some? ==> s.saveRequest.value < s.nextRequest)
  }

  /**
   * The running save can still finish: its capture has settled, or its
   * timer is still to fire.
   */
  predicate CaptureCanSettle(s: PageState) {
    s.saveRequest.Some? && s.saveRequest.value !in s.settled ==> s.saveRequest.value in s.timers
  }

  /**
   * The running save is stuck: its capture is pending and its timer has
   * fired. The slot cannot hold it either, since a request in the slot has
   * its timer (`Consistent`), so no event is left that settles it.
   */
  predicate Stranded(s: PageState) {
    s.saveRequest.Some? && s.saveRequest.value !in s.settled && s.saveRequest.value !in s.timers
  }

  /** The `PCP_SET_STATE` payload built from the fetched full state. */
  function StatePayload(fullState: Value): (p: Value)
    ensures p.Obj? && p.fields.Keys == {"version", "weeks", "comments", "params", "notes"} && Get(p, "version") == Num(1)
    ensures forall f :: f in {"weeks", "comments", "params", "notes"} ==> Truthy(Get(p, f))
    ensures forall f :: f in {"weeks", "comments", "params", "notes"} && !Truthy(Get(fullState, f)) ==> Get(p, f) == EmptyObject
    ensures forall f :: f in {"weeks", "comments", "params", "notes"} && Truthy(Get(fullState, f)) ==> Get(p, f) == Get(fullState, f)
  {
    Obj(map[
      "version" := Num(1),
      "weeks" := Or(Get(fullState, "weeks"), EmptyObject),
      "comments" := Or(Get(fullState, "comments"), EmptyObject),
      "params" := Or(Get(fullState, "params"), EmptyObject),
      "notes" := Or(Get(fullState, "notes"), EmptyObject)])
  }

  /** The coverage the page hands to the document: the full state's, else the separately fetched one. */
  function HydrationCoverage(fullState: Value, coverageData: Value): Value {
    Or(Get(fullState, "coverage"), coverageData)
  }

  /**
   * What the page posts once the document is ready: the mode first, then
   * the state if one was fetched, then the coverage if there is any.
   */
  function HydrationMessages(isAdmin: bool, isGuest: bool, fullState: Value, coverageData: Value): (msgs: seq<Value>)
    ensures |msgs| == 1 + (if Truthy(fullState) then 1 else 0) + (if Truthy(HydrationCoverage(fullState, coverageData)) then 1 else 0)
    ensures msgs[0] == Obj(map["type" := Str("PCP_MODE"), "isAdmin" := Bool(isAdmin && !isGuest)])
    ensures Truthy(fullState) ==> msgs[1] == Obj(map["type" := Str("PCP_SET_STATE"), "payload" := StatePayload(fullState)])
    ensures Truthy(HydrationCoverage(fullState, coverageData)) ==>
              msgs[|msgs| - 1] == Obj(map["type" := Str("PCP_SET_COVERAGE"), "payload" := HydrationCoverage(fullState, coverageData)])
  {
    var mode := [Obj(map["type" := Str("PCP_MODE"), "isAdmin" := Bool(isAdmin && !isGuest)])];
    var state := if Truthy(fullState) then [Obj(map["type" := Str("PCP_SET_STATE"), "payload" := StatePayload(fullState)])] else [];
    var cov := HydrationCoverage(fullState, coverageData);
    var coverage := if Truthy(cov) then [Obj(map["type" := Str("PCP_SET_COVERAGE"), "payload" := cov])] else [];
    mode + state + coverage
  }

  /** The body of `POST /api/pcp/save-all` built from a captured state. */
  function SaveRequestBody(state: Value, liveCoverage: Value, coverageData: Value): (body: Value)
    ensures body.Obj? && body.fields.Keys == {"weeks", "comments", "params", "notes", "coverage"}
    ensures forall f :: f in {"weeks", "comments", "params", "notes"} ==> Truthy(Get(body, f))
    ensures forall f :: f in {"weeks", "comments", "params", "notes"} && Truthy(Get(state, f)) ==> Get(body, f) == Get(state, f)
    ensures forall f :: f in {"weeks", "comments", "params", "notes"} && !Truthy(Get(state, f)) ==> Get(body, f) == EmptyObject
    ensures Truthy(Get(state, "coverage")) ==> Get(body, "coverage") == Get(state, "coverage")
    ensures !Truthy(Get(state, "coverage")) && Truthy(liveCoverage) ==> Get(body, "coverage") == liveCoverage
    ensures !Truthy(Get(state, "coverage")) && !Truthy(liveCoverage) && Truthy(coverageData) ==> Get(body, "coverage") == coverageData
    ensures !Truthy(Get(state, "coverage")) && !Truthy(liveCoverage) && !Truthy(coverageData) ==> Get(body, "coverage") == Null
  {
    Obj(map[
      "weeks" := Or(Get(state, "weeks"), EmptyObject),
      "comments" := Or(Get(state, "comments"), EmptyObject),
      "params" := Or(Get(state, "params"), EmptyObject),
      "notes" := Or(Get(state, "notes"), EmptyObject),
      "coverage" := Or(Or(Or(Get(state, "coverage"), liveCoverage), coverageData), Null)])
  }

  /**
   * What the server does with the posted body: it is never rejected as
   * empty, it merges exactly the state's own weeks, comments and notes,
   * and it always overwrites the parameters.
   */
  lemma PostedBodyOnServer(state: Value, liveCoverage: Value, coverageData: Value)
    ensures Truthy(SaveRequestBody(state, liveCoverage, coverageData))
    ensures Routes.SavedEntries(Get(SaveRequestBody(state, liveCoverage, coverageData), "weeks")) == Routes.SavedEntries(Get(state, "weeks"))
    ensures Routes.SavedEntries(Get(SaveRequestBody(state, liveCoverage, coverageData), "comments")) == Routes.SavedEntries(Get(state, "comments"))
    ensures Routes.SavedEntries(Get(SaveRequestBody(state, liveCoverage, coverageData), "notes")) == Routes.SavedEntries(Get(state, "notes"))
    ensures Truthy(Get(SaveRequestBody(state, liveCoverage, coverageData), "params"))
  {
    var body := SaveRequestBody(state, liveCoverage, coverageData);
    assert "weeks" in {"weeks", "comments", "params", "notes"};
    assert "comments" in {"weeks", "comments", "params", "notes"};
    assert "params" in {"weeks", "comments", "params", "notes"};
    assert "notes" in {"weeks", "comments", "params", "notes"};
  }

  /**
   * Saving a document that hands back the state it was given re-posts
   * that state unchanged: the defaults of the save body add nothing to
   * those of the hydration payload.
   */
  lemma UneditedRoundTrip(fullState: Value, liveCoverage: Value, coverageData: Value, f: string)
    requires f in {"weeks", "comments", "params", "notes"}
    ensures Get(SaveRequestBody(StatePayload(fullState), liveCoverage, coverageData), f) == Or(Get(fullState, f), EmptyObject)
  {
  }

  /** What `POST /api/pcp/save-all` answered: a rejected `fetch`, or a status and its parsed body (`{}` when it does not parse). */
  datatype SaveReply = FetchFailed(message: string) | Replied(ok: bool, data: Value)

  /** How a save ended: with success, or with the message of the error it raised. */
  datatype SaveOutcome = Saved | Failed(message: Value)

  /** The planning page's mutable state: React state, refs and the promises in flight. */
  class PcpPage {
    var iframeReady: bool
    var saving: bool
    var lastSaved: Option<string>
    /** The resolver slot: the capture request waiting for `PCP_FULL_STATE`. */
    var resolver: Option<nat>
    var liveCoverage: Value
    /** The messages posted to the iframe, oldest first. */
    var outbox: seq<Value>
    var settled: map<nat, Settlement>
    /** The capture requests whose 3000 ms timer has not fired yet. */
    var timers: set<nat>
    var nextRequest: nat
    /** The capture request of the running save. */
    var saveRequest: Option<nat>

    function State(): PageState
      reads this
    {
      PageState(iframeReady, saving, lastSaved, resolver, liveCoverage, outbox, settled, timers, nextRequest, saveRequest)
    }

    ghost predicate Valid()
      reads this
    {
      Consistent(State())
    }

    constructor ()
      ensures Valid()
      ensures State() == PageState(false, false, None, None, Null, [], map[], {}, 0, None)
    {
      iframeReady := false;
      saving := false;
      lastSaved := None;
      resolver := None;
      liveCoverage := Null;
      outbox := [];
      settled := map[];
      timers := {};
      nextRequest := 0;
      saveRequest := None;
    }

    /**
     * The `message` listener: ignores data without a truthy `type`; notes
     * that the document is ready; hands a full state to the pending
     * resolver, if any, and empties the slot; keeps the last coverage the
     * document reported.
     */
    method HandleMessage(d: Value)
      requires Valid()
      modifies this
      ensures Valid()
      ensures !Truthy(d) || !Truthy(Get(d, "type")) ==> State() == old(State())
      ensures Get(d, "type") == Str("PCP_IFRAME_READY") ==> State() == old(State()).(iframeReady := true)
      ensures Get(d, "type") == Str("PCP_FULL_STATE") && old(resolver).None? ==> State() == old(State())
      ensures Get(d, "type") == Str("PCP_FULL_STATE") && old(resolver).Some? ==>
                State() == old(State()).(resolver := None, settled := old(settled)[old(resolver).value := Resolved(Get(d, "payload"))])
      ensures Get(d, "type") in {Str("PCP_COVERAGE"), Str("PCP_SET_STATE")} ==>
                State() == old(State()).(liveCoverage :=
                  if Truthy(Get(Get(d, "payload"), "coverage")) then Get(Get(d, "payload"), "coverage") else old(liveCoverage))
      ensures !(Get(d, "type") in {Str("PCP_IFRAME_READY"), Str("PCP_FULL_STATE"), Str("PCP_COVERAGE"), Str("PCP_SET_STATE")}) ==>
                State() == old(State())
      ensures Stranded(old(State())) ==> Stranded(State())
      ensures CaptureCanSettle(old(State())) ==> CaptureCanSettle(State())
    {
      var kind := Get(d, "type");
      if !Truthy(d) || !Truthy(kind) {
        return;
      }
      if kind == Str("PCP_IFRAME_READY") {
        iframeReady := true;
        return;
      }
      if kind == Str("PCP_FULL_STATE") {
        if resolver.Some? {
          settled := SettleOnce(settled, resolver.value, Resolved(Get(d, "payload")));
          resolver := None;
        }
        return;
      }
      if kind == Str("PCP_COVERAGE") || kind == Str("PCP_SET_STATE") {
        var coverage := Get(Get(d, "payload"), "coverage");
        if Truthy(coverage) {
          liveCoverage := coverage;
        }
        return;
      }
    }

    /**
     * `requestStateFromIframe`: a successful direct read settles the new
     * request at once and leaves the slot and the iframe alone; otherwise
     * the new request takes the slot, replacing any pending one, one
     * `PCP_GET_STATE` is posted and the request's timer starts.
     */
    method RequestState(direct: Value) returns (id: nat)
      requires Valid()
      modifies this
      ensures Valid()
      ensures id == old(nextRequest) && id !in old(settled) && id !in old(timers)
      ensures Truthy(direct) ==> State() == old(State()).(nextRequest := id + 1, settled := old(settled)[id := Resolved(direct)])
      ensures !Truthy(direct) ==>
                State() == old(State()).(nextRequest := id + 1, resolver := Some(id),
                                         outbox := old(outbox) + [GetStateMessage], timers := old(timers) + {id})
      ensures Stranded(old(State())) ==> Stranded(State())
      ensures CaptureCanSettle(old(State())) ==> CaptureCanSettle(State())
    {
      id := nextRequest;
      nextRequest := nextRequest + 1;
      if Truthy(direct) {
        settled := SettleOnce(settled, id, Resolved(direct));
        return;
      }
      resolver := Some(id);
      outbox := outbox + [GetStateMessage];
      timers := timers + {id};
    }

    /**
     * The 3000 ms timer of request `id`: when the slot still holds a
     * resolver it is emptied and the direct read retried once, settling
     * `id` with that state or with the reload error; an empty slot means
     * the state arrived, and nothing happens.
     */
    method TimerFired(id: nat, direct: Value)
      requires Valid() && id in timers
      modifies this
      ensures Valid()
      ensures old(resolver).None? ==> State() == old(State()).(timers := old(timers) - {id})
      ensures old(resolver).Some? ==>
                State() == old(State()).(timers := old(timers) - {id}, resolver := None,
                                         settled := SettleOnce(old(settled), id, if Truthy(direct) then Resolved(direct) else Rejected(CaptureError)))
      ensures old(resolver) == Some(id) ==> settled == old(settled)[id := if Truthy(direct) then Resolved(direct) else Rejected(CaptureError)]
      ensures Extends(old(settled), settled)
      ensures Stranded(old(State())) ==> Stranded(State())
    {
      SettleOnceSpec(settled, id, if Truthy(direct) then Resolved(direct) else Rejected(CaptureError));
      timers := timers - {id};
      if resolver.Some? {
        resolver := None;
        if Truthy(direct) {
          settled := SettleOnce(settled, id, Resolved(direct));
        } else {
          settled := SettleOnce(settled, id, Rejected(CaptureError));
        }
      }
    }

    /**
     * The timer of request `id` as evidently intended: it empties the slot
     * only when the slot holds its own request, and settles its own request
     * with the retried read or the reload error when that request is still
     * pending. A stale timer of an answered request changes nothing.
     */
    method GuardedTimerFired(id: nat, direct: Value)
      requires Valid() && id in timers
      modifies this
      ensures Valid()
      ensures State() == old(State()).(timers := old(timers) - {id},
                                       resolver := if old(resolver) == Some(id) then None else old(resolver),
                                       settled := SettleOnce(old(settled), id, if Truthy(direct) then Resolved(direct) else Rejected(CaptureError)))
      ensures id in settled
      ensures id !in old(settled) ==> settled == old(settled)[id := if Truthy(direct) then Resolved(direct) else Rejected(CaptureError)]
      ensures old(resolver) != Some(id) ==> resolver == old(resolver)
      ensures CaptureCanSettle(old(State())) ==> CaptureCanSettle(State())
    {
      SettleOnceSpec(settled, id, if Truthy(direct) then Resolved(direct) else Rejected(CaptureError));
      timers := timers - {id};
      if resolver == Some(id) {
        resolver := None;
      }
      if Truthy(direct) {
        settled := SettleOnce(settled, id, Resolved(direct));
      } else {
        settled := SettleOnce(settled, id, Rejected(CaptureError));
      }
    }

    /**
     * The first half of `handleSave`: nothing unless an administrator who
     * is not a guest clicks while no save is running; then `saving` is set
     * before the capture starts.
     */
    method SaveStart(isAdmin: bool, isGuest: bool, direct: Value) returns (started: bool)
      requires Valid()
      modifies this
      ensures Valid()
      ensures started <==> isAdmin && !isGuest && !old(saving)
      ensures !started ==> State() == old(State())
      ensures started && Truthy(direct) ==>
                State() == old(State()).(saving := true, saveRequest := Some(old(nextRequest)), nextRequest := old(nextRequest) + 1,
                                         settled := old(settled)[old(nextRequest) := Resolved(direct)])
      ensures started && !Truthy(direct) ==>
                State() == old(State()).(saving := true, saveRequest := Some(old(nextRequest)), nextRequest := old(nextRequest) + 1,
                                         resolver := Some(old(nextRequest)), outbox := old(outbox) + [GetStateMessage],
                                         timers := old(timers) + {old(nextRequest)})
      ensures Stranded(old(State())) ==> !started && Stranded(State())
      ensures CaptureCanSettle(old(State())) ==> CaptureCanSettle(State())
    {
      if !isAdmin || isGuest || saving {
        return false;
      }
      var id := RequestState(direct);
      saving, saveRequest := true, Some(id);
      return true;
    }

    /**
     * The second half of `handleSave`, once its capture has settled: an
     * empty state or a rejected capture fails before anything is posted;
     * otherwise the body is posted and a failed reply fails with the
     * server's message or a default. `saving` is cleared in every case and
     * the time of a successful save recorded.
     */
    method SaveFinish(coverageData: Value, reply: SaveReply, clock: string) returns (posted: Option<Value>, outcome: SaveOutcome)
      requires Valid() && saveRequest.Some? && saveRequest.value in settled
      modifies this
      ensures Valid()
      ensures State() == old(State()).(saving := false, saveRequest := None,
                                       lastSaved := if outcome.Saved? then Some(clock) else old(lastSaved))
      ensures old(settled[saveRequest.value]).Rejected? ==>
                posted.None? && outcome == Failed(Str(old(settled[saveRequest.value]).message))
      ensures old(settled[saveRequest.value]).Resolved? && !Truthy(old(settled[saveRequest.value]).state) ==>
                posted.None? && outcome == Failed(Str(EmptyStateError))
      ensures old(settled[saveRequest.value]).Resolved? && Truthy(old(settled[saveRequest.value]).state) ==>
                posted == Some(SaveRequestBody(old(settled[saveRequest.value]).state, old(liveCoverage), coverageData))
      ensures outcome.Saved? <==> posted.Some? && reply.Replied? && reply.ok
      ensures posted.Some? && reply.FetchFailed? ==> outcome == Failed(Str(reply.message))
      ensures posted.Some? && reply.Replied? && !reply.ok ==> outcome == Failed(Or(Get(reply.data, "message"), Str(SaveError)))
      ensures CaptureCanSettle(State())
    {
      var capture := settled[saveRequest.value];
      saving := false;
      saveRequest := None;
      if capture.Rejected? {
        return None, Failed(Str(capture.message));
      }
      if !Truthy(capture.state) {
        return None, Failed(Str(EmptyStateError));
      }
      posted := Some(SaveRequestBody(capture.state, liveCoverage, coverageData));
      if reply.FetchFailed? {
        return posted, Failed(Str(reply.message));
      }
      if !reply.ok {
        return posted, Failed(Or(Get(reply.data, "message"), Str(SaveError)));
      }
      lastSaved := Some(clock);
      outcome := Saved;
    }

    /** The hydration effect: once the document is ready, the mode, state and coverage messages are posted to it. */
    method Hydrate(isAdmin: bool, isGuest: bool, fullState: Value, coverageData: Value)
      requires Valid()
      modifies this
      ensures Valid()
      ensures old(iframeReady) ==> State() == old(State()).(outbox := old(outbox) + HydrationMessages(isAdmin, isGuest, fullState, coverageData))
      ensures !old(iframeReady) ==> State() == old(State())
      ensures Stranded(old(State())) ==> Stranded(State())
      ensures CaptureCanSettle(old(State())) ==> CaptureCanSettle(State())
    {
      if iframeReady {
        outbox := outbox + HydrationMessages(isAdmin, isGuest, fullState, coverageData);
      }
    }
  }

  /** The document's answer to `PCP_GET_STATE`, carrying an empty state. */
  const FullStateMessage: Value := Obj(map["type" := Str("PCP_FULL_STATE"), "payload" := Obj(map[])])

  /** A save whose capture is answered by message and which completes. */
  method FirstSaveDone() returns (p: PcpPage)
    ensures fresh(p) && p.Valid()
    ensures p.State() == PageState(false, false, Some("10:00:01"), None, Null, [GetStateMessage],
                                   map[0 := Resolved(Obj(map[]))], {0}, 1, None)
  {
    p := new PcpPage();
    var started := p.SaveStart(true, false, Null);
    assert p.State() == PageState(false, true, None, Some(0), Null, [GetStateMessage], map[], {0}, 1, Some(0));
    p.HandleMessage(FullStateMessage);
    assert p.State() == PageState(false, true, None, None, Null, [GetStateMessage], map[0 := Resolved(Obj(map[]))], {0}, 1, Some(0));
    var posted, outcome := p.SaveFinish(Null, Replied(true, Null), "10:00:01");
  }

  /**
   * The events both scenarios below share: the first save completes within
   * 3000 ms, and a second save sends its `PCP_GET_STATE` while the first
   * capture's timer is still to fire.
   */
  method SecondSavePending() returns (p: PcpPage)
    ensures fresh(p) && p.Valid()
    ensures p.State() == PageState(false, true, Some("10:00:01"), Some(1), Null, [GetStateMessage, GetStateMessage],
                                   map[0 := Resolved(Obj(map[]))], {0, 1}, 2, Some(1))
  {
    p := FirstSaveDone();
    var started := p.SaveStart(true, false, Null);
  }

  /**
   * Two saves, one after the other, with the timers as written. The first
   * capture is answered by message and the save completes within 3000 ms;
   * the second save starts, and then the first capture's timer fires. It
   * finds the slot full (it holds the second request) and empties it. The
   * document's answer to the second request is then dropped, and the second
   * timer finds the slot empty: the second capture never settles, `saving`
   * stays set, and the next click is refused.
   */
  method StrandedSave() returns (p: PcpPage, again: bool)
    ensures p.Valid() && Stranded(p.State())
    ensures p.saving && p.saveRequest == Some(1) && 1 !in p.settled && p.timers == {} && p.resolver.None?
    ensures !again
  {
    p := SecondSavePending();
    p.TimerFired(0, Null);
    assert p.resolver.None? && p.settled == map[0 := Resolved(Obj(map[]))] && p.timers == {1};
    p.HandleMessage(FullStateMessage);
    assert p.resolver.None? && p.settled == map[0 := Resolved(Obj(map[]))] && p.timers == {1};
    p.TimerFired(1, Null);
    again := p.SaveStart(true, false, Null);
  }

  /**
   * The same events with the guarded timer: the stale timer leaves the slot
   * to the second request, the document's answer settles it, and the second
   * save posts and completes, so the next click starts a third save.
   */
  method GuardedSave() returns (p: PcpPage, outcome: SaveOutcome, again: bool)
    ensures p.Valid() && CaptureCanSettle(p.State())
    ensures 1 in p.settled && p.settled[1] == Resolved(Obj(map[])) && outcome == Saved
    ensures again && p.saving && p.saveRequest == Some(2)
  {
    p := SecondSavePending();
    p.GuardedTimerFired(0, Null);
    assert p.resolver == Some(1) && p.settled == map[0 := Resolved(Obj(map[]))] && p.timers == {1};
    p.HandleMessage(FullStateMessage);
    assert p.resolver.None? && p.settled == map[0 := Resolved(Obj(map[])), 1 := Resolved(Obj(map[]))] && p.timers == {1};
    p.GuardedTimerFired(1, Null);
    assert p.saveRequest == Some(1) && p.settled[1] == Resolved(Obj(map[]));
    var posted;
    posted, outcome := p.SaveFinish(Null, Replied(true, Null), "10:00:02");
    again := p.SaveStart(true, false, Null);
  }
}
