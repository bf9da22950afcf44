/** Caches that wait for data: who will fill them, and when nobody will. */
module CxxrtlPromises {
  import opened Options
  import opened CxxrtlClient
  import opened CxxrtlFetches
  import opened CxxrtlProtocol

  /** An error has been delivered as the answer to a fetch of the slot. */
  ghost predicate Refused(handled: seq<Handled>, slot: Slot) {
    exists k :: 0 <= k < |handled| && !handled[k].ok && Fills(handled[k].pending.callback, slot)
  }

  lemma {:induction false} RefusedAppend(handled: seq<Handled>, h: Handled, slot: Slot)
    ensures Refused(handled + [h], slot) <==> Refused(handled, slot) || (!h.ok && Fills(h.pending.callback, slot))
  {
    var all := handled + [h];
    if Refused(handled, slot) {
      var k :| 0 <= k < |handled| && !handled[k].ok && Fills(handled[k].pending.callback, slot);
      assert all[k] == handled[k];
    }
    assert all[|handled|] == h;
    if Refused(all, slot) {
      var k :| 0 <= k < |all| && !all[k].ok && Fills(all[k].pending.callback, slot);
      assert k < |handled| ==> handled[k] == all[k];
    }
  }

  /**
   Who waits without having been refused has a callback in the queue that will end the waiting; a fetch
   that was refused is gone for good, and its cache is past the state in which it would be sent again.
   */
  ghost predicate Accounted(s: Client, slot: Slot, refused: bool) {
    && (IsWaiting(s, slot) && !refused ==> Awaited(s.queue, slot))
    && (FetchedOnce(slot) && refused ==> Fetched(s, slot) && !Awaited(s.queue, slot))
  }

  // ----- calls

  lemma {:induction false} CommandAccounted(s: Client, t: Client, command: Command, callback: Callback, slot: Slot,
                                            refused: bool)
    requires Accounted(s, slot, refused) && t.queue == s.queue
    requires IsWaiting(t, slot) ==> IsWaiting(s, slot) || Fills(callback, slot)
    requires FetchedOnce(slot) && Fetched(s, slot) ==> Fetched(t, slot)
    requires FetchedOnce(slot) && Fills(callback, slot) ==> !Fetched(s, slot)
    ensures Accounted(RunCommand(t, command, callback), slot, refused)
  {
    AwaitedAppend(s.queue, Pending(t.serial, callback), slot);
  }

  lemma {:induction false} StatusAccounted(s: Client, slot: Slot, refused: bool)
    requires Accounted(s, slot, refused)
    ensures Accounted(GetStatusOf(s), slot, refused)
  {
    hide Accounted;
    if s.status.Uncached? { CommandAccounted(s, s.(status := s.status.Fetched()), GetStatus, OnStatus, slot, refused); }
  }

  lemma {:induction false} FetchAllAccounted(s: Client, slot: Slot, refused: bool)
    requires Accounted(s, slot, refused)
    ensures Accounted(FetchAllItems(s), slot, refused)
  {
    hide Accounted;
    if s.allItems.Uncached? {
      CommandAccounted(s, s.(allItems := s.allItems.Fetched()), ListItems(None), OnAllItems, slot, refused);
    }
  }

  lemma {:induction false} IntervalAccounted(s: Client, until: nat, info: Items, slot: Slot, refused: bool)
    requires Accounted(s, slot, refused)
    ensures Accounted(FetchInterval(s, until, info), slot, refused)
  {
    hide Accounted;
    if s.queryResult.Uncached? {
      CommandAccounted(s, s.(queryResult := s.queryResult.Fetched()), QueryInterval(until),
                       OnInterval(until, s.loaded, info), slot, refused);
    }
  }

  lemma {:induction false} QueryAccounted(s: Client, slot: Slot, refused: bool)
    requires Accounted(s, slot, refused)
    ensures Accounted(QueryVariable(s), slot, refused)
  {
    hide Accounted, GetStatusOf, FetchAllItems, FetchInterval;
    var s1 := GetStatusOf(s);
    StatusAccounted(s, slot, refused);
    if s1.status.Get().Some? {
      var s2 := FetchAllItems(s1);
      FetchAllAccounted(s1, slot, refused);
      if s2.allItems.Get().Some? {
        IntervalAccounted(s2, s1.status.Get().value.latest, s2.allItems.Get().value, slot, refused);
      }
    }
  }

  lemma {:induction false} ModuleAccounted(s: Client, scope: Scope, slot: Slot, refused: bool)
    requires Accounted(s, slot, refused)
    ensures Accounted(FetchItemsInModule(s, scope), slot, refused)
  {
    var cache := ModuleCache(s, scope);
    var t := s.(moduleItems := s.moduleItems[scope := cache.Fetched()]);
    if cache.Uncached? { CommandAccounted(s, t, ListItems(Some(scope)), OnModuleItems(scope), slot, refused); }
  }

  lemma {:induction false} CallAccounted(s: Client, call: Call, slot: Slot, refused: bool)
    requires Accounted(s, slot, refused)
    ensures Accounted(Called(s, call), slot, refused)
  {
    hide Accounted, FetchItemsInModule, QueryVariable;
    match call
    case CallGetScopes =>
      if s.scopes.Uncached? {
        CommandAccounted(s, s.(scopes := s.scopes.Fetched()), ListScopes, OnScopes, slot, refused);
      }
    case CallFetchAllItems => FetchAllAccounted(s, slot, refused);
    case CallFetchItems(scope) => ModuleAccounted(s, scope, slot, refused);
    case CallStatus => StatusAccounted(s, slot, refused);
    case CallQuery => QueryAccounted(s, slot, refused);
    case CallLoad(vars) =>
      LoadedKeeps(s, vars);
      CommandAccounted(s, Loaded(s, vars), ReferenceItems(Loaded(s, vars).loaded), OnReferenced, slot, refused);
    case CallUnpause =>
      StatusAccounted(s, slot, refused);
      var t := GetStatusOf(s);
      var until := if t.status.Get().None? then STRETCH else t.status.Get().value.latest + STRETCH;
      CommandAccounted(t, t, RunSimulation(until), OnStarted, slot, refused);
    case CallPause => CommandAccounted(s, s, PauseSimulation, OnPaused, slot, refused);
  }

  lemma {:induction false} CallSane(s: Client, call: Call)
    requires Sane(s)
    ensures Sane(Called(s, call))
  {
    hide Sane;
    match call
    case CallGetScopes => GetScopesSane(s);
    case CallFetchAllItems => FetchAllSane(s);
    case CallFetchItems(scope) => ModuleSane(s, scope);
    case CallStatus => StatusSane(s);
    case CallQuery => QuerySane(s);
    case CallLoad(vars) => LoadSane(s, vars);
    case CallUnpause => UnpauseSane(s);
    case CallPause => PauseSane(s);
  }

  // ----- messages

  /** A response of the right kind ends the waiting of the slot its callback fills, and starts none. */
  lemma {:induction false} HandleFills(s: Client, callback: Callback, response: Response, slot: Slot)
    requires FitsResponse(callback, response)
    ensures IsWaiting(Handle(s, callback, response), slot) ==> IsWaiting(s, slot) && !Fills(callback, slot)
    ensures FetchedOnce(slot) && !Fills(callback, slot) ==>
        (Fetched(s, slot) ==> Fetched(Handle(s, callback, response), slot))
  {
  }

  lemma {:induction false} ReplyAccounted(s: Client, serial: nat, response: Response, slot: Slot, refused: bool)
    requires Accounted(s, slot, refused) && s.queue != [] && FitsResponse(s.queue[0].callback, response)
    ensures Accounted(Receive(s, Reply(serial, response)), slot, refused)
  {
    ReceiveKeepsRest(s, Reply(serial, response));
    HandleFills(s.(queue := s.queue[1..]), s.queue[0].callback, response, slot);
    AwaitedTail(s.queue, slot);
    hide Handle, Awaited;
  }

  lemma {:induction false} FailureAccounted(s: Client, serial: nat, slot: Slot, refused: bool)
    requires Accounted(s, slot, refused) && s.queue != [] && (FetchedOnce(slot) ==> OneFetch(s, slot))
    ensures Accounted(Receive(s, Failure(serial)), slot, refused || Fills(s.queue[0].callback, slot))
  {
    AwaitedTail(s.queue, slot);
    if FetchedOnce(slot) { AtMostOneTail(s.queue, slot); }
    hide Awaited, AtMostOne;
  }

  lemma {:induction false} EventAccounted(s: Client, message: Message, slot: Slot, refused: bool)
    requires Accounted(s, slot, refused) && !IsAnswer(message)
    ensures Accounted(Receive(s, message), slot, refused)
  {
  }

  // ----- every run

  ghost predicate Kept(sys: System, slot: Slot) {
    Consistent(sys) && Sane(sys.client) && Accounted(sys.client, slot, Refused(sys.handled, slot))
  }

  lemma {:induction false} GoodHead(sys: System)
    requires Consistent(sys) && sys.toClient != [] && IsAnswer(sys.toClient[0])
    ensures sys.client.queue != []
    ensures sys.toClient[0].Reply? ==> FitsResponse(sys.client.queue[0].callback, sys.toClient[0].response)
  {
  }

  lemma {:induction false} DeliverAccounted(sys: System, slot: Slot)
    requires Kept(sys, slot) && sys.toClient != []
    ensures Accounted(Next(sys, Deliver).client, slot, Refused(Next(sys, Deliver).handled, slot))
  {
    var s, message := sys.client, sys.toClient[0];
    var refused := Refused(sys.handled, slot);
    if IsAnswer(message) {
      GoodHead(sys);
      assert FetchedOnce(slot) ==> OneFetch(s, slot);
      RefusedAppend(sys.handled, Handled(message.serial, s.queue[0], message.Reply?), slot);
      hide Accounted, Refused, Receive, Consistent, Sane;
      if message.Reply? {
        ReplyAccounted(s, message.serial, message.response, slot, refused);
      } else {
        FailureAccounted(s, message.serial, slot, refused);
      }
    } else {
      EventAccounted(s, message, slot, refused);
    }
  }

  lemma {:induction false} StepKept(sys: System, step: Step, slot: Slot)
    requires Kept(sys, slot) && Enabled(sys, step)
    ensures Kept(Next(sys, step), slot)
  {
    StepConsistent(sys, step);
    hide Consistent, Sane;
    match step
    case Do(call) =>
      CallSane(sys.client, call);
      CallAccounted(sys.client, call, slot, Refused(sys.handled, slot));
    case Serve(_) => TakenSane(sys.client);
    case Emit(_) =>
    case Deliver =>
      ReceiveSane(sys.client, sys.toClient[0]);
      DeliverAccounted(sys, slot);
  }

  lemma {:induction false} RunKept(sys: System, steps: seq<Step>, slot: Slot)
    requires Kept(sys, slot) && Legal(sys, steps)
    ensures Kept(Run(sys, steps), slot)
    decreases |steps|
  {
    if steps != [] {
      StepKept(sys, steps[0], slot);
      hide Kept;
      RunKept(Next(sys, steps[0]), steps[1..], slot);
    }
  }

  /** In every run, a waiting cache none of whose fetches was refused has its callback in the queue. */
  lemma {:induction false} WaitingIsPromised(steps: seq<Step>, slot: Slot)
    requires Legal(Start(), steps)
    requires IsWaiting(Run(Start(), steps).client, slot) && !Refused(Run(Start(), steps).handled, slot)
    ensures Awaited(Run(Start(), steps).client.queue, slot)
  {
    RunKept(Start(), steps, slot);
  }

  ghost predicate Stranded(s: Client, slot: Slot) {
    IsWaiting(s, slot) && !Awaited(s.queue, slot)
  }

  /**
   In every run, a cache is left waiting without a callback exactly if its fetch was refused, and, for the
   status, no event has told it in the meantime.
   */
  lemma {:induction false} StrandedExactly(steps: seq<Step>, slot: Slot)
    requires Legal(Start(), steps) && FetchedOnce(slot)
    ensures var sys := Run(Start(), steps);
      && (Stranded(sys.client, slot) <==> IsWaiting(sys.client, slot) && Refused(sys.handled, slot))
      && (OnlyByCallback(slot) ==> (Stranded(sys.client, slot) <==> Refused(sys.handled, slot)))
  {
    RunKept(Start(), steps, slot);
  }

  // ----- when everything has been answered

  ghost predicate Quiet(sys: System) {
    sys.client.outbox == [] && forall k :: 0 <= k < |sys.toClient| ==> !IsAnswer(sys.toClient[k])
  }

  lemma {:induction false} QuietChain(queue: seq<Pending>, toClient: seq<Message>, asked: seq<Var>, loaded: seq<Var>)
    requires InStep(queue, toClient, [], asked, loaded)
    requires forall k :: 0 <= k < |toClient| ==> !IsAnswer(toClient[k])
    ensures queue == [] && asked == loaded
    decreases |toClient|
  {
    if toClient != [] {
      assert !IsAnswer(toClient[0]);
      QuietChain(queue, toClient[1..], asked, loaded);
    }
  }

  /** Once all answers are in, no callback is left over, and nothing waits but what was refused. */
  lemma {:induction false} QuietSettles(steps: seq<Step>, slot: Slot)
    requires Legal(Start(), steps) && Quiet(Run(Start(), steps))
    ensures Run(Start(), steps).client.queue == []
    ensures IsWaiting(Run(Start(), steps).client, slot) ==> Refused(Run(Start(), steps).handled, slot)
  {
    var sys := Run(Start(), steps);
    RunKept(Start(), steps, slot);
    QuietChain(sys.client.queue, sys.toClient, sys.asked, sys.client.loaded);
    assert !Awaited(sys.client.queue, slot);
  }

  /** ... the last list the server was asked for is what the client has loaded; unless refused, it refers to it. */
  lemma {:induction false} QuietAgrees(steps: seq<Step>)
    requires Legal(Start(), steps) && Quiet(Run(Start(), steps))
    ensures Run(Start(), steps).asked == Run(Start(), steps).client.loaded
    ensures ReferencesSucceed(Start(), steps) ==> Run(Start(), steps).reference == Run(Start(), steps).client.loaded
  {
    var sys := Run(Start(), steps);
    RunConsistent(Start(), steps);
    QuietChain(sys.client.queue, sys.toClient, sys.asked, sys.client.loaded);
    if ReferencesSucceed(Start(), steps) { RunAgreed(Start(), steps); }
  }

  // ----- what an error does

  lemma {:induction false} RefusedStays(sys: System, steps: seq<Step>, slot: Slot)
    requires Refused(sys.handled, slot) && Legal(sys, steps)
    ensures Refused(Run(sys, steps).handled, slot)
    decreases |steps|
  {
    if steps != [] {
      var next := Next(sys, steps[0]);
      assert |sys.handled| <= |next.handled| && next.handled[..|sys.handled|] == sys.handled;
      var k :| 0 <= k < |sys.handled| && !sys.handled[k].ok && Fills(sys.handled[k].pending.callback, slot);
      assert next.handled[k] == next.handled[..|sys.handled|][k];
      RefusedStays(next, steps[1..], slot);
    }
  }

  /** Nothing ever helps a refused cache: no call, no event and no later answer, in any continuation. */
  lemma {:induction false} StrandedForever(before: seq<Step>, after: seq<Step>, slot: Slot)
    requires Legal(Start(), before) && OnlyByCallback(slot)
    requires Refused(Run(Start(), before).handled, slot) && Legal(Run(Start(), before), after)
    ensures Stranded(Run(Run(Start(), before), after).client, slot)
  {
    var sys := Run(Start(), before);
    RunKept(Start(), before, slot);
    RunKept(sys, after, slot);
    RefusedStays(sys, after, slot);
    hide Run, Legal, Consistent, Sane, Refused, Awaited;
  }

  lemma {:induction false} RunCons(sys: System, step: Step, rest: seq<Step>)
    requires Enabled(sys, step)
    ensures Legal(sys, [step] + rest) <==> Legal(Next(sys, step), rest)
    ensures Legal(Next(sys, step), rest) ==> Run(sys, [step] + rest) == Run(Next(sys, step), rest)
  {
    assert ([step] + rest)[1..] == rest;
  }

  /** One error is enough: after a refused scope query the scopes never arrive, whatever happens later. */
  lemma {:induction false} RefusedScopesNeverArrive(steps: seq<Step>)
    ensures Legal(Start(), RefusedScopes())
    ensures Legal(Run(Start(), RefusedScopes()), steps) ==>
      Run(Run(Start(), RefusedScopes()), steps).client.scopes.Waiting?
  {
    var s0 := Start();
    var s1 := Next(s0, Do(CallGetScopes));
    var s2 := Next(s1, Serve(None));
    var s3 := Next(s2, Deliver);
    RunCons(s2, Deliver, []);
    RunCons(s1, Serve(None), [Deliver]);
    RunCons(s0, Do(CallGetScopes), [Serve(None), Deliver]);
    assert [Serve(None)] + [Deliver] == [Serve(None), Deliver];
    assert [Do(CallGetScopes)] + [Serve(None), Deliver] == RefusedScopes();
    assert Deliver == [Deliver][0] && [Deliver] + [] == [Deliver];
    assert Run(s0, RefusedScopes()) == s3;
    if Legal(s3, steps) {
      assert s3.handled == [Handled(0, Pending(0, OnScopes), false)];
      assert !s3.handled[0].ok && Fills(s3.handled[0].pending.callback, ScopesSlot);
      StrandedForever(RefusedScopes(), steps, ScopesSlot);
    }
  }

  function RefusedScopes(): seq<Step> {
    [Do(CallGetScopes), Serve(None), Deliver]
  }

  // ----- what a refused reference does

  ghost predicate Idle(sys: System) {
    sys.client.queue == [] && sys.client.outbox == [] && sys.toClient == []
  }

  /** A call, its answer and the delivery of that answer. */
  function Round(call: Call, answer: Option<Response>): seq<Step> {
    [Do(call)] + ([Serve(answer)] + [Deliver])
  }

  function Answered(s: Client, answer: Option<Response>): Client
    requires s.queue != []
  {
    var t := s.(queue := [], outbox := []);
    if answer.Some? then Handle(t, s.queue[0].callback, answer.value) else t
  }

  lemma {:induction false} RoundRuns(sys: System, call: Call, answer: Option<Response>, rest: seq<Step>, after: System)
    requires Idle(sys)
    requires var s := Called(sys.client, call);
      && |s.queue| == |s.outbox| == 1
      && (answer.Some? ==> Answers(answer.value, s.outbox[0].command, sys.reference, sys.asked))
      && after.client == Answered(s, answer)
      && after.reference == Served(sys.reference, s.outbox[0].command, answer.Some?)
      && after.asked == Served(sys.asked, s.outbox[0].command, true)
      && after.toClient == []
      && after.handled == sys.handled + [Handled(s.outbox[0].serial, s.queue[0], answer.Some?)]
    ensures Legal(sys, Round(call, answer) + rest) <==> Legal(after, rest)
    ensures Legal(after, rest) ==> Run(sys, Round(call, answer) + rest) == Run(after, rest)
  {
    var s1 := Next(sys, Do(call));
    var s2 := Next(s1, Serve(answer));
    assert Next(s2, Deliver) == after;
    hide Called, Answers, Answered, Next;
    RunCons(s2, Deliver, rest);
    RunCons(s1, Serve(answer), [Deliver] + rest);
    RunCons(sys, Do(call), [Serve(answer)] + ([Deliver] + rest));
    assert Round(call, answer) + rest == [Do(call)] + ([Serve(answer)] + ([Deliver] + rest));
  }

  /** Load a signal, be refused, and query all the same. */
  function RefusedReference(): seq<Step> {
    Round(CallLoad([1]), None)
    + (Round(CallStatus, Some(StatusIs(Status(Paused, 5))))
    + (Round(CallFetchAllItems, Some(ItemList(map[1 := 8])))
    + (Round(CallQuery, Some(Samples([], [1], []))) + [])))
  }

  function AfterLoad(): System {
    System(Fresh().(loaded := [1], index := map[1 := 0], serial := 1), [], [1], [],
      [Handled(0, Pending(0, OnReferenced), false)])
  }

  function AfterStatus(): System {
    var sys := AfterLoad();
    sys.(client := sys.client.(status := Filled(Status(Paused, 5)), serial := 2),
      handled := sys.handled + [Handled(1, Pending(1, OnStatus), true)])
  }

  function AfterItems(): System {
    var sys := AfterStatus();
    sys.(client := sys.client.(allItems := Filled(map[1 := 8]), serial := 3),
      handled := sys.handled + [Handled(2, Pending(2, OnAllItems), true)])
  }

  function AfterQuery(): System {
    var sys := AfterItems();
    sys.(client := sys.client.(queryResult := Filled(5), populated := [Decoding([1], map[1 := 8], [], [1], [])],
      serial := 4),
         handled := sys.handled + [Handled(3, Pending(3, OnInterval(5, [1], map[1 := 8])), true)])
  }

  lemma {:induction false} RefusedLoad(rest: seq<Step>)
    ensures Legal(Start(), Round(CallLoad([1]), None) + rest) <==> Legal(AfterLoad(), rest)
    ensures Legal(AfterLoad(), rest) ==> Run(Start(), Round(CallLoad([1]), None) + rest) == Run(AfterLoad(), rest)
  {
    LoadOne();
    hide Loaded, Round, Run, Legal;
    RoundRuns(Start(), CallLoad([1]), None, rest, AfterLoad());
  }

  lemma {:induction false} LoadOne()
    ensures Loaded(Fresh(), [1]) == Fresh().(loaded := [1], index := map[1 := 0])
  {
    assert [1][..0] == [];
    assert Loaded(Fresh(), []) == Fresh();
  }

  lemma {:induction false} ThenStatus(rest: seq<Step>)
    ensures Legal(AfterLoad(), Round(CallStatus, Some(StatusIs(Status(Paused, 5)))) + rest) <==>
        Legal(AfterStatus(), rest)
    ensures Legal(AfterStatus(), rest) ==>
      Run(AfterLoad(), Round(CallStatus, Some(StatusIs(Status(Paused, 5)))) + rest) == Run(AfterStatus(), rest)
  {
    hide Round, Run, Legal;
    RoundRuns(AfterLoad(), CallStatus, Some(StatusIs(Status(Paused, 5))), rest, AfterStatus());
  }

  lemma {:induction false} ThenItems(rest: seq<Step>)
    ensures Legal(AfterStatus(), Round(CallFetchAllItems, Some(ItemList(map[1 := 8]))) + rest) <==>
        Legal(AfterItems(), rest)
    ensures Legal(AfterItems(), rest) ==>
      Run(AfterStatus(), Round(CallFetchAllItems, Some(ItemList(map[1 := 8]))) + rest) == Run(AfterItems(), rest)
  {
    hide Round, Run, Legal;
    RoundRuns(AfterStatus(), CallFetchAllItems, Some(ItemList(map[1 := 8])), rest, AfterItems());
  }

  lemma {:induction false} ThenQuery(rest: seq<Step>)
    ensures Legal(AfterItems(), Round(CallQuery, Some(Samples([], [1], []))) + rest) <==> Legal(AfterQuery(), rest)
    ensures Legal(AfterQuery(), rest) ==>
      Run(AfterItems(), Round(CallQuery, Some(Samples([], [1], []))) + rest) == Run(AfterQuery(), rest)
  {
    hide Round, Run, Legal;
    RoundRuns(AfterItems(), CallQuery, Some(Samples([], [1], [])), rest, AfterQuery());
  }

  /** The assumption on references is needed: here samples packed for no signal are decoded for signal 1. */
  lemma {:induction false} RefusedReferenceMixesUp()
    ensures Legal(Start(), RefusedReference())
    ensures !DecodedAsPacked(Run(Start(), RefusedReference()).client)
  {
    var r3 := Round(CallQuery, Some(Samples([], [1], []))) + [];
    var r2 := Round(CallFetchAllItems, Some(ItemList(map[1 := 8]))) + r3;
    var r1 := Round(CallStatus, Some(StatusIs(Status(Paused, 5)))) + r2;
    assert RefusedReference() == Round(CallLoad([1]), None) + r1;
    MixedUp();
    hide *;
    Empty(AfterQuery());
    ThenQuery([]);
    ThenItems(r3);
    ThenStatus(r2);
    RefusedLoad(r1);
  }

  lemma {:induction false} MixedUp()
    ensures !DecodedAsPacked(AfterQuery().client)
  {
    var d := AfterQuery().client.populated[0];
    assert d.signals == [1] && d.packed == [];
  }

  lemma {:induction false} Empty(sys: System)
    ensures Legal(sys, []) && Run(sys, []) == sys
  {
  }
}
