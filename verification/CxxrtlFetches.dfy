/** What every call and every message keeps of the client's own bookkeeping, whatever the server does. */
module CxxrtlFetches {
  import opened Options
  import opened CxxrtlClient

  // ----- caches and the callbacks that fill them

  datatype Slot = ScopesSlot | AllItemsSlot | ModuleSlot(scope: Scope) | StatusSlot | IntervalSlot

  predicate IsWaiting(s: Client, slot: Slot) {
    match slot
    case ScopesSlot => s.scopes.Waiting?
    case AllItemsSlot => s.allItems.Waiting?
    case ModuleSlot(scope) => scope in s.moduleItems && s.moduleItems[scope].Waiting?
    case StatusSlot => s.status.Waiting?
    case IntervalSlot => s.queryResult.Waiting?
  }

  /** The callback that the fetch of a slot pushes. */
  predicate Fills(callback: Callback, slot: Slot) {
    match slot
    case ScopesSlot => callback.OnScopes?
    case AllItemsSlot => callback.OnAllItems?
    case ModuleSlot(scope) => callback == OnModuleItems(scope)
    case StatusSlot => callback.OnStatus?
    case IntervalSlot => callback.OnInterval?
  }

  /** Slots that only their own callback can fill. */
  predicate OnlyByCallback(slot: Slot) {
    slot.ScopesSlot? || slot.AllItemsSlot? || slot.ModuleSlot?
  }

  predicate FetchedOnce(slot: Slot) { !slot.IntervalSlot? }

  /** Whether the fetch of a slot has been sent; the status is fetched once, the interval again and again. */
  predicate Fetched(s: Client, slot: Slot) {
    match slot
    case StatusSlot => !s.status.Uncached?
    case IntervalSlot => true
    case _ => IsWaiting(s, slot)
  }

  ghost predicate Awaited(queue: seq<Pending>, slot: Slot) {
    exists k :: 0 <= k < |queue| && Fills(queue[k].callback, slot)
  }

  ghost predicate AtMostOne(queue: seq<Pending>, slot: Slot) {
    forall j, k :: 0 <= j < k < |queue| ==> !(Fills(queue[j].callback, slot) && Fills(queue[k].callback, slot))
  }

  /** At most one fetch per cache is under way, and only for a cache that has sent it. */
  ghost predicate OneFetch(s: Client, slot: Slot) {
    AtMostOne(s.queue, slot) && (Awaited(s.queue, slot) ==> Fetched(s, slot))
  }

  ghost predicate OneFetchEach(s: Client) {
    forall slot :: FetchedOnce(slot) ==> OneFetch(s, slot)
  }

  lemma {:induction false} AwaitedAppend(queue: seq<Pending>, p: Pending, slot: Slot)
    ensures Awaited(queue + [p], slot) <==> Awaited(queue, slot) || Fills(p.callback, slot)
  {
    var all := queue + [p];
    if Awaited(queue, slot) {
      var k :| 0 <= k < |queue| && Fills(queue[k].callback, slot);
      assert all[k] == queue[k];
    }
    assert all[|queue|] == p;
    if Awaited(all, slot) {
      var k :| 0 <= k < |all| && Fills(all[k].callback, slot);
      assert k < |queue| ==> queue[k] == all[k];
    }
  }

  lemma {:induction false} AwaitedTail(queue: seq<Pending>, slot: Slot)
    requires queue != []
    ensures Awaited(queue, slot) <==> Fills(queue[0].callback, slot) || Awaited(queue[1..], slot)
  {
    if Awaited(queue, slot) {
      var k :| 0 <= k < |queue| && Fills(queue[k].callback, slot);
      assert k > 0 ==> queue[1..][k - 1] == queue[k];
    }
    if Awaited(queue[1..], slot) {
      var k :| 0 <= k < |queue[1..]| && Fills(queue[1..][k].callback, slot);
      assert queue[k + 1] == queue[1..][k];
    }
  }

  /** Taking the only callback of a slot off the queue leaves none. */
  lemma {:induction false} AtMostOneTail(queue: seq<Pending>, slot: Slot)
    requires queue != [] && AtMostOne(queue, slot)
    ensures AtMostOne(queue[1..], slot)
    ensures Fills(queue[0].callback, slot) ==> !Awaited(queue[1..], slot)
  {
    var tail := queue[1..];
    forall k | 0 <= k < |tail|
      ensures Fills(queue[0].callback, slot) ==> !Fills(tail[k].callback, slot)
    {
      assert tail[k] == queue[k + 1];
    }
  }

  // ----- numbers, pairs, and what callbacks have captured

  ghost predicate Ascending(serials: seq<nat>, next: nat) {
    && (forall k :: 0 <= k < |serials| ==> serials[k] < next)
    && (forall j, k :: 0 <= j < k < |serials| ==> serials[j] < serials[k])
  }

  function QueueSerials(queue: seq<Pending>): (r: seq<nat>)
    ensures |r| == |queue| && forall k :: 0 <= k < |r| ==> r[k] == queue[k].serial
  {
    seq(|queue|, k requires 0 <= k < |queue| => queue[k].serial)
  }

  function OutboxSerials(outbox: seq<Request>): (r: seq<nat>)
    ensures |r| == |outbox| && forall k :: 0 <= k < |r| ==> r[k] == outbox[k].serial
  {
    seq(|outbox|, k requires 0 <= k < |outbox| => outbox[k].serial)
  }

  /** Callbacks and unsent commands are in the order of their requests, and those of one request belong together. */
  ghost predicate Queued(s: Client) {
    && Ascending(QueueSerials(s.queue), s.serial)
    && Ascending(OutboxSerials(s.outbox), s.serial)
    && forall j, k :: 0 <= j < |s.queue| && 0 <= k < |s.outbox| && s.queue[j].serial == s.outbox[k].serial ==>
         Fits(s.queue[j].callback, s.outbox[k].command)
  }

  ghost predicate NoRepeat(signals: seq<Var>) {
    forall j, k :: 0 <= j < k < |signals| ==> signals[j] != signals[k]
  }

  /** No signal list that samples are or will be decoded with names a signal twice. */
  ghost predicate CleanLists(s: Client) {
    && (forall k :: 0 <= k < |s.queue| && s.queue[k].callback.OnInterval? ==> NoRepeat(s.queue[k].callback.signals))
    && (forall k :: 0 <= k < |s.populated| ==> NoRepeat(s.populated[k].signals))
  }

  lemma {:induction false} LoadedClean(s: Client)
    requires Indexed(s)
    ensures NoRepeat(s.loaded)
  {
  }

  /** The invariant of the container. */
  ghost predicate Sane(s: Client) {
    Indexed(s) && OneFetchEach(s) && Queued(s) && CleanLists(s)
  }

  lemma SaneQueued(s: Client)
    requires Sane(s)
    ensures Queued(s)
  {
  }

  // ----- pushing a command

  lemma {:induction false} CommandQueued(s: Client, command: Command, callback: Callback)
    requires Queued(s) && Fits(callback, command)
    ensures Queued(RunCommand(s, command, callback))
  {
    var t := RunCommand(s, command, callback);
    AscendingAppend(QueueSerials(s.queue), s.serial);
    AscendingAppend(OutboxSerials(s.outbox), s.serial);
    assert QueueSerials(t.queue) == QueueSerials(s.queue) + [s.serial];
    assert OutboxSerials(t.outbox) == OutboxSerials(s.outbox) + [s.serial];
    forall j, k | 0 <= j < |t.queue| && 0 <= k < |t.outbox| && t.queue[j].serial == t.outbox[k].serial
      ensures Fits(t.queue[j].callback, t.outbox[k].command)
    {
      assert j < |s.queue| ==> QueueSerials(s.queue)[j] < s.serial;
      assert k < |s.outbox| ==> OutboxSerials(s.outbox)[k] < s.serial;
    }
  }

  lemma AscendingAppend(serials: seq<nat>, next: nat)
    requires Ascending(serials, next)
    ensures Ascending(serials + [next], next + 1)
  {
  }

  lemma {:induction false} CommandFetches(s: Client, t: Client, command: Command, callback: Callback, slot: Slot)
    requires OneFetch(s, slot) && t.queue == s.queue
    requires Fetched(s, slot) ==> Fetched(t, slot)
    requires Fills(callback, slot) ==> !Fetched(s, slot) && Fetched(t, slot)
    ensures OneFetch(RunCommand(t, command, callback), slot)
  {
    AwaitedAppend(s.queue, Pending(t.serial, callback), slot);
  }

  /** A command whose callback fills just the cache that now waits for it keeps the invariant. */
  lemma {:induction false} CommandSane(s: Client, t: Client, command: Command, callback: Callback)
    requires Sane(s) && Indexed(t) && Fits(callback, command)
    requires t.queue == s.queue && t.outbox == s.outbox && t.serial == s.serial && t.populated == s.populated
    requires forall slot :: FetchedOnce(slot) && Fetched(s, slot) ==> Fetched(t, slot)
    requires forall slot :: FetchedOnce(slot) && Fills(callback, slot) ==> !Fetched(s, slot) && Fetched(t, slot)
    requires callback.OnInterval? ==> NoRepeat(callback.signals)
    ensures Sane(RunCommand(t, command, callback))
  {
    assert Queued(t);
    CommandQueued(t, command, callback);
    hide Queued, NoRepeat, Fits;
    forall slot: Slot | FetchedOnce(slot)
      ensures OneFetch(RunCommand(t, command, callback), slot)
    {
      CommandFetches(s, t, command, callback, slot);
    }
  }

  // ----- every call

  lemma {:induction false} GetScopesSane(s: Client)
    requires Sane(s)
    ensures Sane(GetScopes(s))
  {
    if s.scopes.Uncached? {
      var t := s.(scopes := s.scopes.Fetched());
      SaneIndexed(s, t);
      hide Sane, Indexed;
      CommandSane(s, t, ListScopes, OnScopes);
    }
  }

  lemma SaneIndexed(s: Client, t: Client)
    requires Sane(s) && t.loaded == s.loaded && t.index == s.index
    ensures Indexed(t)
  {
  }

  lemma {:induction false} StatusSane(s: Client)
    requires Sane(s)
    ensures Sane(GetStatusOf(s))
  {
    if s.status.Uncached? {
      var t := s.(status := s.status.Fetched());
      SaneIndexed(s, t);
      hide Sane, Indexed;
      CommandSane(s, t, GetStatus, OnStatus);
    }
  }

  lemma {:induction false} FetchAllSane(s: Client)
    requires Sane(s)
    ensures Sane(FetchAllItems(s))
  {
    if s.allItems.Uncached? {
      var t := s.(allItems := s.allItems.Fetched());
      SaneIndexed(s, t);
      hide Sane, Indexed;
      CommandSane(s, t, ListItems(None), OnAllItems);
    }
  }

  /** A change to caches alone that leaves no fetch without its cache. */
  lemma {:induction false} CachesSane(s: Client, t: Client)
    requires Sane(s)
    requires t.queue == s.queue && t.outbox == s.outbox && t.serial == s.serial && t.populated == s.populated
    requires t.loaded == s.loaded && t.index == s.index
    requires forall slot :: FetchedOnce(slot) && Fetched(s, slot) ==> Fetched(t, slot)
    ensures Sane(t)
  {
    forall slot: Slot | FetchedOnce(slot) ensures OneFetch(t, slot) { assert OneFetch(s, slot); }
  }

  lemma {:induction false} ModuleSane(s: Client, scope: Scope)
    requires Sane(s)
    ensures Sane(FetchItemsInModule(s, scope))
  {
    var cache := ModuleCache(s, scope);
    var t := s.(moduleItems := s.moduleItems[scope := cache.Fetched()]);
    SaneIndexed(s, t);
    hide Sane, Indexed;
    if cache.Uncached? {
      CommandSane(s, t, ListItems(Some(scope)), OnModuleItems(scope));
    } else {
      CachesSane(s, t);
    }
  }

  lemma {:induction false} IntervalSane(s: Client, until: nat, info: Items)
    requires Sane(s)
    ensures Sane(FetchInterval(s, until, info))
  {
    if s.queryResult.Uncached? {
      var t := s.(queryResult := s.queryResult.Fetched());
      SaneIndexed(s, t);
      LoadedClean(t);
      hide Sane, Indexed, NoRepeat;
      CommandSane(s, t, QueryInterval(until), OnInterval(until, s.loaded, info));
    }
  }

  lemma {:induction false} QuerySane(s: Client)
    requires Sane(s)
    ensures Sane(QueryVariable(s))
  {
    hide Sane, Indexed;
    var s1 := GetStatusOf(s);
    StatusSane(s);
    if s1.status.Get().Some? {
      var s2 := FetchAllItems(s1);
      FetchAllSane(s1);
      if s2.allItems.Get().Some? { IntervalSane(s2, s1.status.Get().value.latest, s2.allItems.Get().value); }
    }
  }

  lemma {:induction false} LoadSane(s: Client, vars: seq<Var>)
    requires Sane(s)
    ensures Sane(LoadVariables(s, vars))
  {
    SaneIndexed(s, s);
    LoadingAppends(s, vars);
    hide Sane, Indexed;
    CommandSane(s, Loaded(s, vars), ReferenceItems(Loaded(s, vars).loaded), OnReferenced);
  }

  lemma {:induction false} UnpauseSane(s: Client)
    requires Sane(s)
    ensures Sane(Unpause(s))
  {
    hide Sane, Indexed;
    StatusSane(s);
    var t := GetStatusOf(s);
    SaneIndexed(t, t);
    var until := if t.status.Get().None? then STRETCH else t.status.Get().value.latest + STRETCH;
    CommandSane(t, t, RunSimulation(until), OnStarted);
  }

  lemma {:induction false} PauseSane(s: Client)
    requires Sane(s)
    ensures Sane(Pause(s))
  {
    SaneIndexed(s, s);
    hide Sane, Indexed;
    CommandSane(s, s, PauseSimulation, OnPaused);
  }

  // ----- every message

  lemma {:induction false} StatusUpdateSane(s: Client, status: Status)
    requires Sane(s)
    ensures Sane(StatusUpdate(s, status))
  {
    CachesSane(s, StatusUpdate(s, status));
  }

  lemma {:induction false} InvalidatedSane(s: Client)
    requires Sane(s)
    ensures Sane(s.(queryResult := s.queryResult.Invalidated()))
  {
    CachesSane(s, s.(queryResult := s.queryResult.Invalidated()));
  }

  /** Taking the oldest callback off the queue leaves order, pairs and lists as they are. */
  lemma {:induction false} PoppedSane(s: Client)
    requires Sane(s) && s.queue != []
    ensures Sane(s.(queue := s.queue[1..]))
    ensures forall slot :: FetchedOnce(slot) && Fills(s.queue[0].callback, slot) ==> !Awaited(s.queue[1..], slot)
  {
    var t := s.(queue := s.queue[1..]);
    assert QueueSerials(t.queue) == QueueSerials(s.queue)[1..];
    forall slot: Slot | FetchedOnce(slot)
      ensures OneFetch(t, slot) && (Fills(s.queue[0].callback, slot) ==> !Awaited(s.queue[1..], slot))
    {
      assert OneFetch(s, slot);
      AtMostOneTail(s.queue, slot);
      AwaitedTail(s.queue, slot);
    }
  }

  /** A callback changes its own cache only, so all other fetches stay with theirs. */
  lemma {:induction false} HandleSane(s: Client, callback: Callback, response: Response)
    requires Sane(s)
    requires forall slot :: FetchedOnce(slot) && Fills(callback, slot) ==> !Awaited(s.queue, slot)
    requires callback.OnInterval? ==> NoRepeat(callback.signals)
    ensures Sane(Handle(s, callback, response))
  {
    var t := Handle(s, callback, response);
    assert Indexed(t) && Queued(t) && CleanLists(t) by { hide OneFetchEach; }
    hide Indexed, Queued, CleanLists;
    forall slot: Slot | FetchedOnce(slot)
      ensures OneFetch(t, slot)
    {
      assert OneFetch(s, slot);
    }
  }

  /** Any message at all, wanted or not, of the right kind or not, keeps the invariant. */
  lemma {:induction false} ReceiveSane(s: Client, message: Message)
    requires Sane(s)
    ensures Sane(Receive(s, message))
  {
    match message
    case Reply(_, response) =>
      if s.queue != [] {
        PoppedSane(s);
        assert s.queue[0].callback.OnInterval? ==> NoRepeat(s.queue[0].callback.signals);
        hide Sane, Handle, NoRepeat;
        HandleSane(s.(queue := s.queue[1..]), s.queue[0].callback, response);
      }
    case Failure(_) => if s.queue != [] { PoppedSane(s); }
    case SimulationPaused(time) => StatusUpdateSane(s, Status(Paused, time));
    case SimulationFinished(time) => StatusUpdateSane(s, Status(Finished, time));
    case _ =>
  }

  lemma {:induction false} ReceiveAllSane(s: Client, messages: seq<Message>)
    requires Sane(s)
    ensures Sane(ReceiveAll(s, messages))
    decreases |messages|
  {
    if messages != [] {
      ReceiveAllSane(s, messages[..|messages| - 1]);
      ReceiveSane(ReceiveAll(s, messages[..|messages| - 1]), messages[|messages| - 1]);
    }
  }

  /** The server taking a command out of the outbox keeps it too. */
  lemma {:induction false} TakenSane(s: Client)
    requires Sane(s) && s.outbox != []
    ensures Sane(s.(outbox := s.outbox[1..]))
  {
    var t := s.(outbox := s.outbox[1..]);
    assert OutboxSerials(t.outbox) == OutboxSerials(s.outbox)[1..];
    forall slot: Slot | FetchedOnce(slot) ensures OneFetch(t, slot) { assert OneFetch(s, slot); }
  }
}
