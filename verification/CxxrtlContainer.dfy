/** The container as the program has it: an object whose caches and queues change with calls and messages. */
module CxxrtlContainer {
  import opened Options
  import opened CxxrtlClient
  import opened CxxrtlFetches

  class Container {
    var scopesCache: Cache<Scopes>
    var moduleItemCache: map<Scope, Cache<Items>>
    var allItemsCache: Cache<Items>
    var queryResult: Cache<nat>
    var intervalQueryCache: seq<Decoding>
    var loadedSignals: seq<Var>
    var signalIndexMap: map<Var, nat>
    var simulationStatus: Cache<Status>
    var callbackQueue: seq<Pending>
    var csMessages: seq<Request>
    var sent: nat

    ghost function State(): Client
      reads this
    {
      Client(scopesCache, moduleItemCache, allItemsCache, queryResult, intervalQueryCache, loadedSignals,
             signalIndexMap, simulationStatus, callbackQueue, csMessages, sent)
    }

    /**
     Signals are indexed, every cache has at most one fetch under way and only once it has sent it,
     callbacks belong to the commands they were pushed with, and no list to decode with repeats a signal.
     */
    ghost predicate Valid()
      reads this
    {
      Sane(State())
    }

    constructor ()
      ensures Valid()
      ensures State() == Fresh()
    {
      scopesCache, moduleItemCache, allItemsCache := Uncached(None), map[], Uncached(None);
      queryResult, intervalQueryCache := Uncached(None), [];
      loadedSignals, signalIndexMap := [], map[];
      simulationStatus := Uncached(None);
      callbackQueue, csMessages, sent := [], [], 0;
    }

    /** A callback goes with the command it fits; whose cache now waits is for the caller to say. */
    method RunCommand(command: Command, callback: Callback)
      requires Queued(State()) && Fits(callback, command)
      modifies this
      ensures Queued(State())
      ensures State() == CxxrtlClient.RunCommand(old(State()), command, callback)
    {
      CommandQueued(State(), command, callback);
      callbackQueue := callbackQueue + [Pending(sent, callback)];
      csMessages := csMessages + [Request(sent, command)];
      sent := sent + 1;
    }

    method GetScopes() returns (scopes: Scopes)
      requires Valid()
      modifies this
      ensures Valid()
      ensures State() == CxxrtlClient.GetScopes(old(State()))
      ensures scopes == if old(scopesCache).Get().Some? then old(scopesCache).Get().value else {}
    {
      GetScopesSane(State());
      hide Sane, Queued;
      SaneQueued(State());
      if scopesCache.Uncached? { RunCommand(ListScopes, OnScopes); }
      var result := scopesCache.Get();
      scopesCache := scopesCache.Fetched();
      scopes := if result.Some? then result.value else {};
    }

    method FetchAllItems() returns (items: Option<Items>)
      requires Valid()
      modifies this
      ensures Valid()
      ensures State() == CxxrtlClient.FetchAllItems(old(State()))
      ensures items == old(allItemsCache).Get() == allItemsCache.Get()
    {
      FetchAllSane(State());
      hide Sane, Queued;
      SaneQueued(State());
      if allItemsCache.Uncached? { RunCommand(ListItems(None), OnAllItems); }
      items := allItemsCache.Get();
      allItemsCache := allItemsCache.Fetched();
    }

    /** The width of one item; asks for all of them. */
    method FetchItem(v: Var) returns (width: Option<nat>)
      requires Valid()
      modifies this
      ensures Valid()
      ensures State() == CxxrtlClient.FetchAllItems(old(State()))
      ensures width.Some? <==> old(allItemsCache).Get().Some? && v in old(allItemsCache).Get().value
      ensures width.Some? ==> width.value == old(allItemsCache).Get().value[v]
    {
      var items := FetchAllItems();
      width := if items.Some? && v in items.value then Some(items.value[v]) else None;
    }

    method FetchItemsInModule(scope: Scope) returns (items: Items)
      requires Valid()
      modifies this
      ensures Valid()
      ensures State() == CxxrtlClient.FetchItemsInModule(old(State()), scope)
      ensures var cached := ModuleCache(old(State()), scope).Get();
        items == if cached.Some? then cached.value else map[]
    {
      ModuleSane(State(), scope);
      hide Sane, Queued;
      SaneQueued(State());
      if scope !in moduleItemCache { moduleItemCache := moduleItemCache[scope := Uncached(None)]; }
      var cache := moduleItemCache[scope];
      assert cache == ModuleCache(old(State()), scope);
      if cache.Uncached? { RunCommand(ListItems(Some(scope)), OnModuleItems(scope)); }
      moduleItemCache := moduleItemCache[scope := cache.Fetched()];
      items := if cache.Get().Some? then cache.Get().value else map[];
    }

    method RawSimulationStatus() returns (status: Option<Status>)
      requires Valid()
      modifies this
      ensures Valid()
      ensures State() == GetStatusOf(old(State()))
      ensures status == old(simulationStatus).Get() == simulationStatus.Get()
    {
      StatusSane(State());
      hide Sane, Queued;
      SaneQueued(State());
      if simulationStatus.Uncached? { RunCommand(GetStatus, OnStatus); }
      status := simulationStatus.Get();
      simulationStatus := simulationStatus.Fetched();
    }

    /** Ask for the samples up to a time unless that has been done; the closure keeps the signals loaded now. */
    method FetchInterval(until: nat, info: Items) returns (known: Option<nat>)
      requires Valid()
      modifies this
      ensures Valid()
      ensures State() == CxxrtlClient.FetchInterval(old(State()), until, info)
      ensures known == old(queryResult).Get() == queryResult.Get()
    {
      IntervalSane(State(), until, info);
      SaneQueued(State());
      hide Sane, Queued;
      var signals := loadedSignals;
      if queryResult.Uncached? { RunCommand(QueryInterval(until), OnInterval(until, signals, info)); }
      known := queryResult.Get();
      queryResult := queryResult.Fetched();
    }

    /** `known` is the end of the interval that values may be looked up in, if there is one yet. */
    method QueryVariable() returns (known: Option<nat>)
      requires Valid()
      modifies this
      ensures Valid()
      ensures State() == CxxrtlClient.QueryVariable(old(State()))
      ensures known.Some? <==>
        old(simulationStatus).Get().Some? && old(allItemsCache).Get().Some? && old(queryResult).Get().Some?
      ensures known.Some? ==> known == old(queryResult).Get()
    {
      var status := RawSimulationStatus();
      assert allItemsCache == old(allItemsCache) && queryResult == old(queryResult);
      if status.None? { return None; }
      hide GetStatusOf;
      var info := FetchAllItems();
      assert queryResult == old(queryResult);
      if info.None? { return None; }
      hide CxxrtlClient.FetchAllItems;
      known := FetchInterval(status.value.latest, info.value);
    }

    method LoadVariables(variables: seq<Var>)
      requires Valid()
      modifies this
      ensures Valid()
      ensures State() == CxxrtlClient.LoadVariables(old(State()), variables)
      ensures |old(loadedSignals)| <= |loadedSignals| && loadedSignals[..|old(loadedSignals)|] == old(loadedSignals)
      ensures forall v :: v in loadedSignals <==> v in old(loadedSignals) || v in variables
    {
      ghost var before := State();
      for i := 0 to |variables|
        invariant State() == Loaded(before, variables[..i])
      {
        var v := variables[i];
        assert variables[..i + 1][..i] == variables[..i];
        if v !in signalIndexMap {
          var idx := |loadedSignals|;
          signalIndexMap := signalIndexMap[v := idx];
          loadedSignals := loadedSignals + [v];
        }
      }
      assert variables[..|variables|] == variables;
      LoadingAppends(before, variables);
      LoadSane(before, variables);
      RunCommand(ReferenceItems(loadedSignals), OnReferenced);
    }

    method Unpause()
      requires Valid()
      modifies this
      ensures Valid()
      ensures State() == CxxrtlClient.Unpause(old(State()))
    {
      UnpauseSane(State());
      hide Sane, Queued;
      var status := RawSimulationStatus();
      var until := if status.None? then STRETCH else status.value.latest + STRETCH;
      SaneQueued(State());
      RunCommand(RunSimulation(until), OnStarted);
    }

    method Pause()
      requires Valid()
      modifies this
      ensures Valid()
      ensures State() == CxxrtlClient.Pause(old(State()))
    {
      PauseSane(State());
      hide Sane, Queued;
      SaneQueued(State());
      RunCommand(PauseSimulation, OnPaused);
    }

    method InvalidateQueryResult()
      requires Valid()
      modifies this
      ensures Valid()
      ensures State() == old(State()).(queryResult := old(queryResult).Invalidated())
    {
      InvalidatedSane(State());
      queryResult := queryResult.Invalidated();
    }

    method OnSimulationStatusUpdate(status: Status)
      requires Valid()
      modifies this
      ensures Valid()
      ensures State() == StatusUpdate(old(State()), status)
    {
      StatusUpdateSane(State(), status);
      simulationStatus := Filled(status);
      InvalidateQueryResult();
    }

    /** Run a callback that has just been taken off the queue. */
    method RunCallback(callback: Callback, response: Response)
      requires Valid()
      requires forall slot :: FetchedOnce(slot) && Fills(callback, slot) ==> !Awaited(callbackQueue, slot)
      requires callback.OnInterval? ==> NoRepeat(callback.signals)
      modifies this
      ensures Valid()
      ensures State() == Handle(old(State()), callback, response)
    {
      HandleSane(State(), callback, response);
      match callback
      case OnScopes =>
        if response.ScopeList? { scopesCache := Filled(response.scopes); }
      case OnAllItems =>
        if response.ItemList? { allItemsCache := Filled(response.items); }
      case OnModuleItems(scope) =>
        if response.ItemList? { moduleItemCache := moduleItemCache[scope := Filled(response.items)]; }
      case OnStatus =>
        if response.StatusIs? { OnSimulationStatusUpdate(response.status); }
      case OnInterval(until, signals, info) =>
        if response.Samples? {
          queryResult := Filled(until);
          intervalQueryCache := intervalQueryCache
            + [Decoding(signals, info, response.packed, response.asked, response.rows)];
        }
      case OnReferenced => InvalidateQueryResult();
      case OnStarted => simulationStatus := Filled(Status(Running, 0));
      case OnPaused =>
        if response.PausedAt? { OnSimulationStatusUpdate(Status(Paused, response.time)); }
    }

    /** Work off everything that has arrived, in order. */
    method Tick(scMessages: seq<Message>)
      requires Valid()
      modifies this
      ensures Valid()
      ensures State() == ReceiveAll(old(State()), scMessages)
    {
      ghost var before := State();
      for i := 0 to |scMessages|
        invariant Valid() && State() == ReceiveAll(before, scMessages[..i])
      {
        ghost var now := State();
        assert scMessages[..i + 1][..i] == scMessages[..i];
        assert ReceiveAll(before, scMessages[..i + 1]) == Receive(now, scMessages[i]);
        ReceiveSane(now, scMessages[i]);
        match scMessages[i] {
          case Greeting =>
          case Unreadable => continue;
          case Reply(_, response) =>
            if callbackQueue != [] {
              var pending := callbackQueue[0];
              PoppedSane(now);
              callbackQueue := callbackQueue[1..];
              RunCallback(pending.callback, response);
            }
          case Failure(_) =>
            if callbackQueue != [] { callbackQueue := callbackQueue[1..]; }
          case SimulationPaused(time) => OnSimulationStatusUpdate(Status(Paused, time));
          case SimulationFinished(time) => OnSimulationStatusUpdate(Status(Finished, time));
        }
      }
      assert scMessages[..|scMessages|] == scMessages;
    }
  }
}
