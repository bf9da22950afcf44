/** What the client shows and asks for next, after each call and each answer. */
module CxxrtlAnswers {
  import opened Options
  import opened CxxrtlClient

  // ----- caches

  /** What a cache has to show: its value, or older data while there is none. */
  function Shown<T>(cache: Cache<T>): Option<T> {
    match cache
    case Uncached(prev) => prev
    case Waiting(prev) => prev
    case Filled(value) => Some(value)
  }

  /** Fetching and invalidating change what is asked for, never what is shown. */
  lemma CacheKeepsShown<T>(cache: Cache<T>)
    ensures cache.Get() == Shown(cache)
    ensures cache.Fetched() == match cache case Uncached(prev) => Waiting(prev) case _ => cache
    ensures cache.Invalidated() == Uncached(Shown(cache))
  {
  }

  // ----- calls

  /** `t` with one more command under way, whose answer `callback` will get. */
  ghost predicate Asks(t: Client, command: Command, callback: Callback, after: Client) {
    after == t.(queue := t.queue + [Pending(t.serial, callback)], outbox := t.outbox + [Request(t.serial, command)],
                serial := t.serial + 1)
  }

  /** Only an uncached list is asked for, once: asking again before the answer sends nothing. */
  lemma {:induction false} ScopesAskedOnce(s: Client)
    ensures match s.scopes
            case Uncached(prev) => Asks(s.(scopes := Waiting(prev)), ListScopes, OnScopes, GetScopes(s))
            case _ => GetScopes(s) == s
    ensures GetScopes(GetScopes(s)) == GetScopes(s)
  {
  }

  lemma {:induction false} ItemsAskedOnce(s: Client)
    ensures match s.allItems
            case Uncached(prev) => Asks(s.(allItems := Waiting(prev)), ListItems(None), OnAllItems, FetchAllItems(s))
            case _ => FetchAllItems(s) == s
    ensures FetchAllItems(FetchAllItems(s)) == FetchAllItems(s)
  {
  }

  lemma {:induction false} ModuleAskedOnce(s: Client, scope: Scope)
    ensures var t := FetchItemsInModule(s, scope);
      if scope !in s.moduleItems then
        Asks(s.(moduleItems := s.moduleItems[scope := Waiting(None)]), ListItems(Some(scope)), OnModuleItems(scope), t)
      else match s.moduleItems[scope]
           case Uncached(prev) =>
             Asks(s.(moduleItems := s.moduleItems[scope := Waiting(prev)]), ListItems(Some(scope)),
                  OnModuleItems(scope), t)
           case _ => t == s
    ensures FetchItemsInModule(FetchItemsInModule(s, scope), scope) == FetchItemsInModule(s, scope)
  {
    var t := FetchItemsInModule(s, scope);
    assert scope in s.moduleItems ==> s.moduleItems[scope := s.moduleItems[scope]] == s.moduleItems;
    assert t.moduleItems[scope := t.moduleItems[scope]] == t.moduleItems;
  }

  lemma {:induction false} StatusAskedOnce(s: Client)
    ensures match s.status
            case Uncached(prev) => Asks(s.(status := Waiting(prev)), GetStatus, OnStatus, GetStatusOf(s))
            case _ => GetStatusOf(s) == s
    ensures GetStatusOf(GetStatusOf(s)) == GetStatusOf(s)
  {
  }

  lemma {:induction false} IntervalAskedOnce(s: Client, until: nat, info: Items)
    ensures match s.queryResult
            case Uncached(prev) => Asks(s.(queryResult := Waiting(prev)), QueryInterval(until),
                                        OnInterval(until, s.loaded, info), FetchInterval(s, until, info))
            case _ => FetchInterval(s, until, info) == s
    ensures FetchInterval(FetchInterval(s, until, info), until, info) == FetchInterval(s, until, info)
  {
  }

  /**
   With status and items to show and no valid query result, a query asks for the interval up to the latest
   time shown, to be decoded with the signals loaded at that moment.
   */
  lemma {:induction false} QueryAsksAgain(s: Client)
    requires Shown(s.status).Some? && Shown(s.allItems).Some? && s.queryResult.Uncached?
    ensures var t, latest := QueryVariable(s), Shown(s.status).value.latest;
      && t.outbox != [] && t.outbox[|t.outbox| - 1].command == QueryInterval(latest)
      && t.queue != [] && t.queue[|t.queue| - 1].callback == OnInterval(latest, s.loaded, Shown(s.allItems).value)
      && t.queue[|t.queue| - 1].serial == t.outbox[|t.outbox| - 1].serial
      && t.queryResult == Waiting(s.queryResult.prev)
    ensures s.status.Filled? && s.allItems.Filled? ==>
      Asks(s.(queryResult := Waiting(s.queryResult.prev)), QueryInterval(s.status.value.latest),
           OnInterval(s.status.value.latest, s.loaded, s.allItems.value), QueryVariable(s))
  {
    CacheKeepsShown(s.status);
    CacheKeepsShown(s.allItems);
  }

  /** Without a status, or without items, a query asks for those first and for nothing else. */
  lemma {:induction false} QueryAsksForBasics(s: Client)
    ensures Shown(s.status).None? ==> QueryVariable(s) == GetStatusOf(s)
    ensures Shown(s.status).Some? && Shown(s.allItems).None? ==> QueryVariable(s) == FetchAllItems(GetStatusOf(s))
    ensures QueryVariable(s).populated == s.populated && QueryVariable(s).loaded == s.loaded
  {
    CacheKeepsShown(s.status);
    CacheKeepsShown(s.allItems);
  }

  /** A run goes on for the same stretch of time from wherever the simulation is known to stand. */
  lemma {:induction false} UnpauseRunsOn(s: Client)
    ensures var from := if Shown(s.status).Some? then Shown(s.status).value.latest else 0;
      Asks(GetStatusOf(s), RunSimulation(from + 100_000_000), OnStarted, Unpause(s))
    ensures Asks(s, PauseSimulation, OnPaused, Pause(s))
  {
    CacheKeepsShown(s.status);
  }

  /** The server is told the whole list, new signals last. */
  lemma {:induction false} LoadingTellsServer(s: Client, vars: seq<Var>)
    requires Indexed(s)
    ensures var t := LoadVariables(s, vars);
      && s.loaded <= t.loaded && (forall v :: v in t.loaded <==> v in s.loaded || v in vars)
      && Asks(s.(loaded := t.loaded, index := t.index), ReferenceItems(t.loaded), OnReferenced, t)
  {
    LoadingAppends(s, vars);
  }

  // ----- answers

  /** The state after the answer to the oldest command, with its callback gone. */
  ghost predicate Answered(s: Client, serial: nat, response: Response, after: Client)
    requires s.queue != []
  {
    Receive(s, Reply(serial, response)) == after.(queue := s.queue[1..])
  }

  /** A list that arrives is what the next call returns, without asking again. */
  lemma {:induction false} ScopesArrive(s: Client, serial: nat, scopes: Scopes)
    requires s.queue != [] && s.queue[0].callback.OnScopes?
    ensures Answered(s, serial, ScopeList(scopes), s.(scopes := Filled(scopes)))
    ensures var t := Receive(s, Reply(serial, ScopeList(scopes))); Shown(t.scopes) == Some(scopes) && GetScopes(t) == t
  {
  }

  lemma {:induction false} ItemsArrive(s: Client, serial: nat, items: Items)
    requires s.queue != [] && s.queue[0].callback.OnAllItems?
    ensures Answered(s, serial, ItemList(items), s.(allItems := Filled(items)))
    ensures var t := Receive(s, Reply(serial, ItemList(items)));
      Shown(t.allItems) == Some(items) && FetchAllItems(t) == t
  {
  }

  lemma {:induction false} ModuleItemsArrive(s: Client, serial: nat, items: Items, scope: Scope)
    requires s.queue != [] && s.queue[0].callback == OnModuleItems(scope)
    ensures Answered(s, serial, ItemList(items), s.(moduleItems := s.moduleItems[scope := Filled(items)]))
    ensures var t := Receive(s, Reply(serial, ItemList(items)));
      scope in t.moduleItems && Shown(t.moduleItems[scope]) == Some(items) && FetchItemsInModule(t, scope) == t
  {
    var t := Receive(s, Reply(serial, ItemList(items)));
    assert t.moduleItems[scope := t.moduleItems[scope]] == t.moduleItems;
  }

  /** Samples fill the query result up to the time asked for, and are decoded with the list captured then. */
  lemma {:induction false} SamplesArrive(s: Client, serial: nat, packed: seq<Var>, asked: seq<Var>, rows: seq<seq<nat>>)
    requires s.queue != [] && s.queue[0].callback.OnInterval?
    ensures var c := s.queue[0].callback;
      Answered(s, serial, Samples(packed, asked, rows),
               s.(queryResult := Filled(c.until),
                  populated := s.populated + [Decoding(c.signals, c.info, packed, asked, rows)]))
  {
  }

  /** Once the server has a new list, the query result is stale, so the next query fetches the new signals too. */
  lemma {:induction false} ReferenceInvalidates(s: Client, serial: nat, response: Response)
    requires s.queue != [] && s.queue[0].callback.OnReferenced?
    ensures Answered(s, serial, response, s.(queryResult := Uncached(Shown(s.queryResult))))
    ensures var t := Receive(s, Reply(serial, response));
      Shown(s.status).Some? && Shown(s.allItems).Some? ==>
        && QueryVariable(t).queue[|QueryVariable(t).queue| - 1].callback ==
             OnInterval(Shown(s.status).value.latest, s.loaded, Shown(s.allItems).value)
        && QueryVariable(t).outbox[|QueryVariable(t).outbox| - 1].command == QueryInterval(Shown(s.status).value.latest)
  {
    var t := Receive(s, Reply(serial, response));
    CacheKeepsShown(s.queryResult);
    hide QueryVariable;
    if Shown(s.status).Some? && Shown(s.allItems).Some? { QueryAsksAgain(t); }
  }

  /** So is it after every change of the simulation's status, however the client learns of it. */
  lemma {:induction false} StatusInvalidates(s: Client, serial: nat, status: Status, time: nat)
    ensures s.queue != [] && s.queue[0].callback.OnStatus? ==>
      Answered(s, serial, StatusIs(status), s.(status := Filled(status), queryResult := Uncached(Shown(s.queryResult))))
    ensures s.queue != [] && s.queue[0].callback.OnPaused? ==>
      Answered(s, serial, PausedAt(time),
               s.(status := Filled(Status(Paused, time)), queryResult := Uncached(Shown(s.queryResult))))
    ensures Receive(s, SimulationPaused(time)) ==
      s.(status := Filled(Status(Paused, time)), queryResult := Uncached(Shown(s.queryResult)))
    ensures Receive(s, SimulationFinished(time)) ==
      s.(status := Filled(Status(Finished, time)), queryResult := Uncached(Shown(s.queryResult)))
  {
    CacheKeepsShown(s.queryResult);
  }

  /** Starting the simulation forgets the time it stood at, and leaves the query result alone. */
  lemma {:induction false} StartResets(s: Client, serial: nat, response: Response)
    requires s.queue != [] && s.queue[0].callback.OnStarted?
    ensures Answered(s, serial, response, s.(status := Filled(Status(Running, 0))))
  {
  }

  /** A response of the wrong kind only uses the callback up, and so does an error; other texts change nothing. */
  lemma {:induction false} NothingArrives(s: Client, serial: nat, response: Response)
    ensures s.queue != [] ==>
      var callback := s.queue[0].callback;
      !FitsResponse(callback, response) && !callback.OnReferenced? && !callback.OnStarted? ==>
        Answered(s, serial, response, s)
    ensures Receive(s, Failure(serial)) == if s.queue == [] then s else s.(queue := s.queue[1..])
    ensures s.queue == [] ==> Receive(s, Reply(serial, response)) == s
    ensures Receive(s, Greeting) == s && Receive(s, Unreadable) == s
  {
  }

  /** A batch of messages has the effect of its messages one after the other. */
  lemma {:induction false} BatchInOrder(s: Client, messages: seq<Message>, message: Message)
    ensures ReceiveAll(s, []) == s
    ensures ReceiveAll(s, messages + [message]) == Receive(ReceiveAll(s, messages), message)
  {
    assert (messages + [message])[..|messages|] == messages;
  }
}
