/** Client and server together: every run of calls, answers, events and deliveries. */
module CxxrtlProtocol {
  import opened Options
  import opened CxxrtlClient

  /** A delivered answer: the request it answers, and the callback that was taken off the queue for it. */
  datatype Handled = Handled(answered: nat, pending: Pending, ok: bool)

  /**
   Both channels are queues: `client.outbox` towards the server, `toClient` back. The server refers to
   `reference`; `asked` is the list of the last reference command it has served, accepted or not.
   */
  datatype System = System(
    client: Client,
    reference: seq<Var>,
    asked: seq<Var>,
    toClient: seq<Message>,
    handled: seq<Handled>)

  function Start(): System {
    System(Fresh(), [], [], [], [])
  }

  datatype Call =
    | CallGetScopes
    | CallFetchAllItems
    | CallFetchItems(scope: Scope)
    | CallStatus
    | CallQuery
    | CallLoad(vars: seq<Var>)
    | CallUnpause
    | CallPause

  datatype Step =
    | Do(call: Call)
    | Serve(answer: Option<Response>)
    | Emit(event: Message)
    | Deliver

  function Called(s: Client, call: Call): Client {
    match call
    case CallGetScopes => GetScopes(s)
    case CallFetchAllItems => FetchAllItems(s)
    case CallFetchItems(scope) => FetchItemsInModule(s, scope)
    case CallStatus => GetStatusOf(s)
    case CallQuery => QueryVariable(s)
    case CallLoad(vars) => LoadVariables(s, vars)
    case CallUnpause => Unpause(s)
    case CallPause => Pause(s)
  }

  /** The kind of response a command asks for; samples are laid out by the server's reference. */
  predicate Answers(response: Response, command: Command, reference: seq<Var>, asked: seq<Var>) {
    match command
    case ListScopes => response.ScopeList?
    case ListItems(_) => response.ItemList?
    case GetStatus => response.StatusIs?
    case QueryInterval(_) => response.Samples? && response.packed == reference && response.asked == asked
    case ReferenceItems(_) => response.Referenced?
    case RunSimulation(_) => response.Started?
    case PauseSimulation => response.PausedAt?
  }

  /** The server answers the oldest command, with a matching response or an error; it may also send events. */
  predicate Enabled(sys: System, step: Step) {
    match step
    case Do(_) => true
    case Serve(answer) =>
      sys.client.outbox != [] && (answer.Some? ==>
        Answers(answer.value, sys.client.outbox[0].command, sys.reference, sys.asked))
    case Emit(event) => !IsAnswer(event)
    case Deliver => sys.toClient != []
  }

  function Served(reference: seq<Var>, command: Command, ok: bool): seq<Var> {
    if command.ReferenceItems? && ok then command.items else reference
  }

  function Next(sys: System, step: Step): System
    requires Enabled(sys, step)
  {
    match step
    case Do(call) => sys.(client := Called(sys.client, call))
    case Serve(answer) =>
      var request := sys.client.outbox[0];
      var message := if answer.Some? then Reply(request.serial, answer.value) else Failure(request.serial);
      sys.(client := sys.client.(outbox := sys.client.outbox[1..]),
           reference := Served(sys.reference, request.command, answer.Some?),
           asked := Served(sys.asked, request.command, true),
           toClient := sys.toClient + [message])
    case Emit(event) => sys.(toClient := sys.toClient + [event])
    case Deliver =>
      var message := sys.toClient[0];
      var taken := IsAnswer(message) && sys.client.queue != [];
      sys.(client := Receive(sys.client, message),
           toClient := sys.toClient[1..],
           handled := if taken then sys.handled + [Handled(message.serial, sys.client.queue[0], message.Reply?)]
             else sys.handled)
  }

  ghost predicate Legal(sys: System, steps: seq<Step>)
    decreases |steps|
  {
    steps == [] || (Enabled(sys, steps[0]) && Legal(Next(sys, steps[0]), steps[1..]))
  }

  function Run(sys: System, steps: seq<Step>): System
    requires Legal(sys, steps)
    decreases |steps|
  {
    if steps == [] then sys else Run(Next(sys, steps[0]), steps[1..])
  }

  // ----- callbacks and requests stay in step

  /**
   The commands still to be served belong to the callbacks in the queue, one by one. The list each query
   will find asked for is the one its callback decodes with; the last one is what the client has loaded.
   */
  ghost predicate Requests(queue: seq<Pending>, outbox: seq<Request>, asked: seq<Var>, loaded: seq<Var>)
    decreases |outbox|
  {
    if outbox == [] then queue == [] && asked == loaded
    else
      && queue != []
      && queue[0].serial == outbox[0].serial
      && Fits(queue[0].callback, outbox[0].command)
      && (queue[0].callback.OnInterval? ==> queue[0].callback.signals == asked)
      && Requests(queue[1..], outbox[1..], Served(asked, outbox[0].command, true), loaded)
  }

  ghost predicate GoodReply(pending: Pending, message: Message)
    requires IsAnswer(message)
  {
    && pending.serial == message.serial
    && (message.Reply? ==> FitsResponse(pending.callback, message.response))
    && (message.Reply? && pending.callback.OnInterval? ==> pending.callback.signals == message.response.asked)
  }

  /** The answers under way belong to the oldest callbacks, one by one; the rest waits for the server. */
  ghost predicate InStep(queue: seq<Pending>, toClient: seq<Message>, outbox: seq<Request>, asked: seq<Var>,
                         loaded: seq<Var>)
    decreases |toClient|
  {
    if toClient == [] then Requests(queue, outbox, asked, loaded)
    else if !IsAnswer(toClient[0]) then InStep(queue, toClient[1..], outbox, asked, loaded)
    else
      && queue != []
      && GoodReply(queue[0], toClient[0])
      && InStep(queue[1..], toClient[1..], outbox, asked, loaded)
  }

  lemma {:induction false} RequestsAppend(queue: seq<Pending>, outbox: seq<Request>, asked: seq<Var>, loaded: seq<Var>,
                                          p: Pending, r: Request)
    requires Requests(queue, outbox, asked, loaded)
    requires p.serial == r.serial && Fits(p.callback, r.command)
    requires p.callback.OnInterval? ==> p.callback.signals == loaded
    ensures Requests(queue + [p], outbox + [r], asked, Served(loaded, r.command, true))
    decreases |outbox|
  {
    if outbox == [] {
      assert (queue + [p])[1..] == [] && (outbox + [r])[1..] == [];
    } else {
      RequestsAppend(queue[1..], outbox[1..], Served(asked, outbox[0].command, true), loaded, p, r);
      assert (queue + [p])[1..] == queue[1..] + [p] && (outbox + [r])[1..] == outbox[1..] + [r];
    }
  }

  lemma {:induction false} InStepAppend(queue: seq<Pending>, toClient: seq<Message>, outbox: seq<Request>,
                                        asked: seq<Var>, loaded: seq<Var>, p: Pending, r: Request)
    requires InStep(queue, toClient, outbox, asked, loaded)
    requires p.serial == r.serial && Fits(p.callback, r.command)
    requires p.callback.OnInterval? ==> p.callback.signals == loaded
    ensures InStep(queue + [p], toClient, outbox + [r], asked, Served(loaded, r.command, true))
    decreases |toClient|
  {
    if toClient == [] {
      RequestsAppend(queue, outbox, asked, loaded, p, r);
    } else if !IsAnswer(toClient[0]) {
      InStepAppend(queue, toClient[1..], outbox, asked, loaded, p, r);
    } else {
      InStepAppend(queue[1..], toClient[1..], outbox, asked, loaded, p, r);
      assert (queue + [p])[1..] == queue[1..] + [p];
    }
  }

  lemma {:induction false} InStepServe(queue: seq<Pending>, toClient: seq<Message>, outbox: seq<Request>,
                                       reference: seq<Var>, asked: seq<Var>, loaded: seq<Var>, answer: Option<Response>)
    requires InStep(queue, toClient, outbox, asked, loaded)
    requires outbox != [] && (answer.Some? ==> Answers(answer.value, outbox[0].command, reference, asked))
    ensures
      var message := if answer.Some? then Reply(outbox[0].serial, answer.value) else Failure(outbox[0].serial);
      InStep(queue, toClient + [message], outbox[1..], Served(asked, outbox[0].command, true), loaded)
    decreases |toClient|
  {
    var message := if answer.Some? then Reply(outbox[0].serial, answer.value) else Failure(outbox[0].serial);
    if toClient == [] {
      assert ([] + [message])[1..] == [];
    } else {
      assert (toClient + [message])[1..] == toClient[1..] + [message];
      if IsAnswer(toClient[0]) {
        InStepServe(queue[1..], toClient[1..], outbox, reference, asked, loaded, answer);
      } else {
        InStepServe(queue, toClient[1..], outbox, reference, asked, loaded, answer);
      }
    }
  }

  lemma {:induction false} InStepEmit(queue: seq<Pending>, toClient: seq<Message>, outbox: seq<Request>,
                                      asked: seq<Var>, loaded: seq<Var>, event: Message)
    requires InStep(queue, toClient, outbox, asked, loaded)
    requires !IsAnswer(event)
    ensures InStep(queue, toClient + [event], outbox, asked, loaded)
    decreases |toClient|
  {
    if toClient == [] {
      assert ([] + [event])[1..] == [];
    } else {
      assert (toClient + [event])[1..] == toClient[1..] + [event];
      if IsAnswer(toClient[0]) {
        InStepEmit(queue[1..], toClient[1..], outbox, asked, loaded, event);
      } else {
        InStepEmit(queue, toClient[1..], outbox, asked, loaded, event);
      }
    }
  }

  ghost predicate Paired(sys: System) {
    InStep(sys.client.queue, sys.toClient, sys.client.outbox, sys.asked, sys.client.loaded)
  }

  // ----- one step

  lemma {:induction false} PairedCommand(sys: System, t: Client, command: Command, callback: Callback)
    requires Paired(sys)
    requires t.queue == sys.client.queue && t.outbox == sys.client.outbox
    requires t.loaded == Served(sys.client.loaded, command, true)
    requires Fits(callback, command) && (callback.OnInterval? ==> callback.signals == sys.client.loaded)
    ensures Paired(sys.(client := RunCommand(t, command, callback)))
  {
    InStepAppend(sys.client.queue, sys.toClient, sys.client.outbox, sys.asked, sys.client.loaded,
                 Pending(t.serial, callback), Request(t.serial, command));
    hide InStep;
  }

  lemma {:induction false} PairedStatus(sys: System)
    requires Paired(sys)
    ensures Paired(sys.(client := GetStatusOf(sys.client)))
  {
    hide InStep;
    var s := sys.client;
    if s.status.Uncached? { PairedCommand(sys, s.(status := s.status.Fetched()), GetStatus, OnStatus); }
  }

  lemma {:induction false} PairedFetchAll(sys: System)
    requires Paired(sys)
    ensures Paired(sys.(client := FetchAllItems(sys.client)))
  {
    hide InStep;
    var s := sys.client;
    if s.allItems.Uncached? { PairedCommand(sys, s.(allItems := s.allItems.Fetched()), ListItems(None), OnAllItems); }
  }

  lemma {:induction false} PairedQuery(sys: System)
    requires Paired(sys)
    ensures Paired(sys.(client := QueryVariable(sys.client)))
  {
    hide InStep;
    var s1 := GetStatusOf(sys.client);
    PairedStatus(sys);
    if s1.status.Get().Some? {
      var s2 := FetchAllItems(s1);
      PairedFetchAll(sys.(client := s1));
      if s2.allItems.Get().Some? && s2.queryResult.Uncached? {
        var until := s1.status.Get().value.latest;
        PairedCommand(sys.(client := s2), s2.(queryResult := s2.queryResult.Fetched()), QueryInterval(until),
                      OnInterval(until, s2.loaded, s2.allItems.Get().value));
      }
    }
  }

  lemma {:induction false} PairedCall(sys: System, call: Call)
    requires Paired(sys)
    ensures Paired(sys.(client := Called(sys.client, call)))
  {
    hide InStep;
    var s := sys.client;
    match call
    case CallGetScopes =>
      if s.scopes.Uncached? { PairedCommand(sys, s.(scopes := s.scopes.Fetched()), ListScopes, OnScopes); }
    case CallFetchAllItems => PairedFetchAll(sys);
    case CallFetchItems(scope) =>
      var cache := ModuleCache(s, scope);
      var t := s.(moduleItems := s.moduleItems[scope := cache.Fetched()]);
      if cache.Uncached? { PairedCommand(sys, t, ListItems(Some(scope)), OnModuleItems(scope)); }
    case CallStatus => PairedStatus(sys);
    case CallQuery => PairedQuery(sys);
    case CallLoad(vars) =>
      LoadedKeeps(s, vars);
      PairedCommand(sys, Loaded(s, vars), ReferenceItems(Loaded(s, vars).loaded), OnReferenced);
    case CallUnpause =>
      var t := GetStatusOf(s);
      var until := if t.status.Get().None? then STRETCH else t.status.Get().value.latest + STRETCH;
      PairedStatus(sys);
      PairedCommand(sys.(client := t), t, RunSimulation(until), OnStarted);
    case CallPause => PairedCommand(sys, s, PauseSimulation, OnPaused);
  }

  ghost predicate MatchedHistory(sys: System) {
    forall k :: 0 <= k < |sys.handled| ==> sys.handled[k].answered == sys.handled[k].pending.serial
  }

  ghost predicate DecodedAsAsked(s: Client) {
    forall k :: 0 <= k < |s.populated| ==> s.populated[k].signals == s.populated[k].asked
  }

  /** What every step keeps, whatever goes wrong. */
  ghost predicate Consistent(sys: System) {
    Paired(sys) && MatchedHistory(sys) && DecodedAsAsked(sys.client)
  }

  lemma {:induction false} CallKeepsPopulated(s: Client, call: Call)
    ensures Called(s, call).populated == s.populated
  {
    match call
    case CallLoad(vars) => LoadedKeeps(s, vars);
    case _ =>
  }

  lemma {:induction false} DeliverConsistent(sys: System)
    requires Consistent(sys) && Enabled(sys, Deliver)
    ensures Consistent(Next(sys, Deliver))
  {
    var s, message := sys.client, sys.toClient[0];
    ReceiveKeepsRest(s, message);
    assert IsAnswer(message) ==> s.queue != [] && GoodReply(s.queue[0], message);
    assert Paired(Next(sys, Deliver));
    hide InStep;
  }

  lemma {:induction false} StepConsistent(sys: System, step: Step)
    requires Consistent(sys) && Enabled(sys, step)
    ensures Consistent(Next(sys, step))
  {
    var s := sys.client;
    match step
    case Do(call) =>
      PairedCall(sys, call);
      CallKeepsPopulated(s, call);
      hide *;
    case Serve(answer) => InStepServe(s.queue, sys.toClient, s.outbox, sys.reference, sys.asked, s.loaded, answer);
    case Emit(event) => InStepEmit(s.queue, sys.toClient, s.outbox, sys.asked, s.loaded, event);
    case Deliver => DeliverConsistent(sys);
  }

  // ----- every run

  lemma {:induction false} RunConsistent(sys: System, steps: seq<Step>)
    requires Consistent(sys) && Legal(sys, steps)
    ensures Consistent(Run(sys, steps))
    decreases |steps|
  {
    if steps != [] {
      StepConsistent(sys, steps[0]);
      RunConsistent(Next(sys, steps[0]), steps[1..]);
    }
  }

  /** In every run, an answer, good or bad, takes the callback pushed with its own command off the queue. */
  lemma {:induction false} CallbacksMatch(steps: seq<Step>)
    requires Legal(Start(), steps)
    ensures MatchedHistory(Run(Start(), steps))
  {
    RunConsistent(Start(), steps);
  }

  /**
   In every run, an interval response is decoded as it was packed exactly if the server then referred to
   the list it had last been asked to refer to.
   */
  lemma {:induction false} DecodedAsPackedExactly(steps: seq<Step>, k: nat)
    requires Legal(Start(), steps) && k < |Run(Start(), steps).client.populated|
    ensures var d := Run(Start(), steps).client.populated[k];
      d.signals == d.packed <==> d.asked == d.packed
  {
    RunConsistent(Start(), steps);
  }

  // ----- runs in which no reference is refused

  /** Whether a step keeps the assumption that reference commands succeed. */
  predicate KeepsReferences(sys: System, step: Step)
    requires Enabled(sys, step)
  {
    step.Serve? && sys.client.outbox[0].command.ReferenceItems? ==> step.answer.Some?
  }

  /** No reference command of the run is refused. */
  ghost predicate ReferencesSucceed(sys: System, steps: seq<Step>)
    requires Legal(sys, steps)
    decreases |steps|
  {
    steps == [] || (KeepsReferences(sys, steps[0]) && ReferencesSucceed(Next(sys, steps[0]), steps[1..]))
  }

  ghost predicate DecodedAsPacked(s: Client) {
    forall k :: 0 <= k < |s.populated| ==> s.populated[k].signals == s.populated[k].packed
  }

  predicate UpToDate(message: Message) {
    message.Reply? && message.response.Samples? ==> message.response.packed == message.response.asked
  }

  /** The server refers to what it was last asked to, and has done so in all it has sent. */
  ghost predicate Agreed(sys: System) {
    && sys.reference == sys.asked
    && (forall k :: 0 <= k < |sys.toClient| ==> UpToDate(sys.toClient[k]))
    && (forall k :: 0 <= k < |sys.client.populated| ==> sys.client.populated[k].packed == sys.client.populated[k].asked)
  }

  lemma {:induction false} StepAgreed(sys: System, step: Step)
    requires Agreed(sys) && Enabled(sys, step) && KeepsReferences(sys, step)
    ensures Agreed(Next(sys, step))
  {
    match step
    case Do(call) => CallKeepsPopulated(sys.client, call);
    case Deliver => assert UpToDate(sys.toClient[0]);
    case _ =>
  }

  lemma {:induction false} RunAgreed(sys: System, steps: seq<Step>)
    requires Agreed(sys) && Legal(sys, steps) && ReferencesSucceed(sys, steps)
    ensures Agreed(Run(sys, steps))
    decreases |steps|
  {
    if steps != [] {
      StepAgreed(sys, steps[0]);
      RunAgreed(Next(sys, steps[0]), steps[1..]);
    }
  }

  /** If references succeed, every interval response is decoded with the very list the server packed it by. */
  lemma {:induction false} IntervalsDecodedAsPacked(steps: seq<Step>)
    requires Legal(Start(), steps) && ReferencesSucceed(Start(), steps)
    ensures DecodedAsPacked(Run(Start(), steps).client)
  {
    RunConsistent(Start(), steps);
    RunAgreed(Start(), steps);
  }

  // ----- a tick is a row of deliveries

  function Deliveries(n: nat): seq<Step> {
    seq(n, _ => Deliver)
  }

  lemma {:induction false} ReceiveAllCons(s: Client, message: Message, rest: seq<Message>)
    ensures ReceiveAll(s, [message] + rest) == ReceiveAll(Receive(s, message), rest)
    decreases |rest|
  {
    var all := [message] + rest;
    if rest == [] {
      assert all[..0] == [];
    } else {
      ReceiveAllCons(s, message, rest[..|rest| - 1]);
      assert all[..|all| - 1] == [message] + rest[..|rest| - 1];
    }
  }

  /** Working off the first `n` messages in one tick is a run of `n` deliveries. */
  lemma {:induction false} TickIsDeliveries(sys: System, n: nat)
    requires n <= |sys.toClient|
    ensures Legal(sys, Deliveries(n))
    ensures Run(sys, Deliveries(n)).client == ReceiveAll(sys.client, sys.toClient[..n])
    ensures Run(sys, Deliveries(n)).toClient == sys.toClient[n..]
    decreases n
  {
    if n > 0 {
      var next := Next(sys, Deliver);
      var rest := next.toClient[..n - 1];
      assert next.client == Receive(sys.client, sys.toClient[0]) && next.toClient == sys.toClient[1..];
      hide Next, Receive, ReceiveAll;
      TickIsDeliveries(next, n - 1);
      assert Deliveries(n)[0] == Deliver && Deliveries(n)[1..] == Deliveries(n - 1);
      ReceiveAllCons(sys.client, sys.toClient[0], rest);
      assert sys.toClient[..n] == [sys.toClient[0]] + rest;
      assert next.toClient[n - 1..] == sys.toClient[n..];
    }
  }
}
