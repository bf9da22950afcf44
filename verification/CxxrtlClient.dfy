/** The client side of the CXXRTL protocol: caches, callbacks and what each call and message does to them. */
module CxxrtlClient {
  import opened Options

  type Var = nat
  type Scope = nat
  type Scopes = set<Scope>
  type Items = map<Var, nat>

  // ----- cached data

  /** `prev` is older data that is still worth showing. */
  datatype Cache<+T> = Uncached(prev: Option<T>) | Waiting(prev: Option<T>) | Filled(value: T) {
    function Get(): Option<T> {
      if Filled? then Some(value) else prev
    }

    function Fetched(): Cache<T> {
      if Uncached? then Waiting(prev) else this
    }

    function Invalidated(): Cache<T> {
      Uncached(Get())
    }
  }

  // ----- messages

  datatype StatusKind = Running | Paused | Finished

  datatype Status = Status(kind: StatusKind, latest: nat)

  datatype Command =
    | ListScopes
    | ListItems(scope: Option<Scope>)
    | GetStatus
    | QueryInterval(until: nat)
    | ReferenceItems(items: seq<Var>)
    | RunSimulation(until: nat)
    | PauseSimulation

  /**
   `packed` is the signal list by which the server laid out its samples, `asked` the list it was last
   asked to refer to, whether it accepted or not; the client sees neither.
   */
  datatype Response =
    | ScopeList(scopes: Scopes)
    | ItemList(items: Items)
    | StatusIs(status: Status)
    | Samples(packed: seq<Var>, asked: seq<Var>, rows: seq<seq<nat>>)
    | Referenced
    | Started
    | PausedAt(time: nat)

  /** Requests are numbered for the sake of the statements; the program sends no numbers. */
  datatype Request = Request(serial: nat, command: Command)

  datatype Message =
    | Greeting
    | Unreadable
    | Reply(serial: nat, response: Response)
    | Failure(serial: nat)
    | SimulationPaused(time: nat)
    | SimulationFinished(time: nat)

  /** Messages that end a request. */
  predicate IsAnswer(message: Message) { message.Reply? || message.Failure? }

  /** The closures of the program, with what each has captured. */
  datatype Callback =
    | OnScopes
    | OnAllItems
    | OnModuleItems(scope: Scope)
    | OnStatus
    | OnInterval(until: nat, signals: seq<Var>, info: Items)
    | OnReferenced
    | OnStarted
    | OnPaused

  datatype Pending = Pending(serial: nat, callback: Callback)

  /** The command a callback is pushed with. */
  predicate Fits(callback: Callback, command: Command) {
    match callback
    case OnScopes => command.ListScopes?
    case OnAllItems => command == ListItems(None)
    case OnModuleItems(scope) => command == ListItems(Some(scope))
    case OnStatus => command.GetStatus?
    case OnInterval(until, _, _) => command == QueryInterval(until)
    case OnReferenced => command.ReferenceItems?
    case OnStarted => command.RunSimulation?
    case OnPaused => command.PauseSimulation?
  }

  /** The kind of response it can handle. */
  predicate FitsResponse(callback: Callback, response: Response) {
    match callback
    case OnScopes => response.ScopeList?
    case OnAllItems => response.ItemList?
    case OnModuleItems(_) => response.ItemList?
    case OnStatus => response.StatusIs?
    case OnInterval(_, _, _) => response.Samples?
    case OnReferenced => response.Referenced?
    case OnStarted => response.Started?
    case OnPaused => response.PausedAt?
  }

  /** One call of `populate`: the samples of a response and the signal list they are decoded with. */
  datatype Decoding = Decoding(signals: seq<Var>, info: Items, packed: seq<Var>, asked: seq<Var>, rows: seq<seq<nat>>)

  datatype Client = Client(
    scopes: Cache<Scopes>,
    moduleItems: map<Scope, Cache<Items>>,
    allItems: Cache<Items>,
    queryResult: Cache<nat>,
    populated: seq<Decoding>,
    loaded: seq<Var>,
    index: map<Var, nat>,
    status: Cache<Status>,
    queue: seq<Pending>,
    outbox: seq<Request>,
    serial: nat)

  function Fresh(): Client {
    Client(Uncached(None), map[], Uncached(None), Uncached(None), [], [], map[], Uncached(None), [], [], 0)
  }

  // ----- calls

  function RunCommand(s: Client, command: Command, callback: Callback): Client {
    s.(queue := s.queue + [Pending(s.serial, callback)],
       outbox := s.outbox + [Request(s.serial, command)],
       serial := s.serial + 1)
  }

  function GetScopes(s: Client): Client {
    if s.scopes.Uncached? then RunCommand(s.(scopes := s.scopes.Fetched()), ListScopes, OnScopes) else s
  }

  function FetchAllItems(s: Client): Client {
    if s.allItems.Uncached? then RunCommand(s.(allItems := s.allItems.Fetched()), ListItems(None), OnAllItems) else s
  }

  function ModuleCache(s: Client, scope: Scope): Cache<Items> {
    if scope in s.moduleItems then s.moduleItems[scope] else Uncached(None)
  }

  function FetchItemsInModule(s: Client, scope: Scope): Client {
    var cache := ModuleCache(s, scope);
    var t := s.(moduleItems := s.moduleItems[scope := cache.Fetched()]);
    if cache.Uncached? then RunCommand(t, ListItems(Some(scope)), OnModuleItems(scope)) else t
  }

  function GetStatusOf(s: Client): Client {
    if s.status.Uncached? then RunCommand(s.(status := s.status.Fetched()), GetStatus, OnStatus) else s
  }

  /** The samples up to a time, to be decoded with the signals loaded now. */
  function FetchInterval(s: Client, until: nat, info: Items): Client {
    if s.queryResult.Uncached? then
      RunCommand(s.(queryResult := s.queryResult.Fetched()), QueryInterval(until), OnInterval(until, s.loaded, info))
    else s
  }

  /** A query needs a status and the items first; without them it only asks for those. */
  function QueryVariable(s: Client): Client {
    var s1 := GetStatusOf(s);
    if s1.status.Get().None? then s1
    else
      var s2 := FetchAllItems(s1);
      if s2.allItems.Get().None? then s2
      else FetchInterval(s2, s1.status.Get().value.latest, s2.allItems.Get().value)
  }

  function Loaded(s: Client, vars: seq<Var>): Client {
    if vars == [] then s
    else
      var t := Loaded(s, vars[..|vars| - 1]);
      var v := vars[|vars| - 1];
      if v in t.index then t else t.(index := t.index[v := |t.loaded|], loaded := t.loaded + [v])
  }

  function LoadVariables(s: Client, vars: seq<Var>): Client {
    var t := Loaded(s, vars);
    RunCommand(t, ReferenceItems(t.loaded), OnReferenced)
  }

  const STRETCH: nat := 100_000_000

  function Unpause(s: Client): Client {
    var t := GetStatusOf(s);
    var until := if t.status.Get().None? then STRETCH else t.status.Get().value.latest + STRETCH;
    RunCommand(t, RunSimulation(until), OnStarted)
  }

  function Pause(s: Client): Client {
    RunCommand(s, PauseSimulation, OnPaused)
  }

  // ----- messages

  function StatusUpdate(s: Client, status: Status): Client {
    s.(status := Filled(status), queryResult := s.queryResult.Invalidated())
  }

  /** What a callback does with a response; one of the wrong kind is reported and dropped. */
  function Handle(s: Client, callback: Callback, response: Response): Client {
    match callback
    case OnScopes =>
      if response.ScopeList? then s.(scopes := Filled(response.scopes)) else s
    case OnAllItems =>
      if response.ItemList? then s.(allItems := Filled(response.items)) else s
    case OnModuleItems(scope) =>
      if response.ItemList? then s.(moduleItems := s.moduleItems[scope := Filled(response.items)]) else s
    case OnStatus =>
      if response.StatusIs? then StatusUpdate(s, response.status) else s
    case OnInterval(until, signals, info) =>
      if response.Samples? then
        s.(queryResult := Filled(until),
           populated := s.populated + [Decoding(signals, info, response.packed, response.asked, response.rows)])
      else s
    case OnReferenced => s.(queryResult := s.queryResult.Invalidated())
    case OnStarted => s.(status := Filled(Status(Running, 0)))
    case OnPaused =>
      if response.PausedAt? then StatusUpdate(s, Status(Paused, response.time)) else s
  }

  function Receive(s: Client, message: Message): Client {
    match message
    case Greeting => s
    case Unreadable => s
    case Reply(_, response) =>
      if s.queue == [] then s else Handle(s.(queue := s.queue[1..]), s.queue[0].callback, response)
    case Failure(_) =>
      if s.queue == [] then s else s.(queue := s.queue[1..])
    case SimulationPaused(time) => StatusUpdate(s, Status(Paused, time))
    case SimulationFinished(time) => StatusUpdate(s, Status(Finished, time))
  }

  function ReceiveAll(s: Client, messages: seq<Message>): Client {
    if messages == [] then s
    else Receive(ReceiveAll(s, messages[..|messages| - 1]), messages[|messages| - 1])
  }

  // ----- the list of loaded signals

  /** Each loaded signal is listed once, at the place its index says. */
  ghost predicate Indexed(s: Client) {
    && (forall v :: v in s.index ==> s.index[v] < |s.loaded| && s.loaded[s.index[v]] == v)
    && (forall k :: 0 <= k < |s.loaded| ==> s.loaded[k] in s.index && s.index[s.loaded[k]] == k)
  }

  /** Loading adds exactly the new signals, once each, and never reorders the old ones. */
  lemma {:induction false} LoadingAppends(s: Client, vars: seq<Var>)
    requires Indexed(s)
    ensures var t := Loaded(s, vars);
      && Indexed(t)
      && |s.loaded| <= |t.loaded| && t.loaded[..|s.loaded|] == s.loaded
      && (forall v :: v in t.loaded <==> v in s.loaded || v in vars)
      && t == s.(loaded := t.loaded, index := t.index)
    decreases |vars|
  {
    if vars != [] {
      var front, v := vars[..|vars| - 1], vars[|vars| - 1];
      LoadingAppends(s, front);
      assert vars == front + [v];
      var t := Loaded(s, front);
      assert v in t.index <==> v in t.loaded;
    }
  }

  lemma {:induction false} LoadedKeeps(s: Client, vars: seq<Var>)
    ensures Loaded(s, vars) == s.(loaded := Loaded(s, vars).loaded, index := Loaded(s, vars).index)
    decreases |vars|
  {
    if vars != [] { LoadedKeeps(s, vars[..|vars| - 1]); }
  }

  lemma {:induction false} ReceiveKeepsRest(s: Client, message: Message)
    ensures Receive(s, message).outbox == s.outbox && Receive(s, message).loaded == s.loaded
    ensures Receive(s, message).queue == if IsAnswer(message) && s.queue != [] then s.queue[1..] else s.queue
  {
  }
}
