/** The chatbot's quotas: a fixed window per client, one for everybody, and a bounded client table. */
module ChatbotAdmission {
  import opened Counting
  import opened Wrappers
  import opened SlidingWindows

  /** A client is known by a keyed digest. */
  type Client = nat

  datatype Settings = Settings(clientRequests: nat, globalRequests: nat, windowSeconds: real, maxClients: nat)

  predicate Usable(settings: Settings) {
    settings.clientRequests >= 1 && settings.globalRequests >= 1 && settings.windowSeconds > 0.0
        && settings.maxClients >= 1
  }

  datatype Bucket = Bucket(expiry: real, count: nat)

  datatype State = State(clients: map<Client, Bucket>, globalStarted: real, globalCount: nat)

  /** `Leased` and `NoSlot` both count against the quotas; the other two change no count. */
  datatype Outcome = Leased | NoSlot | RateLimited(retryAfter: int) | TableFull

  predicate IsCounted(outcome: Outcome) {
    outcome.Leased? || outcome.NoSlot?
  }

  function Ceil(x: real): int {
    -((-x).Floor)
  }

  function RetryAfter(wait: real): int {
    if Ceil(wait) > 1 then Ceil(wait) else 1
  }

  /** The buckets that have not expired. */
  function Live(clients: map<Client, Bucket>, now: real): map<Client, Bucket> {
    map id | id in clients && clients[id].expiry > now :: clients[id]
  }

  function Pruned(state: State, now: real): State {
    state.(clients := Live(state.clients, now))
  }

  function Renewed(state: State, settings: Settings, now: real): State {
    if now >= state.globalStarted + settings.windowSeconds then state.(globalStarted := now, globalCount := 0)
    else state
  }

  function BucketOf(state: State, settings: Settings, client: Client, now: real): Bucket {
    if client in state.clients then state.clients[client] else Bucket(now + settings.windowSeconds, 0)
  }

  /** One call of `admit` at `now`; `slotFree` says whether the semaphore yields a slot. */
  function Admitted(state: State, settings: Settings, client: Client, now: real, slotFree: bool): (State, Outcome) {
    var renewed := Renewed(state, settings, now);
    if renewed.globalCount >= settings.globalRequests then
      (renewed, RateLimited(RetryAfter(renewed.globalStarted + settings.windowSeconds - now)))
    else
      var pruned := Pruned(renewed, now);
      var bucket := BucketOf(pruned, settings, client, now);
      if bucket.count >= settings.clientRequests then (pruned, RateLimited(RetryAfter(bucket.expiry - now)))
      else if client !in pruned.clients && |pruned.clients| >= settings.maxClients then (pruned, TableFull)
      else
        (pruned.(clients := pruned.clients[client := Bucket(bucket.expiry, bucket.count + 1)],
                 globalCount := pruned.globalCount + 1),
         if slotFree then Leased else NoSlot)
  }

  class ChatbotRuntime {
    const settings: Settings
    var clients: map<Client, Bucket>
    var globalStarted: real
    var globalCount: nat

    constructor (settings: Settings, now: real)
      ensures this.settings == settings && Current() == State(map[], now, 0)
    {
      this.settings := settings;
      clients, globalStarted, globalCount := map[], now, 0;
    }

    function Current(): State
      reads this
    {
      State(clients, globalStarted, globalCount)
    }

    method Admit(client: Client, now: real, slotFree: bool) returns (outcome: Outcome)
      modifies this
      ensures (Current(), outcome) == Admitted(old(Current()), settings, client, now, slotFree)
    {
      var window := settings.windowSeconds;
      if now >= globalStarted + window {
        globalStarted, globalCount := now, 0;
      }
      if globalCount >= settings.globalRequests {
        return RateLimited(RetryAfter(globalStarted + window - now));
      }
      clients := map id | id in clients && clients[id].expiry > now :: clients[id];
      var bucket := if client in clients then clients[client] else Bucket(now + window, 0);
      if bucket.count >= settings.clientRequests {
        return RateLimited(RetryAfter(bucket.expiry - now));
      }
      if client !in clients && |clients| >= settings.maxClients {
        return TableFull;
      }
      clients := clients[client := Bucket(bucket.expiry, bucket.count + 1)];
      globalCount := globalCount + 1;
      return if slotFree then Leased else NoSlot;
    }
  }

  // ---------------------------------------------------------------- runs

  datatype Request = Request(client: Client, now: real, slotFree: bool)

  /** A counted request, with the client's window and the global one it was counted in. */
  datatype Entry = Entry(client: Client, time: real, clientStart: real, globalStart: real)

  datatype Run = Run(state: State, log: seq<Entry>, now: real)

  function Started(now: real): Run {
    Run(State(map[], now, 0), [], now)
  }

  function Next(run: Run, settings: Settings, r: Request): Run {
    var (state, outcome) := Admitted(run.state, settings, r.client, r.now, r.slotFree);
    var log := if IsCounted(outcome) && r.client in state.clients then
        run.log + [Entry(r.client, r.now, state.clients[r.client].expiry - settings.windowSeconds, state.globalStarted)]
      else run.log;
    Run(state, log, r.now)
  }

  function After(settings: Settings, start: real, requests: seq<Request>): Run {
    if requests == [] then Started(start)
    else Next(After(settings, start, requests[..|requests| - 1]), settings, requests[|requests| - 1])
  }

  predicate InOrder(start: real, requests: seq<Request>) {
    && (forall r | r in requests :: start <= r.now)
    && forall i, j | 0 <= i < j < |requests| :: requests[i].now <= requests[j].now
  }

  function GlobalStamps(log: seq<Entry>): seq<Stamp> {
    if log == [] then []
    else GlobalStamps(log[..|log| - 1]) + [Stamp(log[|log| - 1].time, log[|log| - 1].globalStart)]
  }

  function ClientStamps(log: seq<Entry>, client: Client): seq<Stamp> {
    if log == [] then []
    else
      var last := log[|log| - 1];
      ClientStamps(log[..|log| - 1], client)
      + if last.client == client then [Stamp(last.time, last.clientStart)] else []
  }

  function ClientWindow(state: State, settings: Settings, client: Client): Option<Window> {
    if client in state.clients then
      Some(Window(state.clients[client].expiry - settings.windowSeconds, state.clients[client].count))
    else None
  }

  ghost predicate GlobalKept(run: Run, settings: Settings) {
    Kept(GlobalStamps(run.log), Some(Window(run.state.globalStarted, run.state.globalCount)), run.now,
         settings.windowSeconds, settings.globalRequests)
  }

  ghost predicate ClientKept(run: Run, settings: Settings, client: Client) {
    Kept(ClientStamps(run.log, client), ClientWindow(run.state, settings, client), run.now,
         settings.windowSeconds, settings.clientRequests)
  }

  ghost predicate Invariant(run: Run, settings: Settings) {
    && GlobalKept(run, settings)
    && (forall client :: ClientKept(run, settings, client))
    && |run.state.clients| <= settings.maxClients
  }

  // ---------------------------------------------------------------- one request

  lemma StampsOfOneMore(log: seq<Entry>, entry: Entry, client: Client)
    ensures GlobalStamps(log + [entry]) == GlobalStamps(log) + [Stamp(entry.time, entry.globalStart)]
    ensures ClientStamps(log + [entry], client) ==
            ClientStamps(log, client) + if entry.client == client then [Stamp(entry.time, entry.clientStart)] else []
  {
    assert (log + [entry])[..|log|] == log;
  }

  /** A live bucket is neither dropped nor reset: it keeps its expiry and only counts this request. */
  lemma LiveBucketsStay(state: State, settings: Settings, client: Client, now: real, slotFree: bool, other: Client)
    requires other in state.clients && state.clients[other].expiry > now
    ensures var (next, outcome) := Admitted(state, settings, client, now, slotFree);
            && other in next.clients
            && next.clients[other].expiry == state.clients[other].expiry
            && next.clients[other].count ==
               state.clients[other].count + if IsCounted(outcome) && other == client then 1 else 0
  {
  }

  /** What one call does to the global window. */
  lemma GlobalWindowAfter(state: State, settings: Settings, r: Request)
    ensures var (next, outcome) := Admitted(state, settings, r.client, r.now, r.slotFree);
            var renewed := Renewed(state, settings, r.now);
            && next.globalStarted == renewed.globalStarted
            && (IsCounted(outcome) ==> renewed.globalCount < settings.globalRequests && r.client in next.clients)
            && next.globalCount == renewed.globalCount + if IsCounted(outcome) then 1 else 0
  {
  }

  lemma GlobalWindowIsFound(run: Run, settings: Settings, now: real)
    requires Usable(settings) && GlobalKept(run, settings) && run.now <= now
    ensures var renewed := Renewed(run.state, settings, now);
            && now < renewed.globalStarted + settings.windowSeconds
            && Kept(GlobalStamps(run.log), Some(Window(renewed.globalStarted, renewed.globalCount)), now,
                    settings.windowSeconds, settings.globalRequests)
  {
    var (length, limit) := (settings.windowSeconds, settings.globalRequests);
    var stamps, window := GlobalStamps(run.log), Window(run.state.globalStarted, run.state.globalCount);
    KeptLater(stamps, Some(window), run.now, now, length, limit);
    if now >= run.state.globalStarted + length {
      KeptWhenClosed(stamps, Some(window), now, length, limit);
      KeptWhenOpened(stamps, now, length, limit);
    }
  }

  lemma GlobalStaysKept(run: Run, settings: Settings, r: Request)
    requires Usable(settings) && GlobalKept(run, settings) && run.now <= r.now
    ensures GlobalKept(Next(run, settings, r), settings)
  {
    GlobalWindowIsFound(run, settings, r.now);
    GlobalWindowAfter(run.state, settings, r);
    LogAfter(run, settings, r, r.client);
    var renewed := Renewed(run.state, settings, r.now);
    if IsCounted(Admitted(run.state, settings, r.client, r.now, r.slotFree).1) {
      KeptWhenCounted(GlobalStamps(run.log), Window(renewed.globalStarted, renewed.globalCount), r.now,
                      settings.windowSeconds, settings.globalRequests);
    }
  }

  /** The client's window as `admit` finds it: closed if it has expired, and opened for a new client. */
  lemma WindowIsFound(run: Run, settings: Settings, client: Client, now: real)
    requires Usable(settings) && ClientKept(run, settings, client) && run.now <= now
    ensures Kept(ClientStamps(run.log, client), ClientWindow(run.state, settings, client), now,
                 settings.windowSeconds, settings.clientRequests)
    ensures Kept(ClientStamps(run.log, client), ClientWindow(Pruned(run.state, now), settings, client), now,
                 settings.windowSeconds, settings.clientRequests)
    ensures var bucket := BucketOf(Pruned(run.state, now), settings, client, now);
            && bucket.expiry > now
            && Kept(ClientStamps(run.log, client), Some(Window(bucket.expiry - settings.windowSeconds, bucket.count)),
                    now, settings.windowSeconds, settings.clientRequests)
  {
    var (length, limit) := (settings.windowSeconds, settings.clientRequests);
    var stamps, window := ClientStamps(run.log, client), ClientWindow(run.state, settings, client);
    KeptLater(stamps, window, run.now, now, length, limit);
    if client !in Live(run.state.clients, now) {
      KeptWhenClosed(stamps, window, now, length, limit);
      KeptWhenOpened(stamps, now, length, limit);
    }
  }

  /** What one call does to the window of one client. */
  lemma WindowAfter(state: State, settings: Settings, r: Request, client: Client)
    ensures var (next, outcome) := Admitted(state, settings, r.client, r.now, r.slotFree);
            IsCounted(outcome) ==> r.client in next.clients
    ensures var (next, outcome) := Admitted(state, settings, r.client, r.now, r.slotFree);
            var bucket := BucketOf(Pruned(state, r.now), settings, client, r.now);
            if IsCounted(outcome) && r.client == client then
              && bucket.count < settings.clientRequests
              && client in next.clients && next.clients[client] == Bucket(bucket.expiry, bucket.count + 1)
            else
              || ClientWindow(next, settings, client) == ClientWindow(state, settings, client)
              || ClientWindow(next, settings, client) == ClientWindow(Pruned(state, r.now), settings, client)
  {
  }

  lemma LogAfter(run: Run, settings: Settings, r: Request, client: Client)
    ensures var (state, outcome) := Admitted(run.state, settings, r.client, r.now, r.slotFree);
            var log := Next(run, settings, r).log;
            if IsCounted(outcome) && r.client in state.clients then
              && GlobalStamps(log) == GlobalStamps(run.log) + [Stamp(r.now, state.globalStarted)]
              && ClientStamps(log, client) ==
                 if r.client != client then ClientStamps(run.log, client)
                 else
                   ClientStamps(run.log, client)
                   + [Stamp(r.now, state.clients[client].expiry - settings.windowSeconds)]
            else log == run.log
  {
    var (state, outcome) := Admitted(run.state, settings, r.client, r.now, r.slotFree);
    if IsCounted(outcome) && r.client in state.clients {
      var entry := Entry(r.client, r.now, state.clients[r.client].expiry - settings.windowSeconds, state.globalStarted);
      StampsOfOneMore(run.log, entry, client);
      assert ClientStamps(run.log, client) + [] == ClientStamps(run.log, client);
    }
  }

  ghost predicate Counts(run: Run, settings: Settings, r: Request, client: Client) {
    r.client == client && IsCounted(Admitted(run.state, settings, r.client, r.now, r.slotFree).1)
  }

  /** The client's window as `admit` counts in it. */
  function FoundWindow(run: Run, settings: Settings, client: Client, now: real): Window {
    var bucket := BucketOf(Pruned(run.state, now), settings, client, now);
    Window(bucket.expiry - settings.windowSeconds, bucket.count)
  }

  lemma CountedOnce(run: Run, settings: Settings, r: Request, client: Client)
    requires Counts(run, settings, r, client)
    ensures var (next, found) := (Next(run, settings, r), FoundWindow(run, settings, client, r.now));
            && found.count < settings.clientRequests
            && ClientStamps(next.log, client) == ClientStamps(run.log, client) + [Stamp(r.now, found.start)]
            && ClientWindow(next.state, settings, client) == Some(Window(found.start, found.count + 1))
  {
    WindowAfter(run.state, settings, r, client);
    LogAfter(run, settings, r, client);
  }

  lemma CountedClientStaysKept(run: Run, settings: Settings, r: Request, client: Client)
    requires Usable(settings) && ClientKept(run, settings, client) && run.now <= r.now
             && Counts(run, settings, r, client)
    ensures ClientKept(Next(run, settings, r), settings, client)
  {
    var found := FoundWindow(run, settings, client, r.now);
    WindowIsFound(run, settings, client, r.now);
    CountedOnce(run, settings, r, client);
    KeptWhenCounted(ClientStamps(run.log, client), found, r.now, settings.windowSeconds, settings.clientRequests);
  }

  lemma OtherClientStaysKept(run: Run, settings: Settings, r: Request, client: Client)
    requires Usable(settings) && ClientKept(run, settings, client) && run.now <= r.now
             && !Counts(run, settings, r, client)
    ensures ClientKept(Next(run, settings, r), settings, client)
  {
    WindowIsFound(run, settings, client, r.now);
    WindowAfter(run.state, settings, r, client);
    LogAfter(run, settings, r, client);
  }

  lemma TableStaysSmall(state: State, settings: Settings, client: Client, now: real, slotFree: bool)
    requires |state.clients| <= settings.maxClients
    ensures |Admitted(state, settings, client, now, slotFree).0.clients| <= settings.maxClients
  {
    LiveIsNoLarger(state.clients, now);
    var pruned := Pruned(state, now);
    var bucket := BucketOf(pruned, settings, client, now);
    SizeOfUpdate(pruned.clients, client, Bucket(bucket.expiry, bucket.count + 1));
  }

  lemma SizeOfUpdate(clients: map<Client, Bucket>, client: Client, bucket: Bucket)
    ensures |clients[client := bucket]| == |clients| + if client in clients then 0 else 1
  {
    assert clients[client := bucket].Keys == clients.Keys + {client};
  }

  lemma LiveIsNoLarger(clients: map<Client, Bucket>, now: real)
    ensures |Live(clients, now)| <= |clients|
  {
    var kept := Live(clients, now).Keys;
    assert kept <= clients.Keys;
    assert clients.Keys == kept + (clients.Keys - kept);
  }

  lemma StepKeepsInvariant(run: Run, settings: Settings, r: Request)
    requires Usable(settings) && Invariant(run, settings) && run.now <= r.now
    ensures Invariant(Next(run, settings, r), settings)
  {
    GlobalStaysKept(run, settings, r);
    forall client ensures ClientKept(Next(run, settings, r), settings, client) {
      if Counts(run, settings, r, client) { CountedClientStaysKept(run, settings, r, client); }
      else { OtherClientStaysKept(run, settings, r, client); }
    }
    TableStaysSmall(run.state, settings, r.client, r.now, r.slotFree);
  }

  // ---------------------------------------------------------------- whole runs

  lemma {:induction false} RunKeepsInvariant(settings: Settings, start: real, requests: seq<Request>)
    requires Usable(settings) && InOrder(start, requests)
    ensures Invariant(After(settings, start, requests), settings)
    ensures After(settings, start, requests).now == if requests == [] then start else requests[|requests| - 1].now
  {
    if requests == [] {
      InvariantAtStart(settings, start);
    } else {
      RunKeepsInvariant(settings, start, requests[..|requests| - 1]);
      StepKeepsInvariant(After(settings, start, requests[..|requests| - 1]), settings, requests[|requests| - 1]);
    }
  }

  lemma InvariantAtStart(settings: Settings, start: real)
    requires Usable(settings)
    ensures Invariant(Started(start), settings)
  {
  }

  /** A window that `now` lies in and whose quota the log has used up, with the wait that ends it. */
  ghost predicate FullWindow(stamps: seq<Stamp>, settings: Settings, limit: nat, now: real, retryAfter: int) {
    exists start :: start <= now < start + settings.windowSeconds && CountAt(stamps, start) == limit &&
                    retryAfter == RetryAfter(start + settings.windowSeconds - now)
  }

  /** Nobody is refused without a reason: there is a full window of everybody or of the client, and the
      wait announced is the one to its end; or the table is full of live clients and this is not one. */
  lemma RefusalsAreJustified(run: Run, settings: Settings, r: Request)
    requires Usable(settings) && Invariant(run, settings) && run.now <= r.now
    ensures match Admitted(run.state, settings, r.client, r.now, r.slotFree).1
            case RateLimited(retryAfter) =>
              || FullWindow(GlobalStamps(run.log), settings, settings.globalRequests, r.now, retryAfter)
              || FullWindow(ClientStamps(run.log, r.client), settings, settings.clientRequests, r.now, retryAfter)
            case TableFull =>
              r.client !in Live(run.state.clients, r.now) && |Live(run.state.clients, r.now)| == settings.maxClients
            case Leased => r.slotFree
            case NoSlot => !r.slotFree
  {
    assert ClientKept(run, settings, r.client);
    GlobalRefusal(run, settings, r);
    ClientRefusal(run, settings, r);
    LiveIsNoLarger(run.state.clients, r.now);
  }

  lemma GlobalRefusal(run: Run, settings: Settings, r: Request)
    requires Usable(settings) && GlobalKept(run, settings) && run.now <= r.now
    ensures var renewed := Renewed(run.state, settings, r.now);
            renewed.globalCount >= settings.globalRequests ==>
              FullWindow(GlobalStamps(run.log), settings, settings.globalRequests, r.now,
                         RetryAfter(renewed.globalStarted + settings.windowSeconds - r.now))
  {
    GlobalWindowIsFound(run, settings, r.now);
    var start := Renewed(run.state, settings, r.now).globalStarted;
    assert CountAt(GlobalStamps(run.log), start) <= settings.globalRequests;
  }

  lemma ClientRefusal(run: Run, settings: Settings, r: Request)
    requires Usable(settings) && ClientKept(run, settings, r.client) && run.now <= r.now
    ensures var bucket := BucketOf(Pruned(run.state, r.now), settings, r.client, r.now);
            bucket.count >= settings.clientRequests ==>
              FullWindow(ClientStamps(run.log, r.client), settings, settings.clientRequests, r.now,
                         RetryAfter(bucket.expiry - r.now))
  {
    WindowIsFound(run, settings, r.client, r.now);
    var bucket := BucketOf(Pruned(run.state, r.now), settings, r.client, r.now);
    var start := bucket.expiry - settings.windowSeconds;
    assert CountAt(ClientStamps(run.log, r.client), start) <= settings.clientRequests;
    assert start + settings.windowSeconds - r.now == bucket.expiry - r.now;
  }

  lemma BoundedNow(run: Run, settings: Settings, from: real, client: Client)
    requires Usable(settings) && Invariant(run, settings)
    ensures CountWithin(ClientStamps(run.log, client), from, from + settings.windowSeconds) <=
            2 * settings.clientRequests
    ensures CountWithin(GlobalStamps(run.log), from, from + settings.windowSeconds) <= 2 * settings.globalRequests
  {
    assert ClientKept(run, settings, client);
    AtMostTwice(ClientStamps(run.log, client), settings.windowSeconds, settings.clientRequests, from);
    AtMostTwice(GlobalStamps(run.log), settings.windowSeconds, settings.globalRequests, from);
  }

  /** For any requests at non-decreasing times, every interval as long as the window holds at most
      twice the client's quota of one client and twice the global quota in all. */
  lemma IntervalsAreBounded(settings: Settings, start: real, requests: seq<Request>, from: real, client: Client)
    requires Usable(settings) && InOrder(start, requests)
    ensures var log := After(settings, start, requests).log;
            && CountWithin(ClientStamps(log, client), from, from + settings.windowSeconds) <=
               2 * settings.clientRequests
            && CountWithin(GlobalStamps(log), from, from + settings.windowSeconds) <= 2 * settings.globalRequests
  {
    RunKeepsInvariant(settings, start, requests);
    BoundedNow(After(settings, start, requests), settings, from, client);
  }

  lemma TableIsBounded(settings: Settings, start: real, requests: seq<Request>)
    requires Usable(settings) && InOrder(start, requests)
    ensures |After(settings, start, requests).state.clients| <= settings.maxClients
  {
    RunKeepsInvariant(settings, start, requests);
  }

  /** With a quota of one, a request is counted in its own window where none is live. */
  lemma FirstIsCounted(settings: Settings, client: Client, now: real, state: State)
    requires Usable(settings) && settings.clientRequests == 1 && settings.globalRequests == 1
    requires Live(state.clients, now) == map[]
    requires now >= state.globalStarted + settings.windowSeconds
             || (state.globalCount == 0 && now == state.globalStarted)
    ensures Admitted(state, settings, client, now, true) ==
            (State(map[client := Bucket(now + settings.windowSeconds, 1)], now, 1), Leased)
  {
    var bucket := Bucket(now + settings.windowSeconds, 1);
    assert Pruned(Renewed(state, settings, now), now).clients == map[];
    assert map[][client := bucket] == map[client := bucket];
  }

  lemma AfterTwo(settings: Settings, first: Request, second: Request)
    ensures After(settings, 0.0, [first, second]) == Next(Next(Started(0.0), settings, first), settings, second)
  {
    assert [first, second][..1] == [first];
    assert [first][..0] == [];
    assert After(settings, 0.0, [first]) == Next(After(settings, 0.0, []), settings, first);
  }

  lemma BothWithin(s: Stamp, t: Stamp, from: real, to: real)
    requires from <= s.time <= to && from <= t.time <= to
    ensures CountWithin([s] + [t], from, to) == 2
  {
    var pick := (u: Stamp) => from <= u.time <= to;
    CountOfOneMore([s], t, pick);
    CountOfOneMore([], s, pick);
    assert [] + [s] == [s];
  }

  /** The bound cannot be lowered: with a quota of one, two requests a window apart are both counted. */
  lemma TwiceIsReached(settings: Settings, client: Client)
    requires Usable(settings) && settings.clientRequests == 1 && settings.globalRequests == 1
    ensures var w := settings.windowSeconds;
            var requests := [Request(client, 0.0, true), Request(client, w, true)];
            var log := After(settings, 0.0, requests).log;
            && InOrder(0.0, requests)
            && CountWithin(ClientStamps(log, client), 0.0, w) == 2
            && CountWithin(GlobalStamps(log), 0.0, w) == 2
  {
    var w := settings.windowSeconds;
    LogOfTwo(settings, client);
    var a, b := Entry(client, 0.0, 0.0, 0.0), Entry(client, w, w, w);
    StampsOfOneMore([], a, client);
    StampsOfOneMore([a], b, client);
    assert [] + [a] == [a] && [a] + [b] == [a, b];
    assert [] + [Stamp(0.0, 0.0)] == [Stamp(0.0, 0.0)];
    assert InOrder(0.0, [Request(client, 0.0, true), Request(client, w, true)]);
    BothWithin(Stamp(0.0, 0.0), Stamp(w, w), 0.0, w);
  }

  lemma LogOfTwo(settings: Settings, client: Client)
    requires Usable(settings) && settings.clientRequests == 1 && settings.globalRequests == 1
    ensures var w := settings.windowSeconds;
            After(settings, 0.0, [Request(client, 0.0, true), Request(client, w, true)]).log ==
            [Entry(client, 0.0, 0.0, 0.0), Entry(client, w, w, w)]
  {
    var w := settings.windowSeconds;
    var first, second := Request(client, 0.0, true), Request(client, w, true);
    AfterTwo(settings, first, second);
    var state := State(map[client := Bucket(w, 1)], 0.0, 1);
    FirstIsCounted(settings, client, 0.0, State(map[], 0.0, 0));
    assert Next(Started(0.0), settings, first) == Run(state, [Entry(client, 0.0, 0.0, 0.0)], 0.0);
    FirstIsCounted(settings, client, w, state);
  }

  /** A refused client is told the least number of whole seconds, but at least one, after which the
      window that refused it is over. */
  lemma RetryAfterIsExact(wait: real, seconds: int)
    requires wait > 0.0
    ensures RetryAfter(wait) <= seconds <==> seconds >= 1 && wait <= seconds as real
  {
  }
}
