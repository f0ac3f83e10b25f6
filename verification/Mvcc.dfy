/**
 * Many clients at work on one namespace of the in-memory backend, step by step: the writer gate, staging one store at
 * a time, publishing, snapshots for readers, and preparation of the namespace by another collection of the same type.
 */
module Mvcc {
  import opened Catalogs
  import opened Transactions
  import opened Memory
  import opened Results

  /** Where a client is inside a record operation. */
  datatype Phase<R> =
    | Idle
    | Waiting(op: Op<R>)                                    // asked for a write transaction
    | Granted(op: Op<R>)                                    // holds the permit, has not copied the stores yet
    | Working(op: Op<R>, base: NamespacedStores, job: Job<R>)
    | Published(op: Op<R>)                                  // committed, still holds the permit

  /** A finished operation and what it returned. */
  datatype Event<R> = Event(client: nat, op: Op<R>, outcome: Result<()>)

  /** An open read handle, with the number of operations finished when it was opened. */
  datatype Reader = Reader(at: nat, stores: NamespacedStores)

  /** A preparation between its two halves: what it read, and the number of operations finished at that time. */
  datatype Preparation = Preparation(at: nat, stores: NamespacedStores)

  datatype State<R> = State(
    published: NamespacedStores,
    open: bool,
    preparing: Option<Preparation>,
    clients: seq<Phase<R>>,
    readers: seq<Reader>,
    history: seq<Event<R>>)

  /** `PrepareRead` and `PrepareWrite` are the halves of preparing again: reading what is published, replacing it. */
  datatype Action<R> =
    | Request(c: nat, op: Op<R>)
    | Acquire(c: nat)
    | Snapshot(c: nat)
    | Work(c: nat)
    | Publish(c: nat)
    | Abandon(c: nat)
    | Release(c: nat)
    | OpenRead
    | PrepareRead
    | PrepareWrite

  predicate HasPermit<R>(p: Phase<R>) {
    p.Granted? || p.Working? || p.Published?
  }

  /** Clients inside `write` hold the lock on the namespace table, which preparation needs for itself. */
  predicate HoldsTable<R>(p: Phase<R>) {
    p.Waiting? || p.Granted?
  }

  predicate Finished<R>(p: Phase<R>) {
    p.Working? && p.job.Done?
  }

  predicate Enabled<R>(cat: Catalog<R>, s: State<R>, a: Action<R>) {
    (a.OpenRead? || a.PrepareRead? || a.PrepareWrite? || a.c < |s.clients|)
    && match a
       case Request(c, op) => s.clients[c].Idle? && s.preparing.None? && OpFits(cat, op)
       case Acquire(c) => s.clients[c].Waiting? && !s.open
       case Snapshot(c) => s.clients[c].Granted?
       case Work(c) => s.clients[c].Working? && !s.clients[c].job.Done? && JobFits(cat, s.clients[c].job)
       case Publish(c) => Finished(s.clients[c]) && s.clients[c].job.commits
       case Abandon(c) => Finished(s.clients[c]) && !s.clients[c].job.commits
       case Release(c) => s.clients[c].Published?
       case OpenRead => s.preparing.None?
       case PrepareRead => s.preparing.None? && forall c | 0 <= c < |s.clients| :: !HoldsTable(s.clients[c])
       case PrepareWrite => s.preparing.Some?
  }

  function Finish<R>(s: State<R>, c: nat): seq<Event<R>>
    requires c < |s.clients| && Finished(s.clients[c])
  {
    s.history + [Event(c, s.clients[c].op, s.clients[c].job.outcome)]
  }

  function Next<R>(cat: Catalog<R>, s: State<R>, a: Action<R>): State<R>
    requires Enabled(cat, s, a)
  {
    match a
    case Request(c, op) => s.(clients := s.clients[c := Waiting(op)])
    case Acquire(c) => s.(clients := s.clients[c := Granted(s.clients[c].op)], open := true)
    case Snapshot(c) => s.(clients := s.clients[c := Working(s.clients[c].op, s.published, Begin(s.published))])
    case Work(c) =>
      var p := s.clients[c];
      s.(clients := s.clients[c := p.(job := JobStep(cat, p.op, p.job))])
    case Publish(c) =>
      s.(published := s.clients[c].job.staged, history := Finish(s, c),
         clients := s.clients[c := Published(s.clients[c].op)])
    case Abandon(c) => s.(history := Finish(s, c), clients := s.clients[c := Idle], open := false)
    case Release(c) => s.(clients := s.clients[c := Idle], open := false)
    case OpenRead => s.(readers := s.readers + [Reader(|s.history|, s.published)])
    case PrepareRead =>
      s.(preparing := Some(Preparation(|s.history|, PreparedStores(s.published, CatalogStores(cat)))))
    case PrepareWrite => s.(published := s.preparing.value.stores, preparing := None)
  }

  function Init<R>(cat: Catalog<R>, clients: nat): State<R> {
    State(PreparedStores(map[], CatalogStores(cat)), false, None, seq(clients, _ => Idle), [], [])
  }

  predicate StepTo<R(==)>(cat: Catalog<R>, s: State<R>, a: Action<R>, t: State<R>) {
    Enabled(cat, s, a) && t == Next(cat, s, a)
  }

  /** A run from the empty collection: each action is enabled where it is taken and leads to the next state. */
  predicate IsRun<R(==)>(cat: Catalog<R>, states: seq<State<R>>, actions: seq<Action<R>>) {
    |states| == |actions| + 1
    && forall i {:trigger actions[i]} | 0 <= i < |actions| :: StepTo(cat, states[i], actions[i], states[i + 1])
  }

  predicate StartsEmpty<R(==)>(cat: Catalog<R>, states: seq<State<R>>) {
    states != [] && states[0] == Init(cat, |states[0].clients|)
  }

  lemma RunLength<R>(cat: Catalog<R>, states: seq<State<R>>, actions: seq<Action<R>>)
    requires IsRun(cat, states, actions)
    ensures |states| == |actions| + 1
  {
  }

  lemma StepOf<R>(cat: Catalog<R>, states: seq<State<R>>, actions: seq<Action<R>>, n: nat)
    requires IsRun(cat, states, actions) && 0 < n < |states|
    ensures |states| == |actions| + 1 && StepTo(cat, states[n - 1], actions[n - 1], states[n])
  {
  }

  // What holds in every run, whatever preparations do.

  /** The gate is set exactly while some client has the permit, and never two clients have it. */
  ghost predicate GateHolds<R>(s: State<R>) {
    && (s.open <==> exists c :: 0 <= c < |s.clients| && HasPermit(s.clients[c]))
    && (forall c, d | 0 <= c < |s.clients| && 0 <= d < |s.clients| ::
          HasPermit(s.clients[c]) && HasPermit(s.clients[d]) ==> c == d)
  }

  lemma GateStep<R>(cat: Catalog<R>, s: State<R>, a: Action<R>)
    requires GateHolds(s) && Enabled(cat, s, a)
    ensures GateHolds(Next(cat, s, a))
    ensures s.history <= Next(cat, s, a).history && s.readers <= Next(cat, s, a).readers
  {
    var t := Next(cat, s, a);
    if !(a.OpenRead? || a.PrepareRead? || a.PrepareWrite?) {
      assert HasPermit(t.clients[a.c]) ==> t.open;
      assert forall d | 0 <= d < |t.clients| && d != a.c :: t.clients[d] == s.clients[d];
      if s.open && t.open {
        var d :| 0 <= d < |s.clients| && HasPermit(s.clients[d]);
        assert HasPermit(t.clients[d]);
      }
    }
  }

  /** In every run the gate works, finished operations stay in the history, and open read handles never change. */
  lemma {:induction false} GateAlwaysHolds<R>(cat: Catalog<R>, states: seq<State<R>>, actions: seq<Action<R>>,
                                              m: nat, n: nat)
    requires IsRun(cat, states, actions) && GateHolds(states[0]) && m <= n < |states|
    ensures GateHolds(states[m]) && GateHolds(states[n])
    ensures states[m].history <= states[n].history && states[m].readers <= states[n].readers
    decreases n
  {
    if n > 0 {
      assert StepTo(cat, states[n - 1], actions[n - 1], states[n]);
      GateAlwaysHolds(cat, states, actions, if m < n then m else n - 1, n - 1);
      GateStep(cat, states[n - 1], actions[n - 1]);
    }
  }

  lemma StoreSetIsPrepared<R>(cat: Catalog<R>, stores: NamespacedStores)
    requires stores.Keys == StoreSet(cat)
    ensures Prepared(cat.indexes, stores) && PreparedStores(stores, CatalogStores(cat)) == stores
  {
    forall i | 0 <= i < |cat.indexes|
      ensures cat.indexes[i].name in stores
    {
      assert cat.indexes[i].name in StoreSet(cat);
    }
    assert MAIN_STORE in StoreSet(cat);
  }

  /** A writer works on what is published. */
  predicate WriterSound<R>(cat: Catalog<R>, published: NamespacedStores, p: Phase<R>) {
    (!p.Idle? ==> OpFits(cat, p.op))
    && (p.Working? ==> p.base == published && JobFits(cat, p.job) && p.job.staged.Keys == StoreSet(cat))
  }

  /** A writer is on its way to the result of its whole operation. */
  ghost predicate WriterOnTrack<R>(cat: Catalog<R>, published: NamespacedStores, p: Phase<R>) {
    p.Working? && JobFits(cat, p.job) && Prepared(cat.indexes, published) ==>
      JobResult(cat, p.op, p.job) == Stage(cat, published, p.op)
  }

  /** While a preparation is between its halves no client is inside `write`, and writers work on what it read. */
  predicate PreparationSound<R>(cat: Catalog<R>, s: State<R>) {
    s.preparing.Some? ==>
      && s.preparing.value.at <= |s.history| && s.preparing.value.stores.Keys == StoreSet(cat)
      && forall c | 0 <= c < |s.clients| ::
           !HoldsTable(s.clients[c]) && (s.clients[c].Working? ==> s.preparing.value.stores == s.published)
  }

  ghost predicate Sound<R>(cat: Catalog<R>, s: State<R>) {
    && GateHolds(s)
    && s.published.Keys == StoreSet(cat)
    && (forall c {:trigger WriterSound(cat, s.published, s.clients[c])} | 0 <= c < |s.clients| ::
          WriterSound(cat, s.published, s.clients[c]))
    && (forall c {:trigger WriterOnTrack(cat, s.published, s.clients[c])} | 0 <= c < |s.clients| ::
          WriterOnTrack(cat, s.published, s.clients[c]))
    && PreparationSound(cat, s)
  }

  lemma InitIsSound<R>(cat: Catalog<R>, clients: nat)
    ensures Sound(cat, Init(cat, clients))
  {
  }

  /** No step lets a writer's base fall behind: nobody else publishes, and a preparation replaces it by itself. */
  lemma WriterStaysSound<R>(cat: Catalog<R>, s: State<R>, a: Action<R>, c: nat)
    requires Sound(cat, s) && Enabled(cat, s, a) && c < |s.clients|
    ensures WriterSound(cat, Next(cat, s, a).published, Next(cat, s, a).clients[c])
  {
    hide JobStep, Prepared, StoreSet;
    assert WriterSound(cat, s.published, s.clients[c]);
    match a
    case Snapshot(_) => StoreSetIsPrepared(cat, s.published);
    case Publish(d) => assert HasPermit(s.clients[d]);
    case _ =>
  }

  lemma WriterStaysOnTrack<R>(cat: Catalog<R>, s: State<R>, a: Action<R>, c: nat)
    requires Sound(cat, s) && Enabled(cat, s, a) && c < |s.clients|
    ensures WriterOnTrack(cat, Next(cat, s, a).published, Next(cat, s, a).clients[c])
  {
    hide Represents, JobStep, JobResult, Prepared, StoreSet;
    assert WriterSound(cat, s.published, s.clients[c]) && WriterOnTrack(cat, s.published, s.clients[c]);
    match a
    case Work(d) =>
      if c == d {
        JobStepKeepsResult(cat, s.clients[c].op, s.clients[c].job);
      }
      StoreSetIsPrepared(cat, s.published);
    case Publish(d) => assert HasPermit(s.clients[d]);
    case _ => StoreSetIsPrepared(cat, s.published);
  }

  lemma PreparationStaysSound<R>(cat: Catalog<R>, s: State<R>, a: Action<R>)
    requires Sound(cat, s) && Enabled(cat, s, a)
    ensures PreparationSound(cat, Next(cat, s, a)) && Next(cat, s, a).published.Keys == StoreSet(cat)
  {
    hide JobStep, Prepared, StoreSet, JobFits;
    StoreSetIsPrepared(cat, s.published);
    match a
    case Publish(d) =>
      assert WriterSound(cat, s.published, s.clients[d]) && HasPermit(s.clients[d]);
    case _ =>
  }

  lemma ClientsStay<R>(cat: Catalog<R>, s: State<R>, a: Action<R>)
    requires Enabled(cat, s, a)
    ensures |Next(cat, s, a).clients| == |s.clients|
  {
  }

  lemma SoundStep<R>(cat: Catalog<R>, s: State<R>, a: Action<R>)
    requires Sound(cat, s) && Enabled(cat, s, a)
    ensures Sound(cat, Next(cat, s, a))
  {
    hide Enabled, WriterSound, WriterOnTrack, PreparationSound, GateHolds, StoreSet;
    GateStep(cat, s, a);
    PreparationStaysSound(cat, s, a);
    ClientsStay(cat, s, a);
    forall c | 0 <= c < |s.clients|
      ensures WriterSound(cat, Next(cat, s, a).published, Next(cat, s, a).clients[c])
      ensures WriterOnTrack(cat, Next(cat, s, a).published, Next(cat, s, a).clients[c])
    {
      WriterStaysSound(cat, s, a, c);
      WriterStaysOnTrack(cat, s, a, c);
    }
  }

  lemma {:induction false} SoundAt<R>(cat: Catalog<R>, states: seq<State<R>>, actions: seq<Action<R>>, n: nat)
    requires IsRun(cat, states, actions) && StartsEmpty(cat, states) && n < |states|
    ensures Sound(cat, states[n])
  {
    if n == 0 {
      InitIsSound(cat, |states[0].clients|);
    } else {
      assert StepTo(cat, states[n - 1], actions[n - 1], states[n]);
      SoundAt(cat, states, actions, n - 1);
      SoundStep(cat, states[n - 1], actions[n - 1]);
    }
  }

  /** In every state of every run a writer's base is what is published, also when preparations interfere. */
  lemma WritersNeverFallBehind<R>(cat: Catalog<R>, states: seq<State<R>>, actions: seq<Action<R>>, n: nat, c: nat)
    requires IsRun(cat, states, actions) && StartsEmpty(cat, states) && n < |states| && c < |states[n].clients|
    requires states[n].clients[c].Working?
    ensures states[n].clients[c].base == states[n].published
  {
    SoundAt(cat, states, actions, n);
    assert WriterSound(cat, states[n].published, states[n].clients[c]);
  }

  /** A client that is inside an operation can go on, or waits for another one that can. */
  ghost predicate CanGoOn<R(!new)>(cat: Catalog<R>, s: State<R>, c: nat) {
    exists a: Action<R> :: (a.Acquire? || a.Snapshot? || a.Work? || a.Publish? || a.Abandon? || a.Release?)
                           && a.c == c && Enabled(cat, s, a)
  }

  lemma PermitHolderGoesOn<R(!new)>(cat: Catalog<R>, s: State<R>, c: nat)
    requires Sound(cat, s) && c < |s.clients| && HasPermit(s.clients[c])
    ensures CanGoOn(cat, s, c)
  {
    assert WriterSound(cat, s.published, s.clients[c]);
    match s.clients[c]
    case Granted(_) => assert Enabled(cat, s, Snapshot(c));
    case Published(_) => assert Enabled(cat, s, Release(c));
    case Working(_, _, job) =>
      var a := if !job.Done? then Work(c) else if job.commits then Publish(c) else Abandon(c);
      assert Enabled(cat, s, a);
  }

  /** No deadlock in any run: while an operation is unfinished, some client inside an operation can go on. */
  lemma NeverStuck<R(!new)>(cat: Catalog<R>, states: seq<State<R>>, actions: seq<Action<R>>, n: nat, c: nat)
    requires IsRun(cat, states, actions) && StartsEmpty(cat, states) && n < |states| && c < |states[n].clients|
    requires !states[n].clients[c].Idle?
    ensures exists d :: 0 <= d < |states[n].clients| && !states[n].clients[d].Idle? && CanGoOn(cat, states[n], d)
  {
    hide CanGoOn, IsRun;
    var s := states[n];
    SoundAt(cat, states, actions, n);
    if s.open {
      var d :| 0 <= d < |s.clients| && HasPermit(s.clients[d]);
      PermitHolderGoesOn(cat, s, d);
    } else {
      WaiterGoesOn(cat, s, c);
    }
  }

  lemma WaiterGoesOn<R(!new)>(cat: Catalog<R>, s: State<R>, c: nat)
    requires GateHolds(s) && !s.open && c < |s.clients| && !s.clients[c].Idle?
    ensures CanGoOn(cat, s, c)
  {
    assert Enabled(cat, s, Acquire(c));
  }

  // What the actions of a run do, whatever preparations do.

  /** A finished job is the whole operation on the stores that are published right then. */
  lemma FinishIsAtomic<R>(cat: Catalog<R>, s: State<R>, c: nat)
    requires Sound(cat, s) && c < |s.clients| && Finished(s.clients[c])
    ensures Prepared(cat.indexes, s.published) && s.clients[c].job == Stage(cat, s.published, s.clients[c].op)
  {
    hide GateHolds, StoreSet, PreparationSound, Stage;
    StoreSetIsPrepared(cat, s.published);
    assert WriterSound(cat, s.published, s.clients[c]) && WriterOnTrack(cat, s.published, s.clients[c]);
  }

  /** The operation a client asked for, as long as it is not answered. */
  function InFlight<R>(s: State<R>, c: nat): seq<Op<R>> {
    if c < |s.clients| && (s.clients[c].Waiting? || s.clients[c].Granted? || s.clients[c].Working?)
    then [s.clients[c].op] else []
  }

  /** The operations of a client in a history, in the order in which they finished. */
  function AnsweredOps<R>(h: seq<Event<R>>, c: nat): seq<Op<R>> {
    if |h| == 0 then []
    else AnsweredOps(h[..|h| - 1], c) + if h[|h| - 1].client == c then [h[|h| - 1].op] else []
  }

  function Asked<R>(a: Action<R>, c: nat): seq<Op<R>> {
    if a.Request? && a.c == c then [a.op] else []
  }

  /** The operations a client asked for, in its order. */
  function RequestedOps<R>(actions: seq<Action<R>>, c: nat): seq<Op<R>> {
    if |actions| == 0 then []
    else RequestedOps(actions[..|actions| - 1], c) + Asked(actions[|actions| - 1], c)
  }

  lemma AnsweredStep<R>(cat: Catalog<R>, s: State<R>, a: Action<R>, c: nat)
    requires Enabled(cat, s, a)
    ensures var t := Next(cat, s, a);
            AnsweredOps(t.history, c) + InFlight(t, c) == AnsweredOps(s.history, c) + InFlight(s, c) + Asked(a, c)
  {
    hide JobStep, JobFits, OpFits;
    if a.Publish? || a.Abandon? {
      assert Finish(s, a.c)[..|Finish(s, a.c)| - 1] == s.history;
    }
  }

  /**
   * In every state of every run the history holds, for each client, the operations it requested, in its order and as
   * it requested them, except for the one in flight.
   */
  lemma {:induction false} RequestsAreAnswered<R>(cat: Catalog<R>, states: seq<State<R>>, actions: seq<Action<R>>,
                                                  n: nat, c: nat)
    requires IsRun(cat, states, actions) && StartsEmpty(cat, states) && n < |states|
    ensures AnsweredOps(states[n].history, c) + InFlight(states[n], c) == RequestedOps(actions[..n], c)
  {
    hide IsRun, Enabled, Next, InFlight;
    RunLength(cat, states, actions);
    if n == 0 {
      NothingInFlight(cat, |states[0].clients|, c);
    } else {
      StepOf(cat, states, actions, n);
      RequestsAreAnswered(cat, states, actions, n - 1, c);
      AnsweredStep(cat, states[n - 1], actions[n - 1], c);
      assert actions[..n][..n - 1] == actions[..n - 1];
    }
  }

  lemma NothingInFlight<R>(cat: Catalog<R>, clients: nat, c: nat)
    ensures InFlight(Init(cat, clients), c) == []
  {
  }

  /**
   * Each operation takes effect at once, in every run: where a client publishes or gives up, the history gets one
   * event, for the operation that client requested last, with the outcome of the whole operation on the published
   * stores, and its result replaces them if it commits. No other action adds events, and only preparations replace
   * stores besides.
   */
  lemma OperationsAreAtomic<R>(cat: Catalog<R>, states: seq<State<R>>, actions: seq<Action<R>>, n: nat)
    requires IsRun(cat, states, actions) && StartsEmpty(cat, states) && n < |actions|
    ensures var s, a, t := states[n], actions[n], states[n + 1];
            if a.Publish? || a.Abandon? then
              var ops := RequestedOps(actions[..n], a.c);
              ops != [] && Prepared(cat.indexes, s.published)
              && var op := ops[|ops| - 1];
                 var end := Stage(cat, s.published, op);
                 && t.history == s.history + [Event(a.c, op, end.outcome)]
                 && (a.Publish? <==> end.commits)
                 && t.published == if end.commits then end.staged else s.published
            else
              t.history == s.history && (!a.PrepareWrite? ==> t.published == s.published)
  {
    hide Stage, Sound, IsRun, StartsEmpty, JobStep, JobFits, OpFits;
    RunLength(cat, states, actions);
    StepOf(cat, states, actions, n + 1);
    var s, a := states[n], actions[n];
    if a.Publish? || a.Abandon? {
      SoundAt(cat, states, actions, n);
      FinishIsAtomic(cat, s, a.c);
      RequestsAreAnswered(cat, states, actions, n, a.c);
    }
  }

  /** Opening a read handle adds one handle, on what is published and finished right then; nothing else adds any. */
  lemma HandlesAreFresh<R>(cat: Catalog<R>, states: seq<State<R>>, actions: seq<Action<R>>, n: nat)
    requires IsRun(cat, states, actions) && StartsEmpty(cat, states) && n < |actions|
    ensures states[0].readers == [] && states[0].history == []
    ensures states[n + 1].readers ==
            states[n].readers
            + if actions[n].OpenRead? then [Reader(|states[n].history|, states[n].published)] else []
  {
    hide JobStep, JobFits, OpFits;
    StepOf(cat, states, actions, n + 1);
  }

  predicate Prepares<R>(a: Action<R>) {
    a.PrepareRead? || a.PrepareWrite?
  }

  /** No preparation starts or ends strictly between two moments. */
  predicate NoPreparationBetween<R>(actions: seq<Action<R>>, n: nat, m: nat) {
    m <= |actions| && forall k | n < k < m :: !Prepares(actions[k])
  }

  /** The two halves of one preparation. */
  predicate Halves<R>(actions: seq<Action<R>>, n: nat, m: nat) {
    n < m < |actions| && actions[n].PrepareRead? && actions[m].PrepareWrite? && NoPreparationBetween(actions, n, m)
  }

  lemma PreparingStep<R>(cat: Catalog<R>, s: State<R>, a: Action<R>)
    requires Sound(cat, s) && Enabled(cat, s, a)
    ensures a.PrepareRead? ==> Next(cat, s, a).preparing == Some(Preparation(|s.history|, s.published))
    ensures a.PrepareWrite? ==> Next(cat, s, a).preparing == None
    ensures !Prepares(a) ==> Next(cat, s, a).preparing == s.preparing
  {
    hide JobStep, JobFits, OpFits, GateHolds, WriterSound, WriterOnTrack, PreparationSound, PreparedStores, StoreSet;
    StoreSetIsPrepared(cat, s.published);
  }

  /** What a preparation has read is what was published when it started. */
  lemma {:induction false} PendingSince<R>(cat: Catalog<R>, states: seq<State<R>>, actions: seq<Action<R>>, n: nat,
                                           m: nat)
    requires IsRun(cat, states, actions) && StartsEmpty(cat, states) && n < m < |states|
    requires actions[n].PrepareRead? && NoPreparationBetween(actions, n, m)
    ensures states[m].preparing == Some(Preparation(|states[n].history|, states[n].published))
    decreases m
  {
    hide IsRun, Enabled, Next, Sound, StartsEmpty;
    RunLength(cat, states, actions);
    StepOf(cat, states, actions, m);
    SoundAt(cat, states, actions, m - 1);
    PreparingStep(cat, states[m - 1], actions[m - 1]);
    if n < m - 1 {
      PendingSince(cat, states, actions, n, m - 1);
    }
  }

  /** A pending preparation started at some moment. */
  lemma {:induction false} StartOfPending<R>(cat: Catalog<R>, states: seq<State<R>>, actions: seq<Action<R>>, m: nat)
    returns (n: nat)
    requires IsRun(cat, states, actions) && StartsEmpty(cat, states) && m < |states| && states[m].preparing.Some?
    ensures n < m && actions[n].PrepareRead? && NoPreparationBetween(actions, n, m)
  {
    hide IsRun, Enabled, Next, Sound;
    RunLength(cat, states, actions);
    StepOf(cat, states, actions, m);
    SoundAt(cat, states, actions, m - 1);
    PreparingStep(cat, states[m - 1], actions[m - 1]);
    if actions[m - 1].PrepareRead? {
      n := m - 1;
    } else {
      n := StartOfPending(cat, states, actions, m - 1);
    }
  }

  /** In every run, a preparation puts back what was published when it started, and the history stays as it is. */
  lemma PreparationsPutBack<R>(cat: Catalog<R>, states: seq<State<R>>, actions: seq<Action<R>>, m: nat) returns (n: nat)
    requires IsRun(cat, states, actions) && StartsEmpty(cat, states) && m < |actions| && actions[m].PrepareWrite?
    ensures Halves(actions, n, m)
    ensures states[m + 1].published == states[n].published && states[m + 1].history == states[m].history
  {
    hide StartsEmpty, JobStep, JobFits, OpFits, PreparedStores;
    StepOf(cat, states, actions, m + 1);
    n := StartOfPending(cat, states, actions, m);
    PendingSince(cat, states, actions, n, m);
  }
}
