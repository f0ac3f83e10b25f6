/** When runs of many clients agree with a sequential run on a plain map, and what read handles see then. */
module Serializability {
  import Keys
  import Stores
  import opened Scans
  import opened Catalogs
  import opened Transactions
  import opened Queries
  import opened Memory
  import opened Results
  import opened Mvcc

  /** The collection after a history of operations, run one after the other on a plain map. */
  ghost function Replay<R>(cat: Catalog<R>, h: seq<Event<R>>): Contents<R> {
    if h == [] then map[] else Apply(cat, Replay(cat, h[..|h| - 1]), h[|h| - 1].op)
  }

  /** Every operation returned what it returns at its place in the sequential run. */
  ghost predicate Sequential<R>(cat: Catalog<R>, h: seq<Event<R>>) {
    forall i | 0 <= i < |h| :: h[i].outcome == Outcome(cat, Replay(cat, h[..i]), h[i].op)
  }

  ghost predicate ReaderOnTrack<R>(cat: Catalog<R>, h: seq<Event<R>>, r: Reader) {
    r.at <= |h| && Represents(cat, r.stores, Replay(cat, h[..r.at]))
  }

  /**
   * The operations in the order they finished form a sequential run on a plain map with the very outcomes they
   * returned; what is published stands for the map after that run, and every read handle for the map after a part
   * of it.
   */
  ghost predicate AgreesWithSequentialRun<R>(cat: Catalog<R>, s: State<R>) {
    && Sequential(cat, s.history)
    && Represents(cat, s.published, Replay(cat, s.history))
    && (forall i {:trigger ReaderOnTrack(cat, s.history, s.readers[i])} | 0 <= i < |s.readers| ::
          ReaderOnTrack(cat, s.history, s.readers[i]))
  }

  /** What a preparation read stands for the collection at that time. */
  ghost predicate PreparationOnTrack<R>(cat: Catalog<R>, s: State<R>) {
    s.preparing.Some? && s.preparing.value.at <= |s.history| ==>
      Represents(cat, s.preparing.value.stores, Replay(cat, s.history[..s.preparing.value.at]))
  }

  ghost predicate Serial<R>(cat: Catalog<R>, s: State<R>) {
    && Sound(cat, s)
    && AgreesWithSequentialRun(cat, s)
    && PreparationOnTrack(cat, s)
  }

  lemma InitIsSerial<R>(cat: Catalog<R>, clients: nat)
    ensures Serial(cat, Init(cat, clients))
  {
    InitIsSound(cat, clients);
    PrepareEmpty(cat);
  }

  /** The operations finished since a preparation read changed nothing, so what it writes is still right. */
  ghost predicate Harmless<R>(cat: Catalog<R>, s: State<R>, a: Action<R>) {
    a.PrepareWrite? ==> NothingChangedSince(cat, s)
  }

  ghost predicate NothingChangedSince<R>(cat: Catalog<R>, s: State<R>) {
    s.preparing.Some? && s.preparing.value.at <= |s.history| ==>
      Replay(cat, s.history) == Replay(cat, s.history[..s.preparing.value.at])
  }

  /** What a finished job means: the outcome of its operation on the collection, and the collection after it. */
  lemma FinishedMeans<R(!new)>(cat: Catalog<R>, s: State<R>, c: nat)
    requires Lawful(cat) && Serial(cat, s) && c < |s.clients| && Finished(s.clients[c])
    ensures var m, p := Replay(cat, s.history), s.clients[c];
            && p.job.outcome == Outcome(cat, m, p.op)
            && (p.job.commits ==> p.job.outcome == Ok(()) && Represents(cat, p.job.staged, Apply(cat, m, p.op)))
            && (!p.job.commits ==> Apply(cat, m, p.op) == m)
  {
    hide Lawful, Represents, Outcome, Apply, Prepared, Replay, Sequential, GateHolds, StoreSet;
    var m, p := Replay(cat, s.history), s.clients[c];
    assert WriterSound(cat, s.published, p) && WriterOnTrack(cat, s.published, p);
    StoreSetIsPrepared(cat, s.published);
    StageRefines(cat, s.published, m, p.op);
    if p.job.commits {
      assert p.job.outcome.value == ();
    }
  }

  lemma ReplayFinish<R>(cat: Catalog<R>, s: State<R>, c: nat)
    requires c < |s.clients| && Finished(s.clients[c])
    ensures var h := Finish(s, c);
            Replay(cat, h) == Apply(cat, Replay(cat, s.history), s.clients[c].op)
            && forall i | 0 <= i <= |s.history| :: h[..i] == s.history[..i]
  {
    hide Apply;
    var h := Finish(s, c);
    assert h[..|h| - 1] == s.history;
    forall i | 0 <= i <= |s.history|
      ensures h[..i] == s.history[..i]
    {
    }
  }

  /** Finishing an operation extends the sequential run by exactly that operation and its outcome. */
  lemma FinishIsSequential<R(!new)>(cat: Catalog<R>, s: State<R>, c: nat)
    requires Lawful(cat) && Serial(cat, s) && c < |s.clients| && Finished(s.clients[c])
    ensures var job := s.clients[c].job;
            AgreesWithSequentialRun(cat, s.(published := if job.commits then job.staged else s.published,
                                            history := Finish(s, c)))
  {
    hide Lawful, Represents, Outcome, Apply, Replay, Sound, WriterOnTrack, PreparationOnTrack;
    var h := Finish(s, c);
    FinishedMeans(cat, s, c);
    ReplayFinish(cat, s, c);
    assert h[..|s.history|] == s.history[..|s.history|] == s.history;
    forall i | 0 <= i < |h|
      ensures h[i].outcome == Outcome(cat, Replay(cat, h[..i]), h[i].op)
    {
    }
    forall i | 0 <= i < |s.readers|
      ensures ReaderOnTrack(cat, h, s.readers[i])
    {
      assert ReaderOnTrack(cat, s.history, s.readers[i]);
    }
  }

  /** What a preparation writes stands for the history exactly if the operations since it read changed nothing. */
  lemma PreparationOutcome<R(!new)>(cat: Catalog<R>, s: State<R>)
    requires Lawful(cat) && Serial(cat, s) && s.preparing.Some?
    ensures Represents(cat, s.preparing.value.stores, Replay(cat, s.history)) <==> NothingChangedSince(cat, s)
  {
    hide Lawful, Represents, Replay, GateHolds, StoreSet, AgreesWithSequentialRun;
    var stores, m := s.preparing.value.stores, Replay(cat, s.history[..s.preparing.value.at]);
    if Represents(cat, stores, Replay(cat, s.history)) {
      RepresentsOne(cat, stores, m, Replay(cat, s.history));
    }
  }

  lemma AgreementStep<R(!new)>(cat: Catalog<R>, s: State<R>, a: Action<R>)
    requires Lawful(cat) && Serial(cat, s) && Enabled(cat, s, a) && Harmless(cat, s, a)
    ensures AgreesWithSequentialRun(cat, Next(cat, s, a))
  {
    hide Lawful, Represents, Replay, Sequential, Sound, WriterOnTrack, PreparationOnTrack, JobStep, NothingChangedSince;
    var t := Next(cat, s, a);
    match a
    case Publish(c) => FinishIsSequential(cat, s, c);
    case Abandon(c) => FinishIsSequential(cat, s, c);
    case PrepareWrite => PreparationOutcome(cat, s);
    case OpenRead =>
      assert s.history[..|s.history|] == s.history;
      forall i | 0 <= i < |t.readers|
        ensures ReaderOnTrack(cat, t.history, t.readers[i])
      {
        assert i < |s.readers| ==> ReaderOnTrack(cat, s.history, s.readers[i]);
      }
    case _ =>
  }

  lemma PreparationStaysOnTrack<R(!new)>(cat: Catalog<R>, s: State<R>, a: Action<R>)
    requires Serial(cat, s) && Enabled(cat, s, a)
    ensures PreparationOnTrack(cat, Next(cat, s, a))
  {
    hide Represents, JobStep, Replay, Sequential, GateHolds, StoreSet;
    match a
    case Publish(c) => ReplayFinish(cat, s, c);
    case Abandon(c) => ReplayFinish(cat, s, c);
    case PrepareRead =>
      assert s.history[..|s.history|] == s.history;
      StoreSetIsPrepared(cat, s.published);
    case _ =>
  }

  lemma SerialStep<R(!new)>(cat: Catalog<R>, s: State<R>, a: Action<R>)
    requires Lawful(cat) && Serial(cat, s) && Enabled(cat, s, a) && Harmless(cat, s, a)
    ensures Serial(cat, Next(cat, s, a))
  {
    hide Lawful, Enabled, AgreesWithSequentialRun, PreparationOnTrack, Sound, Harmless;
    SoundStep(cat, s, a);
    AgreementStep(cat, s, a);
    PreparationStaysOnTrack(cat, s, a);
  }

  /** All preparations of a run are harmless up to its `n`-th state. */
  ghost predicate HarmlessUpTo<R>(cat: Catalog<R>, states: seq<State<R>>, actions: seq<Action<R>>, n: nat) {
    n <= |actions| < |states| && forall i | 0 <= i < n :: Harmless(cat, states[i], actions[i])
  }

  lemma {:induction false} SerialAt<R(!new)>(cat: Catalog<R>, states: seq<State<R>>, actions: seq<Action<R>>, n: nat)
    requires Lawful(cat) && IsRun(cat, states, actions) && StartsEmpty(cat, states)
    requires HarmlessUpTo(cat, states, actions, n)
    ensures Serial(cat, states[n])
  {
    hide Lawful, Serial, Harmless;
    if n == 0 {
      InitIsSerial(cat, |states[0].clients|);
    } else {
      assert StepTo(cat, states[n - 1], actions[n - 1], states[n]);
      SerialAt(cat, states, actions, n - 1);
      SerialStep(cat, states[n - 1], actions[n - 1]);
    }
  }

  /** As long as states agree with a sequential run, preparations have been harmless. */
  lemma {:induction false} AgreementIsHarmless<R(!new)>(cat: Catalog<R>, states: seq<State<R>>, actions: seq<Action<R>>,
                                                        n: nat)
    requires Lawful(cat) && IsRun(cat, states, actions) && StartsEmpty(cat, states) && n <= |actions|
    requires forall i | 0 <= i < |states| :: AgreesWithSequentialRun(cat, states[i])
    ensures HarmlessUpTo(cat, states, actions, n)
  {
    hide Lawful, Serial, Harmless, AgreesWithSequentialRun, IsRun, StartsEmpty, Enabled, Next;
    RunLength(cat, states, actions);
    if n > 0 {
      AgreementIsHarmless(cat, states, actions, n - 1);
      SerialAt(cat, states, actions, n - 1);
      StepOf(cat, states, actions, n);
      AgreementStepIsHarmless(cat, states[n - 1], actions[n - 1]);
    }
  }

  lemma AgreementStepIsHarmless<R(!new)>(cat: Catalog<R>, s: State<R>, a: Action<R>)
    requires Lawful(cat) && Serial(cat, s) && Enabled(cat, s, a) && AgreesWithSequentialRun(cat, Next(cat, s, a))
    ensures Harmless(cat, s, a)
  {
    hide Lawful, Serial, NothingChangedSince, Represents, Replay, Sequential, ReaderOnTrack;
    if a.PrepareWrite? {
      PreparationOutcome(cat, s);
    }
  }

  /** Each preparation ends when the collection is what it was when the preparation started. */
  ghost predicate PreparationsHarmless<R>(cat: Catalog<R>, states: seq<State<R>>, actions: seq<Action<R>>) {
    |states| == |actions| + 1
    && forall n: nat, m: nat | Halves(actions, n, m) :: Replay(cat, states[n].history) == Replay(cat, states[m].history)
  }

  lemma HalvesAreUnique<R>(actions: seq<Action<R>>, n: nat, k: nat, m: nat)
    requires Halves(actions, n, m) && Halves(actions, k, m)
    ensures n == k
  {
    assert n < k ==> Prepares(actions[k]);
    assert k < n ==> Prepares(actions[n]);
  }

  /** Whether one preparation is harmless, by what the collection was when it started and when it ends. */
  lemma HarmlessMeans<R>(cat: Catalog<R>, states: seq<State<R>>, actions: seq<Action<R>>, n: nat, m: nat)
    requires IsRun(cat, states, actions) && StartsEmpty(cat, states) && Halves(actions, n, m)
    ensures |states| == |actions| + 1
    ensures Harmless(cat, states[m], actions[m])
       <==> Replay(cat, states[n].history) == Replay(cat, states[m].history)
  {
    hide IsRun, StartsEmpty, Replay;
    RunLength(cat, states, actions);
    PendingSince(cat, states, actions, n, m);
    InitialGate(cat, states);
    GateAlwaysHolds(cat, states, actions, n, m);
    assert states[m].history[..|states[n].history|] == states[n].history;
  }

  lemma InitialGate<R>(cat: Catalog<R>, states: seq<State<R>>)
    requires StartsEmpty(cat, states)
    ensures GateHolds(states[0])
  {
  }

  /** Only the actions that end a preparation matter, and they have started. */
  lemma HarmlessIffAllAre<R>(cat: Catalog<R>, states: seq<State<R>>, actions: seq<Action<R>>)
    requires IsRun(cat, states, actions) && StartsEmpty(cat, states)
    ensures HarmlessUpTo(cat, states, actions, |actions|) <==> PreparationsHarmless(cat, states, actions)
  {
    hide IsRun, StartsEmpty, Replay, NothingChangedSince, NoPreparationBetween;
    RunLength(cat, states, actions);
    forall m | 0 <= m < |actions| && PreparationsHarmless(cat, states, actions)
      ensures Harmless(cat, states[m], actions[m])
    {
      if actions[m].PrepareWrite? {
        var n := PreparationsPutBack(cat, states, actions, m);
        HarmlessMeans(cat, states, actions, n, m);
      }
    }
    forall n: nat, m: nat | Halves(actions, n, m) && HarmlessUpTo(cat, states, actions, |actions|)
      ensures Replay(cat, states[n].history) == Replay(cat, states[m].history)
    {
      HarmlessMeans(cat, states, actions, n, m);
    }
  }

  /**
   * Serializability, exactly: whatever the clients do and however their steps interleave, a run from the empty
   * collection agrees with a sequential run in all its states if and only if each preparation ends when the collection
   * is what it was when the preparation started.
   */
  lemma RunsAreSerializableIffHarmless<R(!new)>(cat: Catalog<R>, states: seq<State<R>>, actions: seq<Action<R>>)
    requires Lawful(cat) && IsRun(cat, states, actions) && StartsEmpty(cat, states)
    ensures (forall n | 0 <= n < |states| :: AgreesWithSequentialRun(cat, states[n]))
       <==> PreparationsHarmless(cat, states, actions)
  {
    hide Lawful, AgreesWithSequentialRun, Harmless, PreparationsHarmless, IsRun, StartsEmpty;
    RunLength(cat, states, actions);
    HarmlessIffAllAre(cat, states, actions);
    if PreparationsHarmless(cat, states, actions) {
      forall n | 0 <= n < |states|
        ensures AgreesWithSequentialRun(cat, states[n])
      {
        SerialAt(cat, states, actions, n);
      }
    }
    if forall n | 0 <= n < |states| :: AgreesWithSequentialRun(cat, states[n]) {
      AgreementIsHarmless(cat, states, actions, |actions|);
    }
  }

  // Disciplines that a caller can check.

  /** No commit is published between the halves of a preparation; failing and unfinished writers do not matter. */
  ghost predicate PublishesOutsidePreparations<R>(actions: seq<Action<R>>) {
    forall n: nat, k: nat, m: nat | Halves(actions, n, m) && n < k < m :: !actions[k].Publish?
  }

  /** Preparations start while the gate is free only. */
  predicate PreparesWithFreeGate<R>(states: seq<State<R>>, actions: seq<Action<R>>) {
    |states| == |actions| + 1 && forall i | 0 <= i < |actions| :: actions[i].PrepareRead? ==> !states[i].open
  }

  /** Without a commit the collection stays what it is. */
  lemma UnchangedStep<R(!new)>(cat: Catalog<R>, s: State<R>, a: Action<R>)
    requires Lawful(cat) && Serial(cat, s) && Enabled(cat, s, a) && !a.Publish?
    ensures Replay(cat, Next(cat, s, a).history) == Replay(cat, s.history)
  {
    hide Lawful, Represents, Outcome, Apply, Replay, JobStep, AgreesWithSequentialRun, WriterOnTrack, GateHolds;
    if a.Abandon? {
      FinishedMeans(cat, s, a.c);
      ReplayFinish(cat, s, a.c);
    }
  }

  lemma {:induction false} UnchangedBetween<R(!new)>(cat: Catalog<R>, states: seq<State<R>>, actions: seq<Action<R>>,
                                                     n: nat, m: nat)
    requires Lawful(cat) && IsRun(cat, states, actions) && StartsEmpty(cat, states) && n <= m
    requires HarmlessUpTo(cat, states, actions, m) && forall k | n <= k < m :: !actions[k].Publish?
    ensures Replay(cat, states[n].history) == Replay(cat, states[m].history)
    decreases m
  {
    hide Lawful, IsRun, StartsEmpty, Serial, Harmless, Enabled, Next, Replay;
    if n < m {
      UnchangedBetween(cat, states, actions, n, m - 1);
      SerialAt(cat, states, actions, m - 1);
      StepOf(cat, states, actions, m);
      UnchangedStep(cat, states[m - 1], actions[m - 1]);
    }
  }

  lemma {:induction false} OutsideIsHarmless<R(!new)>(cat: Catalog<R>, states: seq<State<R>>, actions: seq<Action<R>>,
                                                      m: nat)
    requires Lawful(cat) && IsRun(cat, states, actions) && StartsEmpty(cat, states)
    requires PublishesOutsidePreparations(actions) && m <= |actions|
    ensures HarmlessUpTo(cat, states, actions, m)
  {
    hide Lawful, IsRun, StartsEmpty, Replay, NothingChangedSince;
    RunLength(cat, states, actions);
    if m > 0 {
      OutsideIsHarmless(cat, states, actions, m - 1);
      if actions[m - 1].PrepareWrite? {
        var n := PreparationsPutBack(cat, states, actions, m - 1);
        UnchangedBetween(cat, states, actions, n, m - 1);
        HarmlessMeans(cat, states, actions, n, m - 1);
      }
    }
  }

  /** A run without commits inside preparations is serializable. */
  lemma RunsAreSerializable<R(!new)>(cat: Catalog<R>, states: seq<State<R>>, actions: seq<Action<R>>)
    requires Lawful(cat) && IsRun(cat, states, actions) && StartsEmpty(cat, states)
    requires PublishesOutsidePreparations(actions)
    ensures forall n | 0 <= n < |states| :: AgreesWithSequentialRun(cat, states[n])
  {
    hide Lawful, AgreesWithSequentialRun, PreparationsHarmless, HarmlessUpTo, IsRun, StartsEmpty;
    OutsideIsHarmless(cat, states, actions, |actions|);
    HarmlessIffAllAre(cat, states, actions);
    RunsAreSerializableIffHarmless(cat, states, actions);
  }

  ghost predicate FreeWhilePreparing<R>(s: State<R>) {
    s.preparing.Some? ==> !s.open
  }

  lemma {:induction false} FreeWhilePreparingAt<R>(cat: Catalog<R>, states: seq<State<R>>, actions: seq<Action<R>>,
                                                   n: nat)
    requires IsRun(cat, states, actions) && StartsEmpty(cat, states)
    requires PreparesWithFreeGate(states, actions) && n < |states|
    ensures FreeWhilePreparing(states[n])
  {
    hide JobStep, IsRun, WriterSound, GateHolds, StoreSet, JobFits, OpFits, PreparedStores;
    if n > 0 {
      FreeWhilePreparingAt(cat, states, actions, n - 1);
      SoundAt(cat, states, actions, n - 1);
      StepOf(cat, states, actions, n);
    }
  }

  /** Preparing with a free gate only is a sufficient discipline. */
  lemma FreeGateSuffices<R>(cat: Catalog<R>, states: seq<State<R>>, actions: seq<Action<R>>)
    requires IsRun(cat, states, actions) && StartsEmpty(cat, states) && PreparesWithFreeGate(states, actions)
    ensures PublishesOutsidePreparations(actions)
  {
    hide IsRun, StartsEmpty, PreparesWithFreeGate;
    RunLength(cat, states, actions);
    forall n: nat, k: nat, m: nat | Halves(actions, n, m) && n < k < m
      ensures !actions[k].Publish?
    {
      PendingSince(cat, states, actions, n, k);
      FreeWhilePreparingAt(cat, states, actions, k);
      SoundAt(cat, states, actions, k);
      StepOf(cat, states, actions, k + 1);
      assert actions[k].Publish? ==> HasPermit(states[k].clients[actions[k].c]);
    }
  }

  /** A preparation that reads before a client's commit and writes after it. */
  function Race<R>(c: nat): seq<Action<R>> {
    [PrepareRead, Publish(c), Release(c), PrepareWrite]
  }

  lemma RaceRuns<R>(cat: Catalog<R>, s: State<R>, c: nat) returns (run: seq<State<R>>)
    requires s.preparing.None? && c < |s.clients| && Finished(s.clients[c]) && s.clients[c].job.commits
    requires forall d | 0 <= d < |s.clients| :: !HoldsTable(s.clients[d])
    ensures IsRun(cat, run, Race(c)) && |run| == 5 && run[0] == s
    ensures run[4].history == Finish(s, c) && run[4].published == PreparedStores(s.published, CatalogStores(cat))
  {
    hide JobStep, PreparedStores, CatalogStores;
    var s1 := Next(cat, s, PrepareRead);
    var s2 := Next(cat, s1, Publish(c));
    var s3 := Next(cat, s2, Release(c));
    run := [s, s1, s2, s3, Next(cat, s3, PrepareWrite)];
  }

  /**
   * A commit can get lost: where a writer is ready to commit, no client waits in `write` and no preparation is
   * pending, a preparation can read before the commit and write after it, and then the stores stand for the history
   * exactly if the operation changed nothing.
   */
  lemma PreparationLosesCommit<R(!new)>(cat: Catalog<R>, s: State<R>, c: nat) returns (run: seq<State<R>>)
    requires Lawful(cat) && Serial(cat, s) && s.preparing.None? && c < |s.clients|
    requires Finished(s.clients[c]) && s.clients[c].job.commits
    requires forall d | 0 <= d < |s.clients| :: !HoldsTable(s.clients[d])
    ensures IsRun(cat, run, Race(c)) && |run| == 5 && run[0] == s
    ensures run[4].history == s.history + [Event(c, s.clients[c].op, Ok(()))]
    ensures Represents(cat, run[4].published, Replay(cat, s.history))
    ensures Represents(cat, run[4].published, Replay(cat, run[4].history))
       <==> Apply(cat, Replay(cat, s.history), s.clients[c].op) == Replay(cat, s.history)
  {
    hide Lawful, Represents, Outcome, Apply, IsRun, Replay, PreparedStores, CatalogStores;
    hide WriterOnTrack, GateHolds, Sequential, StoreSet;
    run := RaceRuns(cat, s, c);
    var m, t := Replay(cat, s.history), run[4];
    FinishedMeans(cat, s, c);
    StoreSetIsPrepared(cat, s.published);
    ReplayFinish(cat, s, c);
    if Represents(cat, t.published, Replay(cat, t.history)) {
      RepresentsOne(cat, t.published, m, Replay(cat, t.history));
    }
  }

  /** A read handle that stands for a collection answers scans exactly for it. */
  ghost predicate HandleScansExactly<R(!new)>(cat: Catalog<R>, m: Contents<R>, stores: NamespacedStores, i: nat,
                                              sel: Selection, d: Stores.Direction) {
    i < |cat.indexes|
    && var idx := cat.indexes[i];
    idx.name in stores && MAIN_STORE in stores
    && ScansExactly(cat, m, idx, sel, d, OpenIndexScan(cat, stores, idx, Query(sel, Some(d), None)))
  }

  lemma RepresentedScansExactly<R(!new)>(cat: Catalog<R>, stores: NamespacedStores, m: Contents<R>, i: nat,
                                         sel: Selection, d: Stores.Direction)
    requires Lawful(cat) && Represents(cat, stores, m) && ReadsWell(cat, i, sel)
    ensures HandleScansExactly(cat, m, stores, i, sel, d)
  {
    hide Lawful, Represents, SelectionFits, Faithful, Keys.EncodesToNothing, ScansExactly, OpenIndexScan;
    RepresentsPrepared(cat, stores, m);
    FaithfulScanIsExact(cat, stores, m, i, sel, d);
  }

  /**
   * A read handle shows one moment: in every harmless run, the handle that is opened at some moment is at its place at
   * all later moments, and scans through it are exact for the collection as it was when the handle was opened.
   */
  lemma ReadersScanOneMoment<R(!new)>(cat: Catalog<R>, states: seq<State<R>>, actions: seq<Action<R>>, n: nat, m: nat)
    requires Lawful(cat) && IsRun(cat, states, actions) && StartsEmpty(cat, states)
    requires PreparationsHarmless(cat, states, actions)
    requires n < m < |states| && actions[n].OpenRead?
    ensures var h := |states[n].readers|;
            h < |states[m].readers|
            && forall i, sel, d | ReadsWell(cat, i, sel) ::
                 HandleScansExactly(cat, Replay(cat, states[n].history), states[m].readers[h].stores, i, sel, d)
  {
    hide Lawful, IsRun, StartsEmpty, ReadsWell, HandleScansExactly, PreparationsHarmless, Sequential, Represents;
    RunLength(cat, states, actions);
    RunsAreSerializableIffHarmless(cat, states, actions);
    HandlesAreFresh(cat, states, actions, n);
    InitialGate(cat, states);
    GateAlwaysHolds(cat, states, actions, n + 1, m);
    assert AgreesWithSequentialRun(cat, states[n]);
    forall i, sel, d | ReadsWell(cat, i, sel)
      ensures HandleScansExactly(cat, Replay(cat, states[n].history), states[n].published, i, sel, d)
    {
      RepresentedScansExactly(cat, states[n].published, Replay(cat, states[n].history), i, sel, d);
    }
  }
}
