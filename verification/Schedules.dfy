/** That the machine gets things done: runs can always be finished, and every schedule of operations has a run. */
module Schedules {
  import opened Catalogs
  import opened Transactions
  import opened Mvcc

  /** A run that may start anywhere. */
  datatype Run<R> = Run(states: seq<State<R>>, actions: seq<Action<R>>)

  predicate Leads<R(==)>(cat: Catalog<R>, run: Run<R>, s: State<R>, t: State<R>) {
    IsRun(cat, run.states, run.actions) && run.states[0] == s && run.states[|run.actions|] == t
  }

  function Join<R>(first: Run<R>, second: Run<R>): Run<R>
    requires second.states != []
  {
    Run(first.states + second.states[1..], first.actions + second.actions)
  }

  lemma JoinLeads<R>(cat: Catalog<R>, first: Run<R>, second: Run<R>, s: State<R>, t: State<R>, u: State<R>)
    requires Leads(cat, first, s, t) && Leads(cat, second, t, u)
    ensures Leads(cat, Join(first, second), s, u)
  {
    hide StepTo;
    var run, n := Join(first, second), |first.actions|;
    forall i | 0 <= i < |run.actions|
      ensures StepTo(cat, run.states[i], run.actions[i], run.states[i + 1])
    {
      if i < n {
        assert StepTo(cat, first.states[i], first.actions[i], first.states[i + 1]);
      } else {
        assert StepTo(cat, second.states[i - n], second.actions[i - n], second.states[i - n + 1]);
      }
    }
  }

  lemma OneStepLeads<R>(cat: Catalog<R>, s: State<R>, a: Action<R>)
    requires Enabled(cat, s, a)
    ensures Leads(cat, Run([s, Next(cat, s, a)], [a]), s, Next(cat, s, a))
  {
    hide Enabled, Next;
  }

  /** A client and the operation it calls. */
  datatype Call<R> = Call(client: nat, op: Op<R>)

  /** The calls of a history, in the order in which they finished. */
  function Calls<R>(h: seq<Event<R>>): seq<Call<R>> {
    if |h| == 0 then [] else Calls(h[..|h| - 1]) + [Call(h[|h| - 1].client, h[|h| - 1].op)]
  }

  function OpenCall<R>(s: State<R>, c: nat): seq<Call<R>> {
    var ops := InFlight(s, c);
    if |ops| == 0 then [] else [Call(c, ops[0])]
  }

  /** How many actions a client needs at most until it is idle again. */
  function ActionsLeft<R>(cat: Catalog<R>, p: Phase<R>): nat {
    match p
    case Idle => 0
    case Published(_) => 1
    case Working(_, _, job) => if JobFits(cat, job) then StepsLeft(cat, job) + 2 else 0
    case Granted(_) => |cat.indexes| + 5
    case Waiting(_) => |cat.indexes| + 6
  }

  /** What a client inside an operation does next. */
  function NextAction<R>(s: State<R>, c: nat): Action<R>
    requires c < |s.clients|
  {
    match s.clients[c]
    case Waiting(_) => Acquire(c)
    case Granted(_) => Snapshot(c)
    case Working(_, _, job) => if !job.Done? then Work(c) else if job.commits then Publish(c) else Abandon(c)
    case _ => Release(c)
  }

  lemma NextActionHelps<R>(cat: Catalog<R>, s: State<R>, c: nat)
    requires Sound(cat, s) && c < |s.clients| && !s.clients[c].Idle? && (s.clients[c].Waiting? ==> !s.open)
    ensures var a := NextAction(s, c);
            Enabled(cat, s, a) && !a.Request?
            && var t := Next(cat, s, a);
               && |t.clients| == |s.clients| && t.preparing == s.preparing && t.readers == s.readers
               && (forall d | 0 <= d < |s.clients| && d != c :: t.clients[d] == s.clients[d])
               && ActionsLeft(cat, t.clients[c]) < ActionsLeft(cat, s.clients[c]) && !t.clients[c].Waiting?
               && Calls(t.history) + OpenCall(t, c) == Calls(s.history) + OpenCall(s, c)
  {
    hide JobStep, Prepared, StoreSet, GateHolds, WriterOnTrack, PreparationSound;
    assert WriterSound(cat, s.published, s.clients[c]);
    match NextAction(s, c)
    case Work(_) => JobStepsEnd(cat, s.clients[c].op, s.clients[c].job);
    case Snapshot(_) => StoreSetIsPrepared(cat, s.published);
    case Publish(_) => assert Finish(s, c)[..|Finish(s, c)| - 1] == s.history;
    case Abandon(_) => assert Finish(s, c)[..|Finish(s, c)| - 1] == s.history;
    case _ =>
  }

  /** Whoever has the permit, or waits while the gate is free, can finish alone; its operation is recorded. */
  lemma {:induction false} ClientFinishes<R>(cat: Catalog<R>, s: State<R>, c: nat) returns (run: Run<R>, t: State<R>)
    requires Sound(cat, s) && c < |s.clients| && (s.clients[c].Waiting? ==> !s.open)
    ensures Leads(cat, run, s, t) && Sound(cat, t) && forall a | a in run.actions :: !a.Request?
    ensures t.clients == s.clients[c := Idle] && t.preparing == s.preparing && t.readers == s.readers
    ensures Calls(t.history) == Calls(s.history) + OpenCall(s, c)
    decreases ActionsLeft(cat, s.clients[c])
  {
    hide Sound, Enabled, Next, Leads, ActionsLeft, NextAction, Calls;
    if s.clients[c].Idle? {
      run, t := Run([s], []), s;
      NoStepLeads(cat, s);
    } else {
      var a := NextAction(s, c);
      NextActionHelps(cat, s, c);
      SoundStep(cat, s, a);
      OneStepLeads(cat, s, a);
      var more;
      more, t := ClientFinishes(cat, Next(cat, s, a), c);
      LeadsSomewhere(cat, more, Next(cat, s, a), t);
      run := Join(Run([s, Next(cat, s, a)], [a]), more);
      JoinLeads(cat, Run([s, Next(cat, s, a)], [a]), more, s, Next(cat, s, a), t);
    }
  }

  lemma NoStepLeads<R>(cat: Catalog<R>, s: State<R>)
    ensures Leads(cat, Run([s], []), s, s)
  {
  }

  lemma LeadsSomewhere<R>(cat: Catalog<R>, run: Run<R>, s: State<R>, t: State<R>)
    requires Leads(cat, run, s, t)
    ensures |run.states| == |run.actions| + 1
  {
  }

  /** Nobody is inside an operation, and no preparation is pending. */
  predicate Quiet<R>(s: State<R>) {
    s.preparing.None? && forall c | 0 <= c < |s.clients| :: s.clients[c].Idle?
  }

  function Busy<R>(s: State<R>): set<nat> {
    set c: nat | c < |s.clients| && !s.clients[c].Idle?
  }

  /**
   * Any run can be finished: a pending preparation ends, then the clients finish one after the other, and nobody has to
   * ask for anything more.
   */
  lemma AllFinish<R>(cat: Catalog<R>, s: State<R>) returns (run: Run<R>, t: State<R>)
    requires Sound(cat, s)
    ensures Leads(cat, run, s, t) && Quiet(t) && forall a | a in run.actions :: !a.Request?
  {
    hide Sound, Leads, Next;
    if s.preparing.Some? {
      var u := Next(cat, s, PrepareWrite);
      SoundStep(cat, s, PrepareWrite);
      PreparingStep(cat, s, PrepareWrite);
      OneStepLeads(cat, s, PrepareWrite);
      var more;
      more, t := ClientsFinish(cat, u);
      LeadsSomewhere(cat, more, u, t);
      run := Join(Run([s, u], [PrepareWrite]), more);
      JoinLeads(cat, Run([s, u], [PrepareWrite]), more, s, u, t);
    } else {
      run, t := ClientsFinish(cat, s);
    }
  }

  lemma {:induction false} ClientsFinish<R>(cat: Catalog<R>, s: State<R>) returns (run: Run<R>, t: State<R>)
    requires Sound(cat, s) && s.preparing.None?
    ensures Leads(cat, run, s, t) && Quiet(t) && forall a | a in run.actions :: !a.Request?
    decreases |Busy(s)|
  {
    hide WriterSound, WriterOnTrack, PreparationSound, StoreSet, Leads, Calls;
    if Busy(s) != {} {
      var c: nat :| c in Busy(s);
      if s.open {
        c :| c < |s.clients| && HasPermit(s.clients[c]);
      }
      var first, u := ClientFinishes(cat, s, c);
      assert Busy(u) == Busy(s) - {c} && c in Busy(s);
      var more;
      more, t := ClientsFinish(cat, u);
      LeadsSomewhere(cat, more, u, t);
      run := Join(first, more);
      JoinLeads(cat, first, more, s, u, t);
    } else {
      run, t := Run([s], []), s;
      NoStepLeads(cat, s);
      forall c | 0 <= c < |s.clients|
        ensures s.clients[c].Idle?
      {
        assert c !in Busy(s);
      }
    }
  }

  /** Without further requests, the operations a client requested stay what they are. */
  lemma {:induction false} SameRequests<R>(actions: seq<Action<R>>, more: seq<Action<R>>, c: nat)
    requires forall a | a in more :: !a.Request?
    ensures RequestedOps(actions + more, c) == RequestedOps(actions, c)
  {
    if more == [] {
      assert actions + more == actions;
    } else {
      var n := |more| - 1;
      SameRequests(actions, more[..n], c);
      assert (actions + more)[..|actions| + n] == actions + more[..n];
      assert more[n] in more;
    }
  }

  /**
   * Every run from the empty collection can be continued to a state where each client has an answer to each operation
   * it requested, and to no other, in its order.
   */
  lemma EveryRequestCanBeAnswered<R>(cat: Catalog<R>, states: seq<State<R>>, actions: seq<Action<R>>)
    returns (whole: Run<R>)
    requires IsRun(cat, states, actions) && StartsEmpty(cat, states)
    ensures IsRun(cat, whole.states, whole.actions) && states <= whole.states && actions <= whole.actions
    ensures var t := whole.states[|whole.actions|];
            Quiet(t) && forall c: nat :: AnsweredOps(t.history, c) == RequestedOps(actions, c)
  {
    hide Sound, AnsweredOps, RequestedOps;
    var n := |actions|;
    SoundAt(cat, states, actions, n);
    var more, t := AllFinish(cat, states[n]);
    whole := Join(Run(states, actions), more);
    JoinLeads(cat, Run(states, actions), more, states[0], states[n], t);
    forall c: nat
      ensures AnsweredOps(t.history, c) == RequestedOps(actions, c)
    {
      var end := |whole.actions|;
      RequestsAreAnswered(cat, whole.states, whole.actions, end, c);
      assert whole.actions[..end] == actions + more.actions;
      SameRequests(actions, more.actions, c);
    }
  }

  /** What is to be done, one after the other. */
  datatype Order<R> = Perform(call: Call<R>) | OpenHandle | PrepareAgain

  predicate OrderFits<R>(cat: Catalog<R>, clients: nat, o: Order<R>) {
    o.Perform? ==> o.call.client < clients && OpFits(cat, o.call.op)
  }

  function CallsIn<R>(orders: seq<Order<R>>): seq<Call<R>> {
    if |orders| == 0 then []
    else
      var o := orders[|orders| - 1];
      CallsIn(orders[..|orders| - 1]) + if o.Perform? then [o.call] else []
  }

  function HandlesIn<R>(orders: seq<Order<R>>): nat {
    if |orders| == 0 then 0
    else HandlesIn(orders[..|orders| - 1]) + if orders[|orders| - 1].OpenHandle? then 1 else 0
  }

  /** From a quiet state any one order can be carried out, up to a quiet state. */
  lemma OrderRuns<R>(cat: Catalog<R>, s: State<R>, o: Order<R>) returns (run: Run<R>, t: State<R>)
    requires Sound(cat, s) && Quiet(s) && OrderFits(cat, |s.clients|, o)
    ensures Leads(cat, run, s, t) && Sound(cat, t) && Quiet(t) && |t.clients| == |s.clients|
    ensures Calls(t.history) == Calls(s.history) + if o.Perform? then [o.call] else []
    ensures |t.readers| == |s.readers| + if o.OpenHandle? then 1 else 0
  {
    hide Sound, Leads, Calls;
    var a := match o case Perform(call) => Request(call.client, call.op) case OpenHandle => OpenRead
             case PrepareAgain => PrepareRead;
    var u := Next(cat, s, a);
    var first := Run([s, u], [a]);
    SoundStep(cat, s, a);
    OneStepLeads(cat, s, a);
    var more;
    match o
    case Perform(call) =>
      SoundGate(cat, s);
      more, t := ClientFinishes(cat, u, call.client);
      LeadsSomewhere(cat, more, u, t);
      run := Join(first, more);
      JoinLeads(cat, first, more, s, u, t);
    case OpenHandle => run, t := first, u;
    case PrepareAgain =>
      t := Next(cat, u, PrepareWrite);
      more := Run([u, t], [PrepareWrite]);
      SoundStep(cat, u, PrepareWrite);
      OneStepLeads(cat, u, PrepareWrite);
      run := Join(first, more);
      JoinLeads(cat, first, more, s, u, t);
  }

  lemma SoundGate<R>(cat: Catalog<R>, s: State<R>)
    requires Sound(cat, s) && Quiet(s)
    ensures !s.open
  {
  }

  /**
   * The machine does whatever it is asked to: for every schedule of operations, read handles and preparations there is
   * a run from the empty collection whose history has the calls of the schedule, in its order, and that opens its
   * handles.
   */
  lemma {:induction false} EveryScheduleRuns<R>(cat: Catalog<R>, clients: nat, orders: seq<Order<R>>)
    returns (run: Run<R>, t: State<R>)
    requires forall o | o in orders :: OrderFits(cat, clients, o)
    ensures Leads(cat, run, Init(cat, clients), t) && Sound(cat, t) && Quiet(t) && |t.clients| == clients
    ensures Calls(t.history) == CallsIn(orders) && |t.readers| == HandlesIn(orders)
  {
    hide Sound, Leads;
    if orders == [] {
      run, t := Run([Init(cat, clients)], []), Init(cat, clients);
      NoStepLeads(cat, t);
      InitIsSound(cat, clients);
    } else {
      var n := |orders| - 1;
      var earlier, s := EveryScheduleRuns(cat, clients, orders[..n]);
      assert orders[n] in orders;
      var last;
      last, t := OrderRuns(cat, s, orders[n]);
      LeadsSomewhere(cat, last, s, t);
      run := Join(earlier, last);
      JoinLeads(cat, earlier, last, Init(cat, clients), s, t);
    }
  }
}
