/** When mail keeps going to the most preferred server: exactly, over calls and over whole runs. */
module FailoverPreference {
  import opened ResourceRecords
  import opened Failover
  import opened FailoverLaws
  import opened FailoverRuns

  /** No usable record has a lower preference value than the one in use. */
  ghost predicate Preferred(net: Net, st: State) {
    HasServer(st) ==> Lowest(net, st.discarded, CurrentMX(st).priority)
  }

  /** All usable records have the same preference value. */
  ghost predicate OneLevel(net: Net, discarded: set<string>) {
    forall r1, r2 :: Usable(net, discarded, r1) && Usable(net, discarded, r2) ==> r1.priority == r2.priority
  }

  /** The addresses of the unexpired records of the first priority. */
  function FirstHosts(net: Net): set<string> {
    set r, a | r in net.records && r.priority == FirstPriority(net) && !r.HasExpired(net.now) && a in Answers(net, r) :: a.hostName
  }

  /** As long as the first priority has a usable record, the scheduler is there, once it has started. */
  ghost predicate Held(net: Net, st: State) {
    Serving(net, st) && (Unused(st) || st.topPriority == FirstPriority(net) || !FirstUp(net, st.discarded))
  }

  /** The loop uses the first queued record that is usable, and leaves those behind it in front. */
  lemma {:induction false} LoopTakes(net: Net, st: State, k: nat)
    requires Routed(net) && Settled(net, st) && k < |st.topQueue| && Usable(net, st.discarded, st.topQueue[k].Plain())
    ensures var r := Loop(net, st);
      && r.0 && r.1.topPriority == st.topPriority && r.1.discarded == st.discarded
      && exists j, q: ResourceRecord :: 0 <= j <= k && q.Plain() == st.topQueue[j].Plain() && r.1.topQueue == st.topQueue[j + 1..] + [q]
    decreases k
  {
    hide Settled, Usable, Serves, Refill, Served;
    ServesIffUsable(net, st);
    TryFrontSettled(net, st);
    var n := TryFront(net, st);
    if Serves(net, st) {
      var q := st.topQueue[0].(addresses := Served(net, st.discarded, st.topQueue[0]));
      assert q.Plain() == st.topQueue[0].Plain() && n.topQueue == st.topQueue[0 + 1..] + [q];
    } else {
      assert n.topQueue == st.topQueue[1..] && n.topQueue[k - 1] == st.topQueue[k];
      LoopTakes(net, n, k - 1);
      var j, q: ResourceRecord :|
        0 <= j <= k - 1 && q.Plain() == n.topQueue[j].Plain() && Loop(net, n).1.topQueue == n.topQueue[j + 1..] + [q];
      assert n.topQueue[j] == st.topQueue[j + 1] && n.topQueue[j + 1..] == st.topQueue[j + 1 + 1..];
    }
  }

  lemma CycleIs(net: Net, st: State)
    requires Routed(net)
    ensures st.topQueue != [] ==> Step(net, st, Cycles) == Loop(net, st).1
    ensures st.topQueue == [] && Refill(net, st).topQueue != [] ==> Step(net, st, Cycles) == Step(net, Refill(net, st), Cycles)
  {
    RefillIs(net, st);
  }

  lemma {:induction false} RoundsFrom(net: Net, st: State, n: nat)
    requires Routed(net)
    ensures Rounds(net, st, n + 1) == Rounds(net, Step(net, st, Cycles), n)
  {
    hide Step;
    if n == 0 {
      RoundsStep(net, st, 1);
      RoundsStep(net, st, 0);
    } else {
      RoundsFrom(net, st, n - 1);
    }
  }

  /** A queued usable record becomes current after as many calls as there are records up to it, or fewer. */
  lemma {:induction false} ReachQueued(net: Net, st: State, k: nat) returns (n: nat)
    requires Routed(net) && Settled(net, st) && k < |st.topQueue| && Usable(net, st.discarded, st.topQueue[k].Plain())
    ensures 0 < n <= k + 1
    ensures var s := Rounds(net, st, n);
      s.discarded == st.discarded && s.topQueue != [] && CurrentMX(s).Plain() == st.topQueue[k].Plain()
    decreases k
  {
    hide Settled, Usable, Loop, Cycle;
    LoopTakes(net, st, k);
    LoopSettles(net, st);
    CycleIs(net, st);
    var s := Step(net, st, Cycles);
    var j, q: ResourceRecord :| 0 <= j <= k && q.Plain() == st.topQueue[j].Plain() && s.topQueue == st.topQueue[j + 1..] + [q];
    if j == k {
      n := 1;
      RoundsStep(net, st, 1);
      RoundsStep(net, st, 0);
    } else {
      assert s.topQueue[k - j - 1] == st.topQueue[k];
      n := ReachQueued(net, s, k - j - 1);
      RoundsFrom(net, st, n);
      n := n + 1;
    }
  }

  lemma LoopSettles(net: Net, st: State)
    requires Routed(net) && Settled(net, st) && st.topQueue != []
    ensures Settled(net, Loop(net, st).1)
  {
    LoopFinds(net, st);
  }

  /** With the first priority given up, every usable record becomes current sooner or later. */
  lemma Reach(net: Net, st: State, r: ResourceRecord) returns (n: nat)
    requires Routed(net) && Serving(net, st) && !Unused(st)
    requires Usable(net, st.discarded, r) && !FirstUp(net, st.discarded)
    ensures 0 < n
    ensures var s := Rounds(net, st, n);
      s.discarded == st.discarded && s.topQueue != [] && CurrentMX(s).Plain() == r
  {
    hide Addresses, Cycle, Loop, Refill;
    var m := st;
    if st.topQueue == [] {
      m := QueueNext(net, st);
      QueueNextSettled(net, st);
      assert !Queued(st, r) && r in m.topQueue && r.Plain() == r;
      RefillIs(net, st);
    } else {
      PastFirst(net, st);
    }
    assert Queued(m, r);
    var q :| q in m.topQueue && q.Plain() == r;
    var k :| 0 <= k < |m.topQueue| && m.topQueue[k] == q;
    n := ReachQueued(net, m, k);
    CycleIs(net, st);
    SameRounds(net, st, m, n);
  }

  /** The record in use is usable, so its priority is not the first one. */
  lemma PastFirst(net: Net, st: State)
    requires Serving(net, st) && st.topQueue != [] && !FirstUp(net, st.discarded)
    ensures st.topPriority != FirstPriority(net) && Settled(net, st)
  {
    hide Usable;
    StartedInUse(net, st);
    assert CurrentMX(st) in st.topQueue && CurrentMX(st).Plain().priority == CurrentMX(st).priority;
  }

  lemma {:induction false} SameRounds(net: Net, a: State, b: State, n: nat)
    requires Routed(net) && n > 0 && Step(net, a, Cycles) == Step(net, b, Cycles)
    ensures Rounds(net, a, n) == Rounds(net, b, n)
  {
    hide Step;
    RoundsFrom(net, a, n - 1);
    RoundsFrom(net, b, n - 1);
  }

  /** A loop over a queue that holds a usable record does not move up in priority. */
  lemma LoopStays(net: Net, st: State, r: ResourceRecord)
    requires Routed(net) && Settled(net, st) && Usable(net, st.discarded, r) && r.priority <= st.topPriority
    ensures st.topQueue != [] && Loop(net, st).1.topPriority == st.topPriority
  {
    hide Usable, Loop, Addresses;
    assert Queued(st, r);
    var q :| q in st.topQueue && q.Plain() == r;
    var k :| 0 <= k < |st.topQueue| && st.topQueue[k] == q;
    LoopTakes(net, st, k);
  }

  lemma HeldStep(net: Net, st: State, a: Action)
    requires Routed(net) && Held(net, st)
    ensures Held(net, Step(net, st, a))
    ensures FirstUp(net, Step(net, st, a).discarded) ==> Step(net, st, a).topPriority == FirstPriority(net)
  {
    hide Usable, Settled, InUse, Loop, Refill, Serves;
    var d := if a.FailsOver? then Discard(st) else st;
    var n := Step(net, st, a);
    StepServes(net, st, a);
    DiscardedStarted(net, st, a);
    CycleIs(net, d);
    if FirstUp(net, n.discarded) {
      var r :| Usable(net, n.discarded, r) && r.priority == FirstPriority(net);
      MoreDiscarded(net, st.discarded, n.discarded, r);
      if Unused(d) {
        FirstRefillSettles(net, d);
        FirstQueued(net, Refill(net, d), r);
        LoopStays(net, Refill(net, d), r);
        CycleIs(net, Refill(net, d));
      } else {
        LoopStays(net, d, r);
      }
    }
  }

  /** After the discard, if any, and before the cycle. */
  lemma DiscardedStarted(net: Net, st: State, a: Action)
    requires Routed(net) && Serving(net, st)
    ensures var d := if a.FailsOver? then Discard(st) else st;
      && Started(net, d) && st.discarded <= d.discarded
      && d.topPriority == st.topPriority && d.topQueue == st.topQueue
      && Step(net, st, a).discarded == d.discarded && Step(net, st, a) == Step(net, d, Cycles)
  {
    hide Settled, InUse, Cycle;
    if a.FailsOver? && st.topQueue != [] {
      StartedInUse(net, st);
      DiscardCurrent(net, st);
    }
    CycleFinds(net, if a.FailsOver? then Discard(st) else st);
  }

  lemma MoreDiscarded(net: Net, less: set<string>, more: set<string>, r: ResourceRecord)
    requires less <= more && Usable(net, more, r)
    ensures Usable(net, less, r)
  {
    var all := Addresses(net, more, r);
    assert all[0] in all && all[0] in Addresses(net, less, r);
  }

  lemma FirstQueued(net: Net, st: State, r: ResourceRecord)
    requires Settled(net, st) && Usable(net, st.discarded, r) && r.priority == FirstPriority(net) == st.topPriority
    ensures st.topQueue != []
  {
    assert Queued(st, r);
  }

  /** While the scheduler is held at the first priority, mail goes to the most preferred record. */
  lemma HeldPreferred(net: Net, st: State)
    requires Routed(net) && Held(net, st) && FirstUp(net, st.discarded)
    ensures Preferred(net, st)
  {
    hide Addresses;
    if HasServer(st) {
      StartedInUse(net, st);
      assert CurrentMX(st) in st.topQueue;
      forall x | Usable(net, st.discarded, x) ensures CurrentMX(st).priority <= x.priority { NoneBeforeFirst(net, x); }
    }
  }

  /** With one level of preference left, mail can only go there. */
  lemma OneLevelPreferred(net: Net, st: State)
    requires Serving(net, st) && OneLevel(net, st.discarded)
    ensures Preferred(net, st)
  {
    hide Addresses;
    if HasServer(st) { assert Usable(net, st.discarded, CurrentMX(st).Plain()); }
  }

  lemma {:induction false} RoundsHeld(net: Net, st: State, n: nat)
    requires Routed(net) && Unused(st)
    ensures Held(net, Rounds(net, st, n)) && Rounds(net, st, n).discarded == st.discarded
  {
    hide Held, Step;
    RoundsStep(net, st, n);
    if n == 0 {
      UnusedHeld(net, st);
    } else {
      RoundsHeld(net, st, n - 1);
      var s := Rounds(net, st, n - 1);
      HeldStep(net, s, Cycles);
      HeldServing(net, s);
      StepServes(net, s, Cycles);
    }
  }

  lemma UnusedHeld(net: Net, st: State)
    requires Unused(st)
    ensures Held(net, st)
  {
  }

  lemma HeldServing(net: Net, st: State)
    requires Held(net, st)
    ensures Serving(net, st)
  {
  }

  /**
   * As long as nothing is discarded, mail goes to the most preferred server on every call exactly
   * when the first priority has a usable record, or all usable records are of one preference value.
   */
  lemma PreferredCallsIff(net: Net, st: State)
    requires Routed(net) && Unused(st)
    ensures (forall n: nat :: Preferred(net, Rounds(net, st, n)))
       <==> FirstUp(net, st.discarded) || OneLevel(net, st.discarded)
  {
    hide Preferred, Held, FirstUp, Rounds, Usable;
    forall n: nat | FirstUp(net, st.discarded) || OneLevel(net, st.discarded) ensures Preferred(net, Rounds(net, st, n)) {
      RoundsHeld(net, st, n);
      HeldServing(net, Rounds(net, st, n));
      if FirstUp(net, st.discarded) { HeldPreferred(net, Rounds(net, st, n)); } else { OneLevelPreferred(net, Rounds(net, st, n)); }
    }
    if !FirstUp(net, st.discarded) && !OneLevel(net, st.discarded) {
      var n := NotPreferred(net, st);
      assert !Preferred(net, Rounds(net, st, n));
    }
  }

  /** Otherwise some call uses a record although one of lower preference value could be. */
  lemma NotPreferred(net: Net, st: State) returns (n: nat)
    requires Routed(net) && Unused(st) && !FirstUp(net, st.discarded) && !OneLevel(net, st.discarded)
    ensures !Preferred(net, Rounds(net, st, n))
  {
    hide Addresses, Step;
    var r1, r2 :| Usable(net, st.discarded, r1) && Usable(net, st.discarded, r2) && r1.priority < r2.priority;
    RoundsHeld(net, st, 1);
    var s := Rounds(net, st, 1);
    HeldServing(net, s);
    StepUsed(net, st, Cycles);
    RoundsStep(net, st, 1);
    RoundsStep(net, st, 0);
    n := Reach(net, s, r2);
    RoundsFrom(net, st, n);
    RoundsHeld(net, st, n + 1);
    HeldServing(net, Rounds(net, s, n));
    LaterUsed(net, Rounds(net, s, n), r1, r2);
    n := n + 1;
  }

  lemma LaterUsed(net: Net, st: State, r1: ResourceRecord, r2: ResourceRecord)
    requires Routed(net) && Usable(net, st.discarded, r1) && Usable(net, st.discarded, r2) && r1.priority < r2.priority
    requires Serving(net, st) && st.topQueue != [] && CurrentMX(st).Plain() == r2
    ensures !Preferred(net, st)
  {
    hide Usable;
    StartedInUse(net, st);
    assert CurrentMX(st).priority == r2.priority;
  }

  lemma {:induction false} AfterHeld(net: Net, st: State, run: seq<Action>)
    requires Routed(net) && Held(net, st)
    ensures Held(net, After(net, st, run)) && st.discarded <= After(net, st, run).discarded
    decreases |run|
  {
    hide Held, Step;
    HeldServing(net, st);
    if run == [] {
    } else {
      StepServes(net, st, run[0]);
      HeldStep(net, st, run[0]);
      AfterHeld(net, Step(net, st, run[0]), run[1..]);
    }
  }

  /** Without a usable record of the first priority, all of its addresses have been discarded. */
  lemma FirstDownIff(net: Net, discarded: set<string>)
    ensures !FirstUp(net, discarded) <==> FirstHosts(net) <= discarded
  {
    if FirstUp(net, discarded) {
      var r :| Usable(net, discarded, r) && r.priority == FirstPriority(net);
      var a := Addresses(net, discarded, r)[0];
      assert a in Addresses(net, discarded, r) && a.hostName in FirstHosts(net);
    }
    if h :| h in FirstHosts(net) && h !in discarded {
      var r, a :| r in net.records && r.priority == FirstPriority(net) && !r.HasExpired(net.now) && a in Answers(net, r) && a.hostName == h;
      assert a in Addresses(net, discarded, r);
      assert Usable(net, discarded, r);
    }
  }

  lemma OneLevelStays(net: Net, less: set<string>, more: set<string>)
    requires less <= more && OneLevel(net, less)
    ensures OneLevel(net, more)
  {
    hide Usable;
    forall r1, r2 | Usable(net, more, r1) && Usable(net, more, r2) ensures r1.priority == r2.priority {
      MoreDiscarded(net, less, more, r1);
      MoreDiscarded(net, less, more, r2);
    }
  }

  /**
   * Over whole runs, failovers included, mail always goes to the most preferred server exactly when
   * the records that are usable once the first priority is gone are of one preference value.
   */
  lemma PreferredRunsIff(net: Net, st: State)
    requires Routed(net) && Unused(st)
    ensures (forall run :: Preferred(net, After(net, st, run))) <==> OneLevel(net, st.discarded + FirstHosts(net))
  {
    hide Preferred, Held, FirstUp, After, OneLevel, FirstHosts;
    var gone := st.discarded + FirstHosts(net);
    forall run | OneLevel(net, gone) ensures Preferred(net, After(net, st, run)) {
      var s := After(net, st, run);
      UnusedHeld(net, st);
      AfterHeld(net, st, run);
      HeldServing(net, s);
      FirstDownIff(net, s.discarded);
      if FirstUp(net, s.discarded) {
        HeldPreferred(net, s);
      } else {
        OneLevelStays(net, gone, s.discarded);
        OneLevelPreferred(net, s);
      }
    }
    if !OneLevel(net, gone) {
      var run := RunNotPreferred(net, st);
      assert !Preferred(net, After(net, st, run));
    }
  }

  lemma {:induction false} AfterAppend(net: Net, st: State, a: seq<Action>, b: seq<Action>)
    requires Routed(net)
    ensures After(net, st, a + b) == After(net, After(net, st, a), b)
    decreases |a|
  {
    hide Step;
    if a == [] {
      assert a + b == b;
    } else {
      assert (a + b)[0] == a[0] && (a + b)[1..] == a[1..] + b;
      AfterAppend(net, Step(net, st, a[0]), a[1..], b);
    }
  }

  /** Calls in a row, as a run. */
  lemma {:induction false} RoundsAreRun(net: Net, st: State, n: nat) returns (run: seq<Action>)
    requires Routed(net)
    ensures After(net, st, run) == Rounds(net, st, n)
    decreases n
  {
    hide Step;
    if n == 0 {
      run := [];
    } else {
      run := RoundsAreRun(net, Step(net, st, Cycles), n - 1);
      RoundsFrom(net, st, n - 1);
      assert ([Cycles] + run)[1..] == run;
      run := [Cycles] + run;
    }
  }

  /** Once there is a record, a scheduler that has started does not look unused again. */
  lemma {:induction false} LoopUsed(net: Net, st: State)
    requires Routed(net) && net.records != [] && !Unused(st)
    ensures !Unused(Loop(net, st).1)
    decreases if Serves(net, st) then 0 else 1, Above(net.records, st.topPriority), |st.topQueue|
  {
    hide Refill, InitTop;
    if st.topQueue != [] && !Serves(net, st) {
      var n := TryFront(net, st);
      if n.topQueue != [] {
        LoopUsed(net, n);
      } else {
        RefillUsed(net, n);
        RefillIs(net, n);
        RefillAdvances(net, n);
        if Refill(net, n).topQueue != [] { LoopUsed(net, Refill(net, n)); }
      }
    }
  }

  lemma RefillUsed(net: Net, st: State)
    requires Routed(net) && net.records != []
    ensures !Unused(Refill(net, st))
  {
    assert net.records[0] in net.records;
  }

  lemma StepUsed(net: Net, st: State, a: Action)
    requires Routed(net) && net.records != []
    ensures !Unused(Step(net, st, a))
  {
    hide Loop, Refill, Discard;
    var d := if a.FailsOver? then Discard(st) else st;
    RefillUsed(net, d);
    LoopUsed(net, if d.topQueue == [] then Refill(net, d) else d);
    RefillIs(net, d);
  }

  /** While the first priority is up, the server in use has one of its addresses. */
  lemma CurrentIsFirst(net: Net, st: State)
    requires Routed(net) && Held(net, st) && !Unused(st) && FirstUp(net, st.discarded)
    ensures HasServer(st) && Current(st).hostName in FirstHosts(net) && Current(st).hostName !in st.discarded
    ensures net.records != []
  {
    hide Addresses;
    var r :| Usable(net, st.discarded, r) && r.priority == FirstPriority(net);
    FirstQueued(net, st, r);
    StartedInUse(net, st);
    var mx := CurrentMX(st);
    assert mx in st.topQueue && mx.Plain().priority == FirstPriority(net);
    assert Answers(net, mx) == Answers(net, mx.Plain());
  }

  /** Connection errors can use up the addresses of the first priority, and nothing else. */
  lemma {:induction false} UseUpFirst(net: Net, st: State, gone: set<string>) returns (run: seq<Action>)
    requires Routed(net) && Held(net, st) && !Unused(st)
    requires FirstHosts(net) <= gone && st.discarded <= gone <= st.discarded + FirstHosts(net)
    ensures var s := After(net, st, run); Held(net, s) && !Unused(s) && s.discarded == gone
    decreases |gone - st.discarded|
  {
    hide Held, Step, FirstHosts, Usable, FirstUp, HasServer, Current;
    FirstDownIff(net, st.discarded);
    if FirstUp(net, st.discarded) {
      CurrentIsFirst(net, st);
      HeldServing(net, st);
      HeldStep(net, st, FailsOver);
      StepServes(net, st, FailsOver);
      StepUsed(net, st, FailsOver);
      var n := Step(net, st, FailsOver);
      assert gone - n.discarded == gone - st.discarded - {Current(st).hostName};
      run := UseUpFirst(net, n, gone);
      assert ([FailsOver] + run)[1..] == run;
      run := [FailsOver] + run;
    } else {
      run := [];
    }
  }

  lemma RunNotPreferred(net: Net, st: State) returns (run: seq<Action>)
    requires Routed(net) && Unused(st) && !OneLevel(net, st.discarded + FirstHosts(net))
    ensures !Preferred(net, After(net, st, run))
  {
    hide Addresses, Step, Held, FirstHosts, FirstUp, Preferred;
    var gone := st.discarded + FirstHosts(net);
    var r1, r2 :| Usable(net, gone, r1) && Usable(net, gone, r2) && r1.priority < r2.priority;
    UnusedHeld(net, st);
    RoundsHeld(net, st, 1);
    RoundsStep(net, st, 1);
    RoundsStep(net, st, 0);
    var s1 := Step(net, st, Cycles);
    StepUsed(net, st, Cycles);
    var down := UseUpFirst(net, s1, gone);
    var s2 := After(net, s1, down);
    HeldServing(net, s2);
    FirstDownIff(net, gone);
    var n := Reach(net, s2, r2);
    var calls := RoundsAreRun(net, s2, n);
    AfterAppend(net, s1, down, calls);
    run := [Cycles] + (down + calls);
    assert run[0] == Cycles && run[1..] == down + calls;
    AfterHeld(net, st, run);
    HeldServing(net, After(net, st, run));
    LaterUsed(net, After(net, st, run), r1, r2);
  }
}
