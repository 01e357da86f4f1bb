/** When the loop of `cycleServers` ends, whatever hosts the provider refuses. */
module FailoverEnding {
  import opened ResourceRecords
  import opened Failover
  import opened FailoverLaws

  /** Where a turn of the loop leads: a server is in use, nothing is left to queue, or another turn. */
  datatype Turned = Found(state: State) | GaveUp(state: State) | Running(state: State)

  function Refilled(net: Net, st: State): Turned {
    var m := Refill(net, st);
    if m.topQueue == [] then GaveUp(m) else Running(m)
  }

  /** One turn: the front record is tried, and an empty queue is filled again. */
  function Turn(net: Net, st: State): Turned {
    if st.topQueue == [] then Refilled(net, st)
    else
      var n := TryFront(net, st);
      if Serves(net, st) then Found(n)
      else if n.topQueue != [] then Running(n)
      else Refilled(net, n)
  }

  /** Where `cycleServers` is after n turns, or at its end. */
  function Turns(net: Net, st: State, n: nat): Turned
    decreases n
  {
    if n == 0 then Running(st)
    else
      var t := Turn(net, st);
      if t.Running? then Turns(net, t.state, n - 1) else t
  }

  ghost predicate Ends(net: Net, st: State) {
    exists n: nat :: !Turns(net, st, n).Running?
  }

  ghost predicate EndsIn(net: Net, st: State, end: Turned) {
    !end.Running? && exists n: nat :: Turns(net, st, n) == end
  }

  /** An undiscarded, unrefused address that name servers give for an unexpired record. */
  ghost predicate Reachable(net: Net, discarded: set<string>, r: ResourceRecord, a: ResourceRecord) {
    r in net.records && net.now < r.expiryTime && a in Answers(net, r) && Fit(net, discarded, a)
  }

  ghost predicate SomeReachable(net: Net, discarded: set<string>) {
    exists r, a :: Reachable(net, discarded, r, a)
  }

  /** The one record of a domain that is given as an address. */
  function Own(net: Net): ResourceRecord {
    var a := MakeRecord(net.domain, 10, net.domain, 36000, net.now);
    a.(addresses := [a])
  }

  /** What a session is at any time: its queue holds copies of records, with addresses of theirs. */
  ghost predicate Copies(net: Net, st: State) {
    if IPLiteral(net.domain) then
      st.topPriority == NO_PRIORITY && forall q :: q in st.topQueue ==> q == Own(net)
    else
      forall q :: q in st.topQueue ==> q.Plain() in net.records && forall a :: a in q.addresses ==> a in Answers(net, q)
  }

  /** There is something to find, or the queue stays empty when all starts over. */
  ghost predicate Ending(net: Net, discarded: set<string>) {
    if IPLiteral(net.domain) then net.domain != "" && net.domain !in discarded + net.refused
    else !FirstUp(net, discarded) || SomeReachable(net, discarded)
  }

  lemma EndsStep(net: Net, st: State)
    requires Turn(net, st).Running? ==> Ends(net, Turn(net, st).state)
    ensures Ends(net, st)
  {
    hide Turn;
    var t := Turn(net, st);
    if t.Running? {
      var n: nat :| !Turns(net, t.state, n).Running?;
      assert Turns(net, st, n + 1) == Turns(net, t.state, n);
    } else {
      assert Turns(net, st, 1) == t;
    }
  }

  /** A queued record that can serve is come to, unless one before it serves. */
  lemma {:induction false} ServerEnds(net: Net, st: State, k: nat)
    requires k < |st.topQueue| && Serves(net, st.(topQueue := st.topQueue[k..]))
    ensures Ends(net, st)
    decreases k
  {
    hide Ends, Served;
    if Serves(net, st) {
    } else {
      assert st.topQueue[0..] == st.topQueue;
      var n := TryFront(net, st);
      assert n.topQueue == st.topQueue[1..] && n.topQueue[k - 1..] == st.topQueue[k..];
      ServerEnds(net, n, k - 1);
    }
    EndsStep(net, st);
  }

  /** A queue is used up, if no server is found first. */
  lemma {:induction false} QueueUsedUp(net: Net, st: State)
    requires Ends(net, st.(topQueue := []))
    ensures Ends(net, st)
    decreases |st.topQueue|
  {
    hide Ends, Serves, Refill;
    if st.topQueue == [] {
    } else {
      var n := TryFront(net, st);
      if !Serves(net, st) {
        assert n.topQueue == st.topQueue[1..];
        QueueUsedUp(net, n);
      }
      EndsFromTurn(net, st);
    }
  }

  /** As `EndsStep`, with the queue filled again in a turn of its own. */
  lemma EndsFromTurn(net: Net, st: State)
    requires st.topQueue != [] && (!Serves(net, st) ==> Ends(net, TryFront(net, st)))
    ensures Ends(net, st)
  {
    hide Serves, Refill, TryFront;
    var n := TryFront(net, st);
    if !Serves(net, st) && n.topQueue == [] {
      EndsHere(net, n);
    }
    EndsStep(net, st);
  }

  lemma EndsHere(net: Net, st: State)
    requires Ends(net, st)
    ensures Turn(net, st).Running? ==> Ends(net, Turn(net, st).state)
  {
    hide Turn;
    var n: nat :| !Turns(net, st, n).Running?;
    if Turn(net, st).Running? { assert !Turns(net, Turn(net, st).state, n - 1).Running?; }
  }

  /** Priority by priority the loop comes to where all starts over. */
  lemma {:induction false} ComesAround(net: Net, discarded: set<string>, top: int)
    requires Answered(net) && !IPLiteral(net.domain) && Ends(net, State(NO_PRIORITY, [], discarded))
    ensures Ends(net, State(top, [], discarded))
    decreases Above(net.records, top)
  {
    hide Ends, AliveAbove, Ready, NextPriority, Above;
    var st := State(top, [], discarded);
    var n := QueueNext(net, st);
    NextIsAbove(net.records, top);
    if n.topPriority < NO_PRIORITY {
      ComesAround(net, discarded, n.topPriority);
      QueueUsedUp(net, Refill(net, st));
      EndsStep(net, st);
    } else {
      NoneAliveAbove(net, top);
      NothingNext(net, State(NO_PRIORITY, [], discarded));
      assert Turn(net, st) == Turn(net, n);
      EndsHere(net, n);
      EndsStep(net, st);
    }
  }

  lemma NoneAliveAbove(net: Net, top: int)
    requires Answered(net) && NextPriority(net.records, top) >= NO_PRIORITY
    ensures NextPriority(net.records, top) == NO_PRIORITY && AliveAbove(net.records, net.now, top) == []
  {
    NextIsAbove(net.records, top);
    SomeMember(AliveAbove(net.records, net.now, top));
  }

  /** What the queue holds when all starts over: the usable records of the first priority. */
  lemma StartingOver(net: Net, discarded: set<string>)
    requires Answered(net) && !IPLiteral(net.domain)
    ensures var n := Refill(net, State(NO_PRIORITY, [], discarded));
      && n.topPriority == FirstPriority(net) && n.discarded == discarded
      && (forall q :: q in n.topQueue <==>
           Usable(net, discarded, q.Plain()) && q.priority == FirstPriority(net) && q.addresses == Addresses(net, discarded, q))
      && (n.topQueue == [] <==> !FirstUp(net, discarded))
  {
    hide Ready, Addresses;
    NothingNext(net, State(NO_PRIORITY, [], discarded));
    var n := Refill(net, State(NO_PRIORITY, [], discarded));
    forall q ensures q in n.topQueue <==>
      Usable(net, discarded, q.Plain()) && q.priority == FirstPriority(net) && q.addresses == Addresses(net, discarded, q)
    {
      ReadyMember(net, discarded, net.records, n.topPriority, q);
      SameAddresses(net, discarded, q);
      if q.Plain() in net.records { NoneBeforeFirst(net, q.Plain()); }
    }
    forall r | Usable(net, discarded, r) && r.priority == FirstPriority(net) ensures n.topQueue != [] {
      var q := r.(addresses := Addresses(net, discarded, r));
      SameAddresses(net, discarded, q);
      assert q.Plain() == r && q in n.topQueue;
    }
    SomeMember(n.topQueue);
  }

  /** A queued copy of a record that can be reached serves. */
  lemma ReachableServes(net: Net, st: State, r: ResourceRecord, a: ResourceRecord, k: nat)
    requires Answered(net) && Reachable(net, st.discarded, r, a)
    requires k < |st.topQueue| && st.topQueue[k].Plain() == r && st.topQueue[k].addresses in [[], Addresses(net, st.discarded, r)]
    ensures Serves(net, st.(topQueue := st.topQueue[k..]))
  {
    var q := st.topQueue[k];
    SameAddresses(net, st.discarded, q);
    assert a in Addresses(net, st.discarded, q);
  }

  /** Starting over, the loop ends if a record can be reached: at the first priority, or queued next. */
  lemma ReachableEnds(net: Net, discarded: set<string>, r: ResourceRecord, a: ResourceRecord)
    requires Answered(net) && !IPLiteral(net.domain) && Reachable(net, discarded, r, a)
    ensures Ends(net, State(NO_PRIORITY, [], discarded))
  {
    hide Ends, Serves, Addresses, Refill, FirstUp;
    var st := State(NO_PRIORITY, [], discarded);
    var n := Refill(net, st);
    StartingOver(net, discarded);
    ReachableUsable(net, discarded, r, a);
    NoneBeforeFirst(net, r);
    if r.priority == FirstPriority(net) {
      var q := r.(addresses := Addresses(net, discarded, r));
      SameAddresses(net, discarded, q);
      assert q.Plain() == r && q in n.topQueue;
      var k :| 0 <= k < |n.topQueue| && n.topQueue[k] == q;
      ReachableServes(net, n, r, a, k);
      ServerEnds(net, n, k);
    } else {
      NextReaches(net, discarded, r, a);
      QueueUsedUp(net, n);
    }
    EndsStep(net, st);
  }

  lemma ReachableUsable(net: Net, discarded: set<string>, r: ResourceRecord, a: ResourceRecord)
    requires Answered(net) && Reachable(net, discarded, r, a)
    ensures Usable(net, discarded, r) && r.addresses == []
  {
    SameAddresses(net, discarded, r);
    assert a in Addresses(net, discarded, r);
  }

  lemma NextReaches(net: Net, discarded: set<string>, r: ResourceRecord, a: ResourceRecord)
    requires Answered(net) && Reachable(net, discarded, r, a) && r.priority > FirstPriority(net)
    ensures Ends(net, State(FirstPriority(net), [], discarded))
  {
    hide Ends, Serves, Addresses, AliveAbove;
    var st := State(FirstPriority(net), [], discarded);
    var n := QueueNext(net, st);
    assert r in n.topQueue;
    var k :| 0 <= k < |n.topQueue| && n.topQueue[k] == r;
    ReachableUsable(net, discarded, r, a);
    assert r.Plain() == r;
    ReachableServes(net, n, r, a, k);
    ServerEnds(net, n, k);
    EndsStep(net, st);
  }

  /** Each turn leaves copies of records in the queue. */
  lemma TurnCopies(net: Net, st: State)
    requires Answered(net) && Copies(net, st)
    ensures Copies(net, Turn(net, st).state) && Turn(net, st).state.discarded == st.discarded
  {
    hide Serves, Refill;
    if st.topQueue == [] {
      RefillCopies(net, st);
    } else {
      TryFrontCopies(net, st);
      var n := TryFront(net, st);
      if n.topQueue == [] { RefillCopies(net, n); }
    }
  }

  lemma TryFrontCopies(net: Net, st: State)
    requires Copies(net, st) && st.topQueue != []
    ensures Copies(net, TryFront(net, st))
  {
    hide Own;
    var q := st.topQueue[0];
    var last := q.(addresses := Served(net, st.discarded, q));
    assert q in st.topQueue && last.Plain() == q.Plain();
    OwnAgain(net, st.discarded);
    forall p | p in TryFront(net, st).topQueue ensures p in st.topQueue || (p == last && last.addresses != []) {}
  }

  lemma OwnAgain(net: Net, discarded: set<string>)
    ensures Served(net, discarded, Own(net)) in [[], Own(net).addresses]
  {
    var q := Own(net).addresses;
    assert q[1..] == [] && Pick(net, discarded, []) == [];
    assert q[1..] + [q[0]] == q;
  }

  lemma RefillCopies(net: Net, st: State)
    requires Answered(net) && Copies(net, st) && st.topQueue == []
    ensures Copies(net, Refill(net, st)) && Refill(net, st).discarded == st.discarded
  {
    hide Ready, Addresses;
    if IPLiteral(net.domain) {
      NothingNext(net, st);
    } else {
      var n := QueueNext(net, st);
      var m := InitTop(net, n);
      forall q | q in m.topQueue && n.topQueue == []
        ensures q.Plain() in net.records && forall a :: a in q.addresses ==> a in Answers(net, q)
      {
        ReadyMember(net, st.discarded, net.records, m.topPriority, q);
        AddressesAnswered(net, st.discarded, q);
      }
      assert forall q :: q in n.topQueue ==> q.Plain() == q;
    }
  }

  /** With nothing to find and a queue that fills again, no turn is the last. */
  lemma TurnGoesOn(net: Net, st: State)
    requires Answered(net) && Copies(net, st) && !Ending(net, st.discarded)
    ensures Turn(net, st).Running?
  {
    hide Copies, Refill;
    if st.topQueue == [] {
      RefillFinds(net, st);
    } else {
      NothingServes(net, st);
      if TryFront(net, st).topQueue == [] { RefillFinds(net, TryFront(net, st)); }
    }
  }

  lemma NothingServes(net: Net, st: State)
    requires Answered(net) && Copies(net, st) && !Ending(net, st.discarded) && st.topQueue != []
    ensures !Serves(net, st)
  {
    var q := st.topQueue[0];
    assert q in st.topQueue;
    if !IPLiteral(net.domain) {
      assert Answers(net, q) == Answers(net, q.Plain());
      forall a | a in Answers(net, q) && !q.HasExpired(net.now) ensures !Live(net, st.discarded, a) {
        assert !Reachable(net, st.discarded, q.Plain(), a);
      }
    }
  }

  lemma RefillFinds(net: Net, st: State)
    requires Answered(net) && (IPLiteral(net.domain) || FirstUp(net, st.discarded)) && st.topQueue == []
    ensures Refill(net, st).topQueue != []
  {
    hide Ready, Addresses;
    if IPLiteral(net.domain) {
    } else {
      var r :| Usable(net, st.discarded, r) && r.priority == FirstPriority(net);
      var n := QueueNext(net, st);
      var m := InitTop(net, n);
      NextNotBefore(net, st.topPriority);
      var q := r.(addresses := Addresses(net, st.discarded, r));
      SameAddresses(net, st.discarded, q);
      ReadyMember(net, st.discarded, net.records, m.topPriority, q);
      assert q.Plain() == r;
    }
  }

  lemma NextNotBefore(net: Net, top: int)
    requires Answered(net)
    ensures FirstPriority(net) <= NextPriority(net.records, top)
  {
    NextIsOne(net.records, top);
    NextIsAbove(net.records, top);
    if net.records != [] { assert net.records[0] in net.records; }
    forall r | r in net.records ensures FirstPriority(net) <= r.priority { NoneBeforeFirst(net, r); }
  }

  lemma {:induction false} NextIsOne(rs: seq<ResourceRecord>, top: int)
    ensures NextPriority(rs, top) == NO_PRIORITY || exists r :: r in rs && r.priority == NextPriority(rs, top)
  {
    if rs == [] {
    } else {
      NextIsOne(rs[1..], top);
      assert rs[0] in rs;
    }
  }

  lemma {:induction false} GoesOn(net: Net, st: State, n: nat)
    requires Answered(net) && Copies(net, st) && !Ending(net, st.discarded)
    ensures Turns(net, st, n).Running?
    decreases n
  {
    hide Copies, Ending, Turn;
    if n == 0 {
    } else {
      TurnGoesOn(net, st);
      TurnCopies(net, st);
      GoesOn(net, Turn(net, st).state, n - 1);
    }
  }

  /**
   * `cycleServers` ends exactly when some undiscarded address is not refused, or no record of the
   * first priority has an undiscarded address; for a domain given as an address, when that is
   * neither discarded nor refused.
   */
  lemma EndsIff(net: Net, st: State)
    requires Answered(net) && Copies(net, st)
    ensures Ends(net, st) <==> Ending(net, st.discarded)
  {
    hide Copies, Reachable, FirstUp;
    if !Ending(net, st.discarded) {
      forall n: nat ensures Turns(net, st, n).Running? { GoesOn(net, st, n); }
    } else if IPLiteral(net.domain) {
      OwnEnds(net, st);
    } else {
      var start := State(NO_PRIORITY, [], st.discarded);
      if SomeReachable(net, st.discarded) {
        var r, a :| Reachable(net, st.discarded, r, a);
        ReachableEnds(net, st.discarded, r, a);
      } else {
        StartingOver(net, st.discarded);
        EndsStep(net, start);
      }
      ComesAround(net, st.discarded, st.topPriority);
      QueueUsedUp(net, st);
    }
  }

  lemma OwnEnds(net: Net, st: State)
    requires Answered(net) && Copies(net, st) && IPLiteral(net.domain) && Ending(net, st.discarded)
    ensures Ends(net, st)
  {
    hide Ends;
    var own := Own(net);
    assert own.addresses[0] in own.addresses;
    if st.topQueue == [] {
      NothingNext(net, st);
      var n := Refill(net, st);
      assert n.topQueue == [own];
      assert Serves(net, n);
      EndsStep(net, n);
    } else {
      assert st.topQueue[0] in st.topQueue;
    }
    EndsStep(net, st);
  }

  lemma {:induction false} EndStays(net: Net, st: State, n: nat, more: nat)
    requires !Turns(net, st, n).Running?
    ensures Turns(net, st, n + more) == Turns(net, st, n)
    decreases n
  {
    hide Turn;
    if Turn(net, st).Running? {
      EndStays(net, Turn(net, st).state, n - 1, more);
    } else {
    }
  }

  lemma EndsOneWay(net: Net, st: State, e1: Turned, e2: Turned)
    requires EndsIn(net, st, e1) && EndsIn(net, st, e2)
    ensures e1 == e2
  {
    hide Turns;
    var n1: nat :| Turns(net, st, n1) == e1;
    var n2: nat :| Turns(net, st, n2) == e2;
    EndStays(net, st, n1, n2);
    EndStays(net, st, n2, n1);
  }

  lemma TurnDoesNotGiveUp(net: Net, st: State)
    requires Answered(net) && FirstUp(net, st.discarded)
    ensures !Turn(net, st).GaveUp? && Turn(net, st).state.discarded == st.discarded
  {
    hide Refill, Serves, FirstUp, Served;
    var m := st.(topQueue := []);
    RefillIs(net, m);
    RefillFinds(net, m);
  }

  lemma {:induction false} NeverGivesUp(net: Net, st: State, n: nat)
    requires Answered(net) && FirstUp(net, st.discarded)
    ensures !Turns(net, st, n).GaveUp?
    decreases n
  {
    hide Turn, FirstUp;
    if n == 0 {
    } else {
      TurnDoesNotGiveUp(net, st);
      if Turn(net, st).Running? { NeverGivesUp(net, Turn(net, st).state, n - 1); }
    }
  }

  /** A first call gives up, finds a server or goes on for ever, and which of the three, exactly. */
  lemma FirstCallEnds(net: Net, st: State)
    requires Answered(net) && !IPLiteral(net.domain) && Unused(st)
    ensures (exists m :: EndsIn(net, st, GaveUp(m))) <==> !FirstUp(net, st.discarded)
    ensures (exists m :: EndsIn(net, st, Found(m))) <==> FirstUp(net, st.discarded) && SomeReachable(net, st.discarded)
  {
    hide FirstUp, SomeReachable, Turn;
    EndsIff(net, st);
    if FirstUp(net, st.discarded) {
      forall n: nat ensures !Turns(net, st, n).GaveUp? { NeverGivesUp(net, st, n); }
      if SomeReachable(net, st.discarded) {
        var n: nat :| !Turns(net, st, n).Running?;
        assert EndsIn(net, st, Found(Turns(net, st, n).state));
      }
    } else {
      StartingOver(net, st.discarded);
      StartTurn(net, st);
      assert Turns(net, st, 1) == GaveUp(Refill(net, st));
      forall m ensures !EndsIn(net, st, Found(m)) {
        if EndsIn(net, st, Found(m)) { EndsOneWay(net, st, Found(m), GaveUp(Refill(net, st))); }
      }
    }
  }

  lemma StartTurn(net: Net, st: State)
    requires st.topQueue == []
    ensures Turn(net, st) == Refilled(net, st)
  {
  }

  /** So it does not, for any network of which the provider refuses all that is left. */
  lemma RefusedNeverEnds(net: Net, st: State)
    requires Answered(net) && !IPLiteral(net.domain) && Copies(net, st) && FirstUp(net, st.discarded)
    requires forall r, a :: r in net.records && net.now < r.expiryTime && a in Answers(net, r) ==>
      a.hostName in st.discarded + net.refused
    ensures !Ends(net, st)
  {
    hide FirstUp, Copies;
    EndsIff(net, st);
    assert !SomeReachable(net, st.discarded);
  }

  /** Whatever the provider refuses, the server found is an address that can be reached, of an unexpired record. */
  lemma {:induction false} FoundReachable(net: Net, st: State, n: nat)
    requires Answered(net) && Copies(net, st) && Turns(net, st, n).Found?
    ensures var m := Turns(net, st, n).state;
      && m.discarded == st.discarded && Copies(net, m) && HasServer(m) && Fit(net, st.discarded, Current(m))
      && (!IPLiteral(net.domain) ==> Reachable(net, st.discarded, CurrentMX(m).Plain(), Current(m)))
    decreases n
  {
    hide Copies;
    TurnCopies(net, st);
    if Turn(net, st).Running? {
      FoundReachable(net, Turn(net, st).state, n - 1);
    } else {
      FrontReachable(net, st);
    }
  }

  lemma FrontReachable(net: Net, st: State)
    requires Copies(net, st) && Serves(net, st)
    ensures var m := TryFront(net, st);
      && HasServer(m) && Fit(net, st.discarded, Current(m))
      && (!IPLiteral(net.domain) ==> Reachable(net, st.discarded, CurrentMX(m).Plain(), Current(m)))
  {
    var q, m := st.topQueue[0], TryFront(net, st);
    assert q in st.topQueue && CurrentMX(m) == q.(addresses := Served(net, st.discarded, q));
    assert Current(m) in CurrentMX(m).addresses && Answers(net, q) == Answers(net, q.Plain());
  }

  /** A result of `cycleServers` as the end of its loop. */
  function Result(r: (bool, State)): Turned {
    if r.0 then Found(r.1) else GaveUp(r.1)
  }

  lemma EndsInStep(net: Net, st: State, end: Turned)
    requires if Turn(net, st).Running? then EndsIn(net, Turn(net, st).state, end) else Turn(net, st) == end
    ensures EndsIn(net, st, end)
  {
    hide Turn;
    var t := Turn(net, st);
    if t.Running? {
      var n: nat :| Turns(net, t.state, n) == end;
      assert Turns(net, st, n + 1) == end;
    } else {
      assert Turns(net, st, 1) == t;
    }
  }

  /** With a provider that takes any server the loop ends, with the result of `Cycle`. */
  lemma CycleEndsIn(net: Net, st: State)
    requires Resolved(net) && Halts(net, st.discarded)
    ensures EndsIn(net, st, Result(Cycle(net, st)))
  {
    hide Refill, InitTop, Serves, EndsIn, Loop;
    RefillIs(net, st);
    if st.topQueue == [] {
      var m := Refill(net, st);
      if m.topQueue == [] { LoopEmpty(net, m); } else { LoopEndsIn(net, m); }
      EndsInStep(net, st, Result(Cycle(net, st)));
    } else {
      LoopEndsIn(net, st);
    }
  }

  lemma {:induction false} LoopEndsIn(net: Net, st: State)
    requires Resolved(net) && Halts(net, st.discarded) && st.topQueue != []
    ensures EndsIn(net, st, Result(Loop(net, st)))
    decreases if Serves(net, st) then 0 else 1, Above(net.records, st.topPriority), |st.topQueue|
  {
    hide Refill, InitTop, Serves, EndsIn;
    if !Serves(net, st) {
      var n := TryFront(net, st);
      RefillIs(net, n);
      if n.topQueue != [] {
        LoopEndsIn(net, n);
      } else {
        RefillAdvances(net, n);
        if Refill(net, n).topQueue != [] { LoopEndsIn(net, Refill(net, n)); }
      }
    }
    EndsInStep(net, st, Result(Loop(net, st)));
  }

  /** What a call comes to: the end of its loop, which is `Cycle` where that is defined. */
  ghost predicate Cycled(net: Net, st: State, ok: bool, end: State) {
    && EndsIn(net, st, Result((ok, end)))
    && (Resolved(net) && Halts(net, st.discarded) ==> (ok, end) == Cycle(net, st))
  }

  lemma EndCycled(net: Net, st: State, n: nat)
    requires !Turns(net, st, n).Running?
    ensures Cycled(net, st, Turns(net, st, n).Found?, Turns(net, st, n).state)
  {
    hide Turns, Cycle;
    if Resolved(net) && Halts(net, st.discarded) {
      CycleEndsIn(net, st);
      EndsOneWay(net, st, Turns(net, st, n), Result(Cycle(net, st)));
    }
  }
}
