/** Runs of a session: discards never repeat, servers take turns, and where failover falls short. */
module FailoverRuns {
  import opened ResourceRecords
  import opened Failover
  import opened FailoverLaws

  /** Discarding the server in use removes exactly that host, and keeps the invariant. */
  lemma DiscardCurrent(net: Net, st: State)
    requires Routed(net) && Settled(net, st) && InUse(net, st)
    ensures var d := Discard(st);
      && Settled(net, d)
      && d.discarded == st.discarded + {Current(st).hostName} && Current(st).hostName !in st.discarded
      && Current(st).hostName in Hosts(net)
  {
    var d := Discard(st);
    assert forall q :: q in st.topQueue ==> forall a :: a in Addresses(net, d.discarded, q) ==> a in Addresses(net, st.discarded, q);
    forall r | Usable(net, d.discarded, r) ensures Usable(net, st.discarded, r) {
      var all := Addresses(net, d.discarded, r);
      assert all[0] in all && all[0] in Addresses(net, st.discarded, r);
    }
    forall r | Usable(net, d.discarded, r) && Queued(st, r) ensures Queued(d, r) {
      var q :| q in st.topQueue && q.Plain() == r;
      assert q in d.topQueue;
    }
    assert Answers(net, CurrentMX(st)) == Answers(net, CurrentMX(st).Plain());
  }

  /** Every address name servers give for any of the records. */
  function Hosts(net: Net): set<string> {
    set r, a | r in net.records && a in Answers(net, r) :: a.hostName
  }

  /** What a session does: look for a server, or give up the one in use after a connection error. */
  datatype Action = Cycles | FailsOver

  function Step(net: Net, st: State, a: Action): State
    requires Routed(net)
  {
    Cycle(net, if a.FailsOver? then Discard(st) else st).1
  }

  /** The hosts discarded along a run. */
  function Discards(net: Net, st: State, run: seq<Action>): seq<string>
    requires Routed(net)
    decreases |run|
  {
    if run == [] then []
    else (if run[0].FailsOver? && HasServer(st) then [Current(st).hostName] else [])
         + Discards(net, Step(net, st, run[0]), run[1..])
  }

  function After(net: Net, st: State, run: seq<Action>): State
    requires Routed(net)
    decreases |run|
  {
    if run == [] then st else After(net, Step(net, st, run[0]), run[1..])
  }

  /** Between actions, a queue that is not empty has the server in use at its back. */
  ghost predicate Serving(net: Net, st: State) {
    Started(net, st) && (st.topQueue != [] ==> InUse(net, st))
  }

  lemma StepServes(net: Net, st: State, a: Action)
    requires Routed(net) && Serving(net, st)
    ensures Serving(net, Step(net, st, a))
    ensures Step(net, st, a).discarded ==
            st.discarded + (if a.FailsOver? && HasServer(st) then {Current(st).hostName} else {})
  {
    hide Settled, InUse, Cycle;
    var d := if a.FailsOver? then Discard(st) else st;
    if a.FailsOver? && st.topQueue != [] {
      StartedInUse(net, st);
      DiscardCurrent(net, st);
    }
    CycleFinds(net, d);
    CycleSafe(net, d);
  }

  lemma StartedInUse(net: Net, st: State)
    requires Serving(net, st) && st.topQueue != []
    ensures Settled(net, st) && InUse(net, st) && HasServer(st)
  {
  }

  /**
   * Over any run, the hosts discarded are addresses of the domain, none of them twice nor discarded
   * before, and together they are what the discard set has grown by; so there can be no more
   * failovers than addresses.
   */
  lemma {:induction false} DiscardsNeverRepeat(net: Net, st: State, run: seq<Action>)
    requires Routed(net) && Serving(net, st)
    ensures var v := Discards(net, st, run);
      && (forall i :: 0 <= i < |v| ==> v[i] in Hosts(net) && v[i] !in st.discarded)
      && (forall i, j :: 0 <= i < j < |v| ==> v[i] != v[j])
      && After(net, st, run).discarded == st.discarded + (set h | h in v)
      && |v| <= |Hosts(net) - st.discarded|
    ensures Serving(net, After(net, st, run))
    decreases |run|
  {
    hide Serving, Step, Hosts, HasServer, Current;
    if run == [] {
    } else {
      var n := Step(net, st, run[0]);
      StepServes(net, st, run[0]);
      DiscardsNeverRepeat(net, n, run[1..]);
      if run[0].FailsOver? && HasServer(st) {
        CurrentIsHost(net, st);
        OneMore(Current(st).hostName, Discards(net, n, run[1..]), st.discarded, Hosts(net));
      }
    }
  }

  lemma OneMore(h: string, v: seq<string>, discarded: set<string>, hosts: set<string>)
    requires h in hosts && h !in discarded && |v| <= |hosts - (discarded + {h})|
    requires forall i :: 0 <= i < |v| ==> v[i] in hosts && v[i] !in discarded + {h}
    requires forall i, j :: 0 <= i < j < |v| ==> v[i] != v[j]
    ensures var w := [h] + v;
      && |w| <= |hosts - discarded|
      && (forall i :: 0 <= i < |w| ==> w[i] in hosts && w[i] !in discarded)
      && (forall i, j :: 0 <= i < j < |w| ==> w[i] != w[j])
      && discarded + {h} + (set x | x in v) == discarded + (set x | x in w)
  {
    assert hosts - (discarded + {h}) == hosts - discarded - {h};
  }

  lemma CurrentIsHost(net: Net, st: State)
    requires Routed(net) && Serving(net, st) && HasServer(st)
    ensures Current(st).hostName in Hosts(net) && Current(st).hostName !in st.discarded
  {
    StartedInUse(net, st);
    DiscardCurrent(net, st);
  }

  /** A domain given as an address is served by itself on the first call ... */
  lemma IPLiteralServes(net: Net, st: State)
    requires Resolved(net) && Halts(net, st.discarded) && IPLiteral(net.domain) && Unused(st)
    ensures Cycle(net, st).0 && HasServer(Cycle(net, st).1) && Current(Cycle(net, st).1).hostName == net.domain
  {
    NothingNext(net, st);
    InitTopServes(net, st);
  }

  /** ... a connection error then leads to the state below ... */
  lemma IPLiteralReached(net: Net)
    requires Resolved(net) && IPLiteral(net.domain) && net.domain != ""
    ensures var st := State(NO_PRIORITY, [], {});
      Discard(Cycle(net, st).1) == InitTop(net, State(NO_PRIORITY, [], {net.domain}))
  {
    var a := MakeRecord(net.domain, 10, net.domain, 36000, net.now);
    var st := InitTop(net, State(NO_PRIORITY, [], {}));
    NothingNext(net, State(NO_PRIORITY, [], {}));
    InitTopServes(net, State(NO_PRIORITY, [], {}));
    assert st.topQueue == [a.(addresses := [a])] && Pick(net, {}, [a]) == [a];
    assert TryFront(net, st).topQueue == st.topQueue;
    assert {} + {net.domain} == {net.domain};
  }

  /** ... and once discarded the loop of `cycleServers` comes back to where it was, for ever. */
  lemma IPLiteralNeverEnds(net: Net, discarded: set<string>)
    requires Resolved(net) && !Halts(net, discarded)
    ensures var st := InitTop(net, State(NO_PRIORITY, [], discarded));
      && st.topQueue != [] && !Serves(net, st)
      && TryFront(net, st).topQueue == []
      && Refill(net, TryFront(net, st)) == st
  {
    NothingNext(net, State(NO_PRIORITY, [], discarded));
  }

  predicate AllServe(net: Net, st: State) {
    forall q :: q in st.topQueue ==> !q.HasExpired(net.now) && Served(net, st.discarded, q) != []
  }

  /** The state after n calls of `cycleServers`. */
  function Rounds(net: Net, st: State, n: nat): State
    requires Routed(net)
  {
    if n == 0 then st else Step(net, Rounds(net, st, n - 1), Cycles)
  }

  /** Round robin: while all queued records can serve, n calls use the first n of them in turn. */
  lemma {:induction false} RoundRobin(net: Net, st: State, n: nat)
    requires Routed(net) && AllServe(net, st) && n <= |st.topQueue|
    ensures var r := Rounds(net, st, n);
      && AllServe(net, r) && r.discarded == st.discarded
      && Plains(r.topQueue) == Plains(st.topQueue[n..] + st.topQueue[..n])
  {
    hide AllServe, Step, Plains, TryFront, Rounds;
    RoundsStep(net, st, n);
    if n > 0 {
      RoundRobin(net, st, n - 1);
      var r := Rounds(net, st, n - 1);
      var was := st.topQueue[n - 1..] + st.topQueue[..n - 1];
      PlainsLength(was);
      PlainsLength(r.topQueue);
      OneRound(net, r);
      RotatePlains(r.topQueue, TryFront(net, r).topQueue, was);
      assert st.topQueue[n..] + st.topQueue[..n] == was[1..] + [was[0]];
    } else {
      assert st.topQueue[0..] + st.topQueue[..0] == st.topQueue;
    }
  }

  lemma RoundsStep(net: Net, st: State, n: nat)
    requires Routed(net)
    ensures Rounds(net, st, n) == if n == 0 then st else Step(net, Rounds(net, st, n - 1), Cycles)
  {
  }

  lemma PlainsLength(queue: seq<ResourceRecord>)
    ensures |Plains(queue)| == |queue|
  {
  }

  lemma RotatePlains(queue: seq<ResourceRecord>, turned: seq<ResourceRecord>, was: seq<ResourceRecord>)
    requires |queue| > 0 && Plains(queue) == Plains(was) && |was| == |queue|
    requires exists q: ResourceRecord :: q.Plain() == queue[0].Plain() && turned == queue[1..] + [q]
    ensures Plains(turned) == Plains(was[1..] + [was[0]])
  {
    var next := was[1..] + [was[0]];
    forall i | 0 <= i < |turned| ensures turned[i].Plain() == next[i].Plain() {
      var k := if i + 1 < |was| then i + 1 else 0;
      assert Plains(queue)[k] == Plains(was)[k];
    }
  }

  lemma OneRound(net: Net, st: State)
    requires Routed(net) && AllServe(net, st) && st.topQueue != []
    ensures Step(net, st, Cycles) == TryFront(net, st) && AllServe(net, TryFront(net, st))
    ensures TryFront(net, st).discarded == st.discarded
    ensures exists q: ResourceRecord :: q.Plain() == st.topQueue[0].Plain() && TryFront(net, st).topQueue == st.topQueue[1..] + [q]
  {
    assert st.topQueue[0] in st.topQueue && Serves(net, st);
    var n := TryFront(net, st);
    assert n.topQueue == st.topQueue[1..] + [st.topQueue[0].(addresses := Served(net, st.discarded, st.topQueue[0]))];
    var last := n.topQueue[|n.topQueue| - 1];
    assert Live(net, st.discarded, last.addresses[|last.addresses| - 1]);
    assert last.addresses[|last.addresses| - 1] in last.addresses;
  }

  /** Addresses take turns: while one record serves and all its addresses are fit, n calls use the first n of them. */
  lemma {:induction false} AddressesTakeTurns(net: Net, st: State, n: nat)
    requires Routed(net) && |st.topQueue| == 1 && st.topQueue[0].hostName != "" && net.now < st.topQueue[0].expiryTime
    requires forall a :: a in st.topQueue[0].addresses ==> Fit(net, st.discarded, a)
    requires n <= |st.topQueue[0].addresses|
    ensures var mx := st.topQueue[0];
      Rounds(net, st, n) == st.(topQueue := [mx.(addresses := mx.addresses[n..] + mx.addresses[..n])])
  {
    hide Routed, Fit, Step, Rounds;
    var mx := st.topQueue[0];
    RoundsStep(net, st, n);
    if n == 0 {
      assert mx.addresses[0..] + mx.addresses[..0] == mx.addresses;
      assert st.topQueue == [mx];
    } else {
      AddressesTakeTurns(net, st, n - 1);
      var was := mx.addresses[n - 1..] + mx.addresses[..n - 1];
      forall a | a in was ensures Fit(net, st.discarded, a) {}
      OneTurn(net, Rounds(net, st, n - 1));
      assert was[1..] + [was[0]] == mx.addresses[n..] + mx.addresses[..n];
    }
  }

  /** One call with one record: its first address goes to the back. */
  lemma OneTurn(net: Net, st: State)
    requires Routed(net) && |st.topQueue| == 1 && st.topQueue[0].hostName != "" && net.now < st.topQueue[0].expiryTime
    requires st.topQueue[0].addresses != [] && Fit(net, st.discarded, st.topQueue[0].addresses[0])
    ensures var mx := st.topQueue[0];
      Step(net, st, Cycles) == st.(topQueue := [mx.(addresses := mx.addresses[1..] + [mx.addresses[0]])])
  {
    hide Refill, Routed;
    assert Serves(net, st);
    assert st.topQueue[1..] == [];
  }

  /** From the first call on: a domain with one record is served by its host's addresses in the order of the answer. */
  lemma AnswersTakeTurns(net: Net, n: nat)
    requires Routed(net) && |net.records| == 1 && net.now < net.records[0].expiryTime
    requires !IPLiteral(net.records[0].hostName) && net.records[0].hostName in net.answers
    requires 0 < n <= |net.answers[net.records[0].hostName]|
    ensures var st := Rounds(net, State(NO_PRIORITY, [], {}), n);
      HasServer(st) && Current(st) == net.answers[net.records[0].hostName][n - 1]
  {
    hide Rounds, Ready, Addresses, AliveAbove;
    var start, r := State(NO_PRIORITY, [], {}), net.records[0];
    var all := net.answers[r.hostName];
    var first := State(r.priority, [r.(addresses := all)], {});
    NothingDiscarded(net, r);
    OneReady(net, r);
    FirstRefill(net, start);
    assert r in net.records;
    forall a | a in all ensures Fit(net, {}, a) { assert r.hostName in net.answers; }
    SameFirst(net, start, first, n);
    AddressesTakeTurns(net, first, n);
    var turned := all[n..] + all[..n];
    assert turned[|turned| - 1] == all[n - 1];
  }

  lemma NothingDiscarded(net: Net, r: ResourceRecord)
    requires !IPLiteral(r.hostName) && r.hostName in net.answers
    ensures Addresses(net, {}, r) == net.answers[r.hostName]
  {
    KeptAll(net.answers[r.hostName]);
  }

  lemma {:induction false} KeptAll(addresses: seq<ResourceRecord>)
    ensures Kept(addresses, {}) == addresses
  {
    if addresses == [] {
    } else {
      KeptAll(addresses[1..]);
    }
  }

  lemma OneReady(net: Net, r: ResourceRecord)
    requires net.records == [r] && net.now < r.expiryTime && Addresses(net, {}, r) != []
    ensures Ready(net, {}, net.records, r.priority) == [r.(addresses := Addresses(net, {}, r))]
  {
    hide Addresses;
    assert net.records[1..] == [];
  }

  /** Calls from a start come to the same as calls once the queue has been filled. */
  lemma {:induction false} SameFirst(net: Net, start: State, first: State, n: nat)
    requires Routed(net) && n > 0 && start.topQueue == [] && Refill(net, start) == first && first.topQueue != []
    ensures Rounds(net, start, n) == Rounds(net, first, n)
  {
    hide Refill, Rounds, Loop;
    RoundsStep(net, start, n);
    RoundsStep(net, first, n);
    if n == 1 {
      RoundsStep(net, start, 0);
      RoundsStep(net, first, 0);
    } else {
      SameFirst(net, start, first, n - 1);
    }
  }

  function MX(priority: int, hostName: string, expiryTime: int): ResourceRecord {
    ResourceRecord("d.org", priority, hostName, 60, expiryTime, [])
  }

  function MX2Address(): ResourceRecord { ResourceRecord("mx2", 1, "10.0.0.2", 60, 100, []) }

  /** Only the host mx2 has an address. */
  function OneAddress(records: seq<ResourceRecord>): Net {
    Net("d.org", records, map["mx2" := [MX2Address()]], 0, {})
  }

  lemma OneAddressAnswers(records: seq<ResourceRecord>, priority: int, expiryTime: int)
    ensures !IPLiteral(OneAddress(records).domain)
    ensures Addresses(OneAddress(records), {}, MX(priority, "mx1", expiryTime)) == []
    ensures Addresses(OneAddress(records), {}, MX(priority, "mx2", expiryTime)) == [MX2Address()]
  {
    assert "d.org"[0] == 'd' && "mx1"[0] == 'm' && "mx2"[0] == 'm';
    assert Kept([MX2Address()], {}) == [MX2Address()];
  }

  /** A first call gives up although the second MX record would do. */
  lemma FirstCallGivesUp()
    ensures var net := OneAddress([MX(10, "mx1", 100), MX(20, "mx2", 100)]);
      Routed(net) && !Cycle(net, State(NO_PRIORITY, [], {})).0 && Usable(net, {}, MX(20, "mx2", 100))
  {
    hide Addresses, IPLiteral, Cycle;
    var records := [MX(10, "mx1", 100), MX(20, "mx2", 100)];
    OneAddressAnswers(records, 10, 100);
    OneAddressAnswers(records, 20, 100);
    CycleFinds(OneAddress(records), State(NO_PRIORITY, [], {}));
  }

  /**
   * The records of several priorities queued together take turns: mail goes to preference 30
   * while the record of preference 20 is still usable.
   */
  lemma PreferenceIsLost()
    ensures var net := OneAddress([MX(10, "mx1", 100), MX(20, "mx2", 100), MX(30, "mx2", 100)]);
      var start := State(NO_PRIORITY, [], {});
      && Routed(net) && Started(net, start)
      && var calls := Rounds(net, start, 3);
         calls.topQueue != [] && CurrentMX(calls).priority == 30 && Usable(net, calls.discarded, MX(20, "mx2", 100))
  {
    hide IPLiteral, Cycle, Addresses;
    var net, start := Three(), State(NO_PRIORITY, [], {});
    OneAddressAnswers(net.records, 20, 100);
    FirstCall();
    SecondCall();
    ThirdCall();
    assert Rounds(net, start, 1) == State(10, [], {});
    assert Rounds(net, start, 2) == State(20, [MX(30, "mx2", 100), Using(20)], {});
  }

  function Three(): Net {
    OneAddress([MX(10, "mx1", 100), MX(20, "mx2", 100), MX(30, "mx2", 100)])
  }

  function Using(priority: int): ResourceRecord {
    MX(priority, "mx2", 100).(addresses := [MX2Address()])
  }

  lemma FirstCall()
    ensures Routed(Three()) && Cycle(Three(), State(NO_PRIORITY, [], {})) == (false, State(10, [], {}))
  {
    hide Addresses, IPLiteral;
    var net, st := Three(), State(NO_PRIORITY, [], {});
    OneAddressAnswers(net.records, 10, 100);
    NothingNext(net, st);
    NoneReady(net, {}, net.records[1..], 10);
  }

  lemma SecondCall()
    ensures Routed(Three())
    ensures Cycle(Three(), State(10, [], {})) == (true, State(20, [MX(30, "mx2", 100), Using(20)], {}))
  {
    hide Addresses, IPLiteral, AliveAbove, InitTop, Above, Loop, QueueNext;
    var net, st := Three(), State(10, [], {});
    OneAddressAnswers(net.records, 20, 100);
    NextTwo();
    ServesNow(net, QueueNext(net, st), 20);
    assert [MX(20, "mx2", 100), MX(30, "mx2", 100)][1..] + [Using(20)] == [MX(30, "mx2", 100), Using(20)];
  }

  /** The records of both later priorities are queued together. */
  lemma NextTwo()
    ensures QueueNext(Three(), State(10, [], {})) == State(20, [MX(20, "mx2", 100), MX(30, "mx2", 100)], {})
  {
    hide Addresses, AliveAbove;
    var rs := Three().records;
    assert rs[1..][1..] == rs[2..] && rs[2..][1..] == [];
    AliveAboveStep(Three(), {}, rs, 10);
    AliveAboveStep(Three(), {}, rs[1..], 10);
    AliveAboveStep(Three(), {}, rs[2..], 10);
    AliveAboveStep(Three(), {}, [], 10);
  }

  lemma ThirdCall()
    ensures Routed(Three())
    ensures Cycle(Three(), State(20, [MX(30, "mx2", 100), Using(20)], {})) == (true, State(20, [Using(20), Using(30)], {}))
  {
    hide Addresses, IPLiteral, InitTop, Above;
    OneAddressAnswers(Three().records, 30, 100);
    ServesNow(Three(), State(20, [MX(30, "mx2", 100), Using(20)], {}), 30);
    assert [MX(30, "mx2", 100), Using(20)][1..] + [Using(30)] == [Using(20), Using(30)];
  }

  /** A record at the front that can serve is used at once. */
  lemma ServesNow(net: Net, st: State, priority: int)
    requires Routed(net) && st.topQueue != [] && st.discarded == {} && net.now == 0
    requires st.topQueue[0] == MX(priority, "mx2", 100)
    requires Addresses(net, {}, MX(priority, "mx2", 100)) == [MX2Address()]
    ensures Loop(net, st) == (true, st.(topQueue := st.topQueue[1..] + [Using(priority)]))
  {
    hide Addresses, Above, InitTop;
    assert Pick(net, {}, [MX2Address()]) == [MX2Address()];
  }
}
