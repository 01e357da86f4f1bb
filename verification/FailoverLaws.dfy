/** What one call of `cycleServers` keeps and promises: an exhaustive search in order of preference. */
module FailoverLaws {
  import opened Text
  import opened ResourceRecords
  import opened Failover

  /** A record through which mail can still go. */
  predicate Usable(net: Net, discarded: set<string>, r: ResourceRecord) {
    r in net.records && net.now < r.expiryTime && Addresses(net, discarded, r) != []
  }

  /** Some record of the first priority is usable. */
  ghost predicate FirstUp(net: Net, discarded: set<string>) {
    exists r :: Usable(net, discarded, r) && r.priority == FirstPriority(net)
  }

  /** The first usable record of a list. */
  function FirstUsable(net: Net, discarded: set<string>, rs: seq<ResourceRecord>): (r: Option<ResourceRecord>)
    ensures r.None? <==> forall x :: x in rs ==> !Usable(net, discarded, x)
    ensures r.Some? ==> Usable(net, discarded, r.value) && r.value in rs
  {
    if rs == [] then None
    else if Usable(net, discarded, rs[0]) then Some(rs[0])
    else FirstUsable(net, discarded, rs[1..])
  }

  function Plains(queue: seq<ResourceRecord>): (r: seq<ResourceRecord>)
    ensures |r| == |queue| && forall i :: 0 <= i < |r| ==> r[i] == queue[i].Plain()
  {
    if queue == [] then [] else [queue[0].Plain()] + Plains(queue[1..])
  }

  lemma FirstUsableCons(net: Net, discarded: set<string>, x: ResourceRecord, rest: seq<ResourceRecord>)
    ensures FirstUsable(net, discarded, [x] + rest) ==
            if Usable(net, discarded, x) then Some(x) else FirstUsable(net, discarded, rest)
  {
    hide Usable;
    assert ([x] + rest)[1..] == rest;
  }

  lemma PlainsCons(x: ResourceRecord, rest: seq<ResourceRecord>)
    ensures Plains([x] + rest) == [x.Plain()] + Plains(rest)
  {
    assert ([x] + rest)[1..] == rest;
  }

  /**
   * The MX record that mail should go to next: the first usable one in the queue, or else the one
   * of lowest preference value of all.
   */
  function Choice(net: Net, st: State): Option<ResourceRecord> {
    var queued := FirstUsable(net, st.discarded, Plains(st.topQueue));
    if queued.Some? then queued else FirstUsable(net, st.discarded, net.records)
  }

  /** A queued copy of an MX record, holding none or at least all of its undiscarded addresses. */
  ghost predicate Entry(net: Net, discarded: set<string>, q: ResourceRecord) {
    && q.Plain() in net.records
    && (forall a :: a in q.addresses ==> a in Answers(net, q))
    && (q.addresses != [] ==> forall a :: a in Addresses(net, discarded, q) ==> a in q.addresses)
  }

  ghost predicate Queued(st: State, r: ResourceRecord) {
    exists q :: q in st.topQueue && q.Plain() == r
  }

  /**
   * The invariant: the queue holds copies of MX records, and every usable record is among them or
   * has a priority above the top one. At the first priority only records of that priority are
   * queued; beyond it a queue that is not empty holds all usable records.
   */
  ghost predicate Settled(net: Net, st: State) {
    && FirstPriority(net) <= st.topPriority
    && (forall q :: q in st.topQueue ==> Entry(net, st.discarded, q))
    && (st.topPriority == FirstPriority(net) ==> forall q :: q in st.topQueue ==> q.priority == FirstPriority(net))
    && (forall r :: Usable(net, st.discarded, r) ==> r.priority > st.topPriority || Queued(st, r))
    && (st.topQueue != [] && st.topPriority != FirstPriority(net) ==> forall r :: Usable(net, st.discarded, r) ==> Queued(st, r))
  }

  predicate Unused(st: State) {
    st.topPriority == NO_PRIORITY && st.topQueue == []
  }

  /** Resolved network, and a domain that is a host name. */
  ghost predicate Routed(net: Net) {
    Resolved(net) && !IPLiteral(net.domain)
  }

  /** A queued record serves exactly when the record it copies is usable. */
  lemma ServesIffUsable(net: Net, st: State)
    requires Routed(net) && Settled(net, st) && st.topQueue != []
    ensures Serves(net, st) <==> Usable(net, st.discarded, st.topQueue[0].Plain())
    ensures Serves(net, st) ==> Entry(net, st.discarded, st.topQueue[0].(addresses := Served(net, st.discarded, st.topQueue[0])))
  {
    var q := st.topQueue[0];
    assert q in st.topQueue;
    assert Answers(net, q) == Answers(net, q.Plain());
    var all := Addresses(net, st.discarded, q);
    if all != [] {
      assert all[0] in all;
      assert Live(net, st.discarded, all[0]);
    }
    forall a | a in q.addresses && Live(net, st.discarded, a) ensures a in all {}
  }

  /** One attempt keeps the invariant. */
  lemma TryFrontSettled(net: Net, st: State)
    requires Routed(net) && Settled(net, st) && st.topQueue != []
    ensures Settled(net, TryFront(net, st))
    ensures TryFront(net, st).topPriority == st.topPriority && TryFront(net, st).discarded == st.discarded
  {
    hide Serves, Usable, Entry;
    ServesIffUsable(net, st);
    var n, q := TryFront(net, st), st.topQueue[0];
    assert st.topQueue == [q] + st.topQueue[1..];
    forall r | Usable(net, st.discarded, r) && Queued(st, r) ensures Queued(n, r) {
      var p :| p in st.topQueue && p.Plain() == r;
      if p in st.topQueue[1..] {
        assert p in n.topQueue;
      } else {
        var last := q.(addresses := Served(net, st.discarded, q));
        assert last in n.topQueue && last.Plain() == r;
      }
    }
  }

  /** With nothing queued every usable record is above the top priority, so that all are queued now. */
  lemma QueueNextSettled(net: Net, st: State)
    requires Routed(net) && Settled(net, st) && st.topQueue == []
    ensures var n := QueueNext(net, st);
      && Settled(net, n)
      && (n.topQueue != [] ==> Choice(net, n) == Choice(net, st))
      && (n.topQueue == [] ==> Choice(net, st) == None)
  {
    hide Addresses, FirstUsable, Plains, AliveAbove, NextPriority;
    var n := QueueNext(net, st);
    assert n.topQueue == AliveAbove(net.records, net.now, st.topPriority);
    forall r | Usable(net, st.discarded, r) ensures r.priority > st.topPriority && Queued(n, r) {
      assert !Queued(st, r);
      assert r in n.topQueue && r.Plain() == r;
    }
    NextBeyondFirst(net, st.topPriority);
    PlainsOfPlain(n.topQueue);
    FirstUsableNone(net, st.discarded);
    FirstUsableAbove(net, st.discarded, net.records, st.topPriority);
  }

  lemma NextBeyondFirst(net: Net, top: int)
    requires Resolved(net) && FirstPriority(net) <= top
    ensures var next := NextPriority(net.records, top);
      FirstPriority(net) <= next && (FirstPriority(net) == next ==> net.records == [])
  {
    NextIsAbove(net.records, top);
    if net.records != [] { assert net.records[0] in net.records; }
  }

  lemma FirstUsableNone(net: Net, discarded: set<string>)
    ensures FirstUsable(net, discarded, []) == None && Plains([]) == []
  {
  }

  lemma {:induction false} PlainsOfPlain(rs: seq<ResourceRecord>)
    requires forall r :: r in rs ==> r.addresses == []
    ensures Plains(rs) == rs
  {
    if rs == [] {
    } else {
      PlainsOfPlain(rs[1..]);
    }
  }

  lemma {:induction false} FirstUsableAbove(net: Net, discarded: set<string>, rs: seq<ResourceRecord>, top: int)
    requires forall r :: r in rs && Usable(net, discarded, r) ==> r.priority > top
    ensures FirstUsable(net, discarded, AliveAbove(rs, net.now, top)) == FirstUsable(net, discarded, rs)
  {
    hide Usable, FirstUsable, AliveAbove;
    AliveAboveStep(net, discarded, rs, top);
    if rs == [] {
    } else {
      var rest := AliveAbove(rs[1..], net.now, top);
      FirstUsableAbove(net, discarded, rs[1..], top);
      FirstUsableCons(net, discarded, rs[0], rs[1..]);
      FirstUsableCons(net, discarded, rs[0], rest);
      assert rs == [rs[0]] + rs[1..] && rs[0] in rs;
    }
  }

  lemma AliveAboveStep(net: Net, discarded: set<string>, rs: seq<ResourceRecord>, top: int)
    ensures rs == [] ==> AliveAbove(rs, net.now, top) == rs
    ensures rs != [] ==> (
      var rest := AliveAbove(rs[1..], net.now, top);
      AliveAbove(rs, net.now, top) == if rs[0].priority > top && !rs[0].HasExpired(net.now) then [rs[0]] + rest else rest)
    ensures rs != [] && Usable(net, discarded, rs[0]) ==> !rs[0].HasExpired(net.now)
  {
  }

  /** Once settled, starting over finds nothing: whatever is usable is still ahead. */
  lemma InitTopFindsNothing(net: Net, st: State)
    requires Routed(net) && Settled(net, st) && st.topQueue == []
    ensures InitTop(net, st).topQueue == [] && Settled(net, InitTop(net, st))
  {
    hide Ready, Addresses;
    var n := InitTop(net, st);
    forall q ensures q !in n.topQueue {
      ReadyMember(net, st.discarded, net.records, n.topPriority, q);
      assert !Queued(st, q.Plain());
      SameAddresses(net, st.discarded, q);
    }
    SomeMember(n.topQueue);
    forall r | Usable(net, st.discarded, r) ensures r.priority > n.topPriority {
      assert !Queued(st, r);
    }
  }

  lemma SameAddresses(net: Net, discarded: set<string>, q: ResourceRecord)
    ensures Addresses(net, discarded, q) == Addresses(net, discarded, q.Plain())
  {
  }

  /** The very first queueing settles the scheduler: the first priority's usable records are queued. */
  lemma FirstRefillSettles(net: Net, st: State)
    requires Routed(net) && Unused(st)
    ensures Settled(net, Refill(net, st))
    ensures var n := Refill(net, st);
      && n.topPriority == FirstPriority(net) && n.discarded == st.discarded
      && (n.topQueue == [] || Serves(net, n))
      && forall q :: q in n.topQueue ==> q.priority == FirstPriority(net)
  {
    hide Ready, Addresses, Refill, InitTop, Serves;
    var n := Refill(net, st);
    FirstRefill(net, st);
    InitTopServesIf(net, st);
    forall q ensures q in n.topQueue <==>
        && q.Plain() in net.records && q.priority <= n.topPriority && !q.HasExpired(net.now)
        && q.addresses == Addresses(net, st.discarded, q) && q.addresses != []
    {
      ReadyMember(net, st.discarded, net.records, n.topPriority, q);
    }
    forall q | q in n.topQueue ensures q.priority == n.topPriority && Entry(net, st.discarded, q) {
      NoneBeforeFirst(net, q.Plain());
      AddressesAnswered(net, st.discarded, q);
    }
    forall r | Usable(net, st.discarded, r) ensures r.priority > n.topPriority || Queued(n, r) {
      NoneBeforeFirst(net, r);
      var q := r.(addresses := Addresses(net, st.discarded, r));
      assert q.Plain() == r;
      SameAddresses(net, st.discarded, q);
      assert r.priority == n.topPriority ==> q in n.topQueue;
    }
  }

  lemma NoneBeforeFirst(net: Net, r: ResourceRecord)
    requires Answered(net) && r in net.records
    ensures r.priority >= FirstPriority(net)
  {
    var i :| 0 <= i < |net.records| && net.records[i] == r;
  }

  lemma AddressesAnswered(net: Net, discarded: set<string>, q: ResourceRecord)
    ensures forall a :: a in Addresses(net, discarded, q) ==> a in Answers(net, q)
  {
  }

  lemma SomeMember<T>(s: seq<T>)
    ensures s != [] ==> exists x :: x in s
  {
    if s != [] { assert s[0] in s; }
  }

  /** At the sentinel there is no next priority. */
  lemma NothingNext(net: Net, st: State)
    requires Answered(net) && Unused(st)
    ensures QueueNext(net, st) == st
  {
    NextIsAbove(net.records, st.topPriority);
    SomeMember(AliveAbove(net.records, net.now, NO_PRIORITY));
  }

  lemma FirstRefill(net: Net, st: State)
    requires Routed(net) && Unused(st)
    ensures Refill(net, st) == InitTop(net, st)
    ensures Refill(net, st) == State(FirstPriority(net), Ready(net, st.discarded, net.records, FirstPriority(net)), st.discarded)
  {
    hide Ready;
    NothingNext(net, st);
  }

  lemma InitTopServesIf(net: Net, st: State)
    requires Routed(net) && st.topQueue == []
    ensures InitTop(net, st).topQueue == [] || Serves(net, InitTop(net, st))
  {
    if InitTop(net, st).topQueue != [] { InitTopServes(net, st); }
  }

  lemma RefillIs(net: Net, st: State)
    ensures var m := QueueNext(net, st);
      && Refill(net, st) == (if m.topQueue != [] then m else InitTop(net, m))
      && m.discarded == st.discarded && InitTop(net, m).discarded == st.discarded
  {
  }

  /** Moving on loses nothing: the choice stays the same, and with an empty queue there is none. */
  lemma RefillChoice(net: Net, st: State)
    requires Routed(net) && Settled(net, st) && st.topQueue == []
    ensures var n := Refill(net, st);
      && Settled(net, n) && n.discarded == st.discarded
      && (n.topQueue != [] ==> Choice(net, n) == Choice(net, st))
      && (n.topQueue == [] ==> Choice(net, st) == None)
  {
    hide Settled, Choice, Refill, InitTop, QueueNext;
    QueueNextSettled(net, st);
    RefillIs(net, st);
    if QueueNext(net, st).topQueue == [] { InitTopFindsNothing(net, QueueNext(net, st)); }
  }

  /** The loop uses the record of choice, fails only when there is none, and leaves the scheduler settled. */
  lemma {:induction false} LoopFinds(net: Net, st: State)
    requires Routed(net) && Settled(net, st) && st.topQueue != []
    ensures var r := Loop(net, st);
      && (r.0 <==> Choice(net, st).Some?)
      && (r.0 ==> r.1.topQueue != [] && CurrentMX(r.1).Plain() == Choice(net, st).value)
      && Settled(net, r.1) && r.1.discarded == st.discarded
    decreases if Serves(net, st) then 0 else 1, Above(net.records, st.topPriority), |st.topQueue|
  {
    hide Settled, Serves, Usable, Refill, TryFront, Choice;
    var n := TryFront(net, st);
    TryFrontSettled(net, st);
    FrontChosen(net, st);
    if !Serves(net, st) {
      if n.topQueue != [] {
        LoopFinds(net, n);
      } else {
        RefillChoice(net, n);
        RefillAdvances(net, n);
        if Refill(net, n).topQueue != [] { LoopFinds(net, Refill(net, n)); }
      }
    }
  }

  lemma FrontChosen(net: Net, st: State)
    requires Routed(net) && Settled(net, st) && st.topQueue != []
    ensures var n := TryFront(net, st);
      if Serves(net, st) then n.topQueue != [] && Choice(net, st) == Some(CurrentMX(n).Plain())
      else n.topQueue == st.topQueue[1..] && Choice(net, st) == Choice(net, n)
  {
    hide Usable, Settled, Entry;
    ServesIffUsable(net, st);
    var ps := Plains(st.topQueue);
    assert ps[0] == st.topQueue[0].Plain() && ps[1..] == Plains(st.topQueue[1..]);
  }

  /** However the loop ends: with a live server in use, or with an empty queue. */
  lemma {:induction false} LoopServes(net: Net, st: State)
    requires Resolved(net) && Halts(net, st.discarded)
    ensures var r := Loop(net, st);
      && (r.0 ==> HasServer(r.1) && Live(net, r.1.discarded, Current(r.1)) && !CurrentMX(r.1).HasExpired(net.now))
      && (!r.0 ==> r.1.topQueue == [])
    decreases if Serves(net, st) then 0 else 1, Above(net.records, st.topPriority), |st.topQueue|
  {
    hide Refill, InitTop;
    if st.topQueue != [] && !Serves(net, st) {
      var n := TryFront(net, st);
      if n.topQueue != [] {
        LoopServes(net, n);
      } else {
        RefillIs(net, n);
        RefillAdvances(net, n);
        if Refill(net, n).topQueue != [] { LoopServes(net, Refill(net, n)); }
      }
    }
  }

  /** The session has not looked for a server yet, or the invariant holds. */
  ghost predicate Started(net: Net, st: State) {
    Unused(st) || Settled(net, st)
  }

  /** On a first call only records of the first priority are looked at. */
  function CycleChoice(net: Net, st: State): Option<ResourceRecord> {
    var first := FirstUsable(net, st.discarded, net.records);
    if !Unused(st) then Choice(net, st)
    else if first.Some? && first.value.priority == FirstPriority(net) then first
    else None
  }

  /**
   * `cycleServers` makes the record of choice current, fails exactly when there is none, and keeps
   * the invariant, which its first call establishes.
   */
  lemma CycleFinds(net: Net, st: State)
    requires Routed(net) && Started(net, st)
    ensures var r := Cycle(net, st);
      && (r.0 <==> CycleChoice(net, st).Some?)
      && (r.0 ==> r.1.topQueue != [] && CurrentMX(r.1).Plain() == CycleChoice(net, st).value)
      && Settled(net, r.1) && r.1.discarded == st.discarded
  {
    hide Usable, Refill, InitTop, Serves, Loop, Settled, Choice;
    if Unused(st) {
      FirstRefillSettles(net, st);
      var n := Refill(net, st);
      FirstChoice(net, st);
      if n.topQueue == [] { LoopEmpty(net, n); } else { LoopFinds(net, n); }
    } else if st.topQueue == [] {
      RefillChoice(net, st);
      var n := Refill(net, st);
      if n.topQueue == [] { LoopEmpty(net, n); } else { LoopFinds(net, n); }
    } else {
      LoopFinds(net, st);
    }
  }

  lemma LoopEmpty(net: Net, st: State)
    requires Resolved(net) && Halts(net, st.discarded) && st.topQueue == []
    ensures Loop(net, st) == (false, st)
  {
  }

  /** On the first call the queue holds the usable records of the first priority, in order. */
  lemma FirstChoice(net: Net, st: State)
    requires Routed(net) && Unused(st)
    ensures var n := Refill(net, st);
      if n.topQueue == [] then CycleChoice(net, st) == None else CycleChoice(net, st) == Choice(net, n)
  {
    hide Usable, Ready, Refill, FirstUsable, Plains;
    FirstRefill(net, st);
    ReadyFirst(net, st.discarded, net.records, FirstPriority(net));
    var first := FirstUsable(net, st.discarded, net.records);
    if first.Some? {
      FirstUsableIn(net, st.discarded, net.records);
      NoneBeforeFirst(net, first.value);
    }
  }

  lemma FirstUsableIn(net: Net, discarded: set<string>, rs: seq<ResourceRecord>)
    ensures var first := FirstUsable(net, discarded, rs); first.Some? ==> first.value in rs
  {
  }

  lemma {:induction false} ReadyFirst(net: Net, discarded: set<string>, rs: seq<ResourceRecord>, top: int)
    requires forall r :: r in rs ==> r in net.records && r.addresses == []
    requires forall i, j :: 0 <= i < j < |rs| ==> rs[i].priority <= rs[j].priority
    ensures var first, ready := FirstUsable(net, discarded, rs), Ready(net, discarded, rs, top);
      && FirstUsable(net, discarded, Plains(ready)) == (if first.Some? && first.value.priority <= top then first else None)
      && (ready != [] ==> first.Some? && first.value.priority <= top)
  {
    hide Usable, FirstUsable, Plains, Ready, Addresses;
    FirstUsableNone(net, discarded);
    ReadyStep(net, discarded, rs, top);
    if rs == [] {
    } else {
      var rest := Ready(net, discarded, rs[1..], top);
      ReadyFirst(net, discarded, rs[1..], top);
      assert rs[0] in rs && rs == [rs[0]] + rs[1..];
      FirstUsableCons(net, discarded, rs[0], rs[1..]);
      if rs[0].priority <= top {
        FirstUsableCons(net, discarded, rs[0], Plains(rest));
        PlainsCons(rs[0].(addresses := Addresses(net, discarded, rs[0])), rest);
      } else {
        NoneReady(net, discarded, rs, top);
        FirstUsableIn(net, discarded, rs[1..]);
      }
    }
  }

  /** Past the top priority no record is queued. */
  lemma {:induction false} NoneReady(net: Net, discarded: set<string>, rs: seq<ResourceRecord>, top: int)
    requires forall k :: 0 <= k < |rs| ==> rs[k].priority > top
    ensures Ready(net, discarded, rs, top) == []
  {
    if rs == [] {
    } else {
      NoneReady(net, discarded, rs[1..], top);
    }
  }

  lemma ReadyStep(net: Net, discarded: set<string>, rs: seq<ResourceRecord>, top: int)
    requires forall r :: r in rs ==> r in net.records
    ensures rs == [] ==> Ready(net, discarded, rs, top) == rs
    ensures rs != [] ==> (
      var rest := Ready(net, discarded, rs[1..], top);
      Ready(net, discarded, rs, top) ==
      if rs[0].priority <= top && Usable(net, discarded, rs[0])
      then [rs[0].(addresses := Addresses(net, discarded, rs[0]))] + rest
      else rest)
  {
    hide Addresses;
  }

  /** Safety: the server found is a live address that name servers give for a usable record. */
  lemma CycleSafe(net: Net, st: State)
    requires Routed(net) && Started(net, st)
    ensures var r := Cycle(net, st);
      && (!r.0 ==> r.1.topQueue == [])
      && (r.0 ==> InUse(net, r.1))
  {
    hide Refill, InitTop, Serves, Loop, Addresses, CycleChoice;
    CycleFinds(net, st);
    RefillIs(net, st);
    LoopServes(net, if st.topQueue == [] then Refill(net, st) else st);
    var r := Cycle(net, st);
    if r.0 {
      assert CurrentMX(r.1) in r.1.topQueue && Current(r.1) in CurrentMX(r.1).addresses;
      AddressesHold(net, st.discarded, CurrentMX(r.1), Current(r.1));
    }
  }

  /** No usable record has a lower preference value. */
  ghost predicate Lowest(net: Net, discarded: set<string>, priority: int) {
    forall x :: Usable(net, discarded, x) ==> priority <= x.priority
  }

  /**
   * The server found is of the lowest preference value among usable records (section 5.1 of RFC
   * 5321) exactly when the first usable record in the queue is, if there is one; so it is with an
   * empty queue and at the first priority.
   */
  lemma CyclePrefersIff(net: Net, st: State)
    requires Routed(net) && Started(net, st) && Cycle(net, st).0
    ensures var n, queued := Cycle(net, st).1, FirstUsable(net, st.discarded, Plains(st.topQueue));
      && n.topQueue != []
      && (Lowest(net, st.discarded, CurrentMX(n).priority) <==> queued.None? || Lowest(net, st.discarded, queued.value.priority))
    ensures st.topQueue == [] || st.topPriority == FirstPriority(net) ==>
      Lowest(net, st.discarded, CurrentMX(Cycle(net, st).1).priority)
  {
    hide Cycle, Usable, FirstUsable, Plains;
    CycleFinds(net, st);
    var n := Cycle(net, st).1;
    FirstIsLowest(net, st.discarded, net.records);
    FirstUsableNone(net, st.discarded);
    assert CurrentMX(n).priority == CurrentMX(n).Plain().priority;
    var ps := Plains(st.topQueue);
    FirstUsableIn(net, st.discarded, ps);
    forall x | Usable(net, st.discarded, x) ensures x in net.records && FirstPriority(net) <= x.priority {
      UsableIn(net, st.discarded, x);
      NoneBeforeFirst(net, x);
    }
    PlainsHave(st.topQueue);
  }

  lemma UsableIn(net: Net, discarded: set<string>, r: ResourceRecord)
    requires Usable(net, discarded, r)
    ensures r in net.records
  {
  }

  lemma PlainsHave(queue: seq<ResourceRecord>)
    ensures forall p :: p in Plains(queue) ==> exists q :: q in queue && q.Plain() == p
  {
    forall p | p in Plains(queue) ensures exists q :: q in queue && q.Plain() == p {
      var i :| 0 <= i < |queue| && Plains(queue)[i] == p;
      assert queue[i] in queue;
    }
  }

  lemma {:induction false} FirstIsLowest(net: Net, discarded: set<string>, rs: seq<ResourceRecord>)
    requires forall i, j :: 0 <= i < j < |rs| ==> rs[i].priority <= rs[j].priority
    ensures var first := FirstUsable(net, discarded, rs);
      first.Some? ==> forall x :: x in rs && Usable(net, discarded, x) ==> first.value.priority <= x.priority
  {
    hide Usable;
    if rs == [] {
    } else {
      FirstIsLowest(net, discarded, rs[1..]);
    }
  }

  /** The server in use is an undiscarded address that name servers give for a usable record. */
  ghost predicate InUse(net: Net, st: State) {
    && HasServer(st)
    && Fit(net, st.discarded, Current(st))
    && Current(st) in Answers(net, CurrentMX(st))
    && Usable(net, st.discarded, CurrentMX(st).Plain())
  }

  lemma AddressesHold(net: Net, discarded: set<string>, mx: ResourceRecord, a: ResourceRecord)
    requires a in Answers(net, mx) && a.hostName !in discarded
    requires mx.Plain() in net.records && !mx.HasExpired(net.now)
    ensures Usable(net, discarded, mx.Plain())
  {
    SameAddresses(net, discarded, mx);
    assert a in Addresses(net, discarded, mx);
  }

  /**
   * Exhaustive: once a first call has been made, failure means that every address of every
   * unexpired record has been discarded.
   */
  lemma Exhaustive(net: Net, st: State)
    requires Routed(net) && Settled(net, st) && !Unused(st)
    ensures Cycle(net, st).0 <==> exists r, a ::
      r in net.records && net.now < r.expiryTime && a in Answers(net, r) && a.hostName !in st.discarded
  {
    CycleFinds(net, st);
    hide Settled, Cycle;
    forall r | r in net.records && net.now < r.expiryTime
      ensures Usable(net, st.discarded, r) <==> exists a :: a in Answers(net, r) && a.hostName !in st.discarded
    {
      SomeMember(Addresses(net, st.discarded, r));
    }
    forall q | q in Plains(st.topQueue) && Usable(net, st.discarded, q) ensures q in net.records {}
  }
}
