/**
 * The failover scheduler as functions on its state: which server `cycleServers` picks next, for a
 * fixed clock, fixed DNS answers and a provider that accepts every server.
 */
module Failover {
  import opened Text
  import opened ResourceRecords

  const NO_PRIORITY: int := 1000000

  /** Digits and dots only; the empty name passes too. */
  predicate IPLiteral(host: string) {
    forall i :: 0 <= i < |host| ==> '0' <= host[i] <= '9' || host[i] == '.'
  }

  /**
   * The domain, its MX records by increasing priority, what name servers answer, the time, and the
   * hosts that the provider does not take for servers.
   */
  datatype Net = Net(domain: string, records: seq<ResourceRecord>, answers: map<string, seq<ResourceRecord>>, now: int,
                     refused: set<string>)

  datatype State = State(topPriority: int, topQueue: seq<ResourceRecord>, discarded: set<string>)

  /** What the resolver guarantees: host names, priorities in range, and lifetimes of a minute or more. */
  ghost predicate Answered(net: Net) {
    && (forall r :: r in net.records ==> r.priority < NO_PRIORITY && r.hostName != "" && r.addresses == [])
    && (forall i, j :: 0 <= i < j < |net.records| ==> net.records[i].priority <= net.records[j].priority)
    && (forall host :: host in net.answers ==> forall a :: a in net.answers[host] ==> net.now < a.expiryTime)
  }

  /** And the provider takes any server, as the libetpan one does. */
  ghost predicate Resolved(net: Net) {
    Answered(net) && net.refused == {}
  }

  /** The A records of an MX record: the host itself, or the answer for it. */
  function Answers(net: Net, mx: ResourceRecord): (r: seq<ResourceRecord>)
    ensures Answered(net) ==> forall a :: a in r ==> !a.HasExpired(net.now)
  {
    if IPLiteral(mx.hostName) then [MakeRecord(mx.domainName, 10, mx.hostName, 36000, net.now)]
    else if mx.hostName in net.answers then net.answers[mx.hostName]
    else []
  }

  function Kept(addresses: seq<ResourceRecord>, discarded: set<string>): (r: seq<ResourceRecord>)
    ensures forall a :: a in r <==> a in addresses && a.hostName !in discarded
  {
    if addresses == [] then []
    else (if addresses[0].hostName in discarded then [] else [addresses[0]]) + Kept(addresses[1..], discarded)
  }

  /** The addresses `initializeAddresses` finds for an MX record. */
  function Addresses(net: Net, discarded: set<string>, mx: ResourceRecord): seq<ResourceRecord> {
    Kept(Answers(net, mx), discarded)
  }

  predicate Live(net: Net, discarded: set<string>, a: ResourceRecord) {
    a.hostName !in discarded && !a.HasExpired(net.now) && a.hostName !in net.refused
  }

  /** The queue after popping up to the first live address and pushing it back; empty if there is none. */
  function Pick(net: Net, discarded: set<string>, addresses: seq<ResourceRecord>): (q: seq<ResourceRecord>)
    ensures q == [] <==> forall a :: a in addresses ==> !Live(net, discarded, a)
    ensures q != [] ==> Live(net, discarded, q[|q| - 1])
    ensures forall a :: a in q ==> a in addresses
    ensures forall a :: a in addresses && Live(net, discarded, a) ==> a in q
  {
    if addresses == [] then []
    else if Live(net, discarded, addresses[0]) then addresses[1..] + [addresses[0]]
    else Pick(net, discarded, addresses[1..])
  }

  /** An address can be used when it is neither discarded, nor past its time, nor refused. */
  ghost predicate Fit(net: Net, discarded: set<string>, a: ResourceRecord) {
    a.hostName !in discarded && net.now < a.expiryTime && a.hostName !in net.refused
  }

  /** The i-th address is the first that can be used, and now stands last, the rest behind it in order. */
  ghost predicate FirstFit(net: Net, discarded: set<string>, addresses: seq<ResourceRecord>, i: nat, q: seq<ResourceRecord>) {
    && i < |addresses| && Fit(net, discarded, addresses[i])
    && (forall j :: 0 <= j < i ==> !Fit(net, discarded, addresses[j]))
    && q == addresses[i + 1..] + [addresses[i]]
  }

  /** The first address that can be used goes to the back; those in front of it are dropped. */
  lemma {:induction false} PickFirst(net: Net, discarded: set<string>, addresses: seq<ResourceRecord>) returns (i: nat)
    ensures var q := Pick(net, discarded, addresses);
      if q == [] then forall a :: a in addresses ==> !Fit(net, discarded, a) else FirstFit(net, discarded, addresses, i, q)
  {
    if addresses == [] || Live(net, discarded, addresses[0]) {
      i := 0;
    } else {
      i := PickFirst(net, discarded, addresses[1..]);
      i := i + 1;
      assert addresses == [addresses[0]] + addresses[1..];
    }
  }

  /** The undiscarded addresses keep their order. */
  lemma {:induction false} KeptInOrder(a: seq<ResourceRecord>, b: seq<ResourceRecord>, discarded: set<string>)
    ensures Kept(a + b, discarded) == Kept(a, discarded) + Kept(b, discarded)
    ensures |a| == 1 ==> Kept(a, discarded) == if a[0].hostName in discarded then [] else a
  {
    if a == [] {
      assert a + b == b;
    } else {
      assert (a + b)[0] == a[0] && (a + b)[1..] == a[1..] + b;
      KeptInOrder(a[1..], b, discarded);
      Assoc(if a[0].hostName in discarded then [] else [a[0]], Kept(a[1..], discarded), Kept(b, discarded));
    }
  }

  /** `setServer`: the record with its address queue rotated, unless no address can be used. */
  function Served(net: Net, discarded: set<string>, mx: ResourceRecord): seq<ResourceRecord> {
    if mx.hostName == "" then []
    else Pick(net, discarded, if mx.addresses == [] then Addresses(net, discarded, mx) else mx.addresses)
  }

  /** The options that decide on a port. */
  datatype Ports = Ports(relay: string, relayPort: nat, useSubmission: bool)

  /** A relay has its own port, given by name or address; other servers get submission or SMTP. */
  function PortFor(ports: Ports, mx: ResourceRecord, a: ResourceRecord): nat {
    if ports.relay in {mx.domainName, a.domainName, a.hostName} then ports.relayPort
    else if ports.useSubmission then 587 else 25
  }

  predicate Serves(net: Net, st: State) {
    && st.topQueue != []
    && !st.topQueue[0].HasExpired(net.now)
    && Served(net, st.discarded, st.topQueue[0]) != []
  }

  /** The front record tried as server: to the back of the queue if it can serve, out of it otherwise. */
  function TryFront(net: Net, st: State): State
    requires st.topQueue != []
  {
    var mx := st.topQueue[0];
    st.(topQueue := st.topQueue[1..]
                    + (if Serves(net, st) then [mx.(addresses := Served(net, st.discarded, mx))] else []))
  }

  /** The records of priority at most `top` that are alive and have addresses, with those. */
  function Ready(net: Net, discarded: set<string>, rs: seq<ResourceRecord>, top: int): seq<ResourceRecord> {
    if rs == [] then []
    else
      var a := Addresses(net, discarded, rs[0]);
      (if rs[0].priority <= top && !rs[0].HasExpired(net.now) && a != [] then [rs[0].(addresses := a)] else [])
      + Ready(net, discarded, rs[1..], top)
  }

  function FirstPriority(net: Net): int {
    if net.records == [] then NO_PRIORITY else net.records[0].priority
  }

  /** `initializeTopQueue`. A domain given as an address is its own server, discarded or not. */
  function InitTop(net: Net, st: State): State {
    if IPLiteral(net.domain) then
      var a := MakeRecord(net.domain, 10, net.domain, 36000, net.now);
      st.(topQueue := st.topQueue + [a.(addresses := [a])])
    else
      var top := if st.topPriority == NO_PRIORITY then FirstPriority(net) else st.topPriority;
      st.(topPriority := top, topQueue := st.topQueue + Ready(net, st.discarded, net.records, top))
  }

  /** The first priority above `top`. */
  function NextPriority(rs: seq<ResourceRecord>, top: int): int {
    if rs == [] then NO_PRIORITY
    else if rs[0].priority <= top then NextPriority(rs[1..], top)
    else rs[0].priority
  }

  function AliveAbove(rs: seq<ResourceRecord>, now: int, top: int): (s: seq<ResourceRecord>)
    ensures forall r :: r in s <==> r in rs && r.priority > top && !r.HasExpired(now)
  {
    if rs == [] then []
    else (if rs[0].priority > top && !rs[0].HasExpired(now) then [rs[0]] else []) + AliveAbove(rs[1..], now, top)
  }

  /**
   * `queueNextPriorityRecords`: the top priority becomes the next one, but the test that should end
   * the loop there (line 309) never holds, so that the records of all later priorities are queued.
   */
  function QueueNext(net: Net, st: State): State {
    st.(topPriority := NextPriority(net.records, st.topPriority),
        topQueue := st.topQueue + AliveAbove(net.records, net.now, st.topPriority))
  }

  /** The next priority, or else all over again. */
  function Refill(net: Net, st: State): State {
    var n := QueueNext(net, st);
    if n.topQueue != [] then n else InitTop(net, n)
  }

  function Above(rs: seq<ResourceRecord>, top: int): nat {
    if rs == [] then 0 else (if rs[0].priority > top then 1 else 0) + Above(rs[1..], top)
  }

  /** A domain given as an address must not be discarded, or the loop puts it back for ever. */
  predicate Halts(net: Net, discarded: set<string>) {
    IPLiteral(net.domain) ==> net.domain != "" && net.domain !in discarded
  }

  lemma {:induction false} NextIsAbove(rs: seq<ResourceRecord>, top: int)
    requires forall r :: r in rs ==> r.priority < NO_PRIORITY
    requires forall i, j :: 0 <= i < j < |rs| ==> rs[i].priority <= rs[j].priority
    ensures var next := NextPriority(rs, top);
      && next <= NO_PRIORITY
      && (forall r :: r in rs && r.priority > top ==> r.priority >= next)
      && (next < NO_PRIORITY ==> next > top && Above(rs, next) < Above(rs, top))
  {
    if rs == [] {
    } else {
      forall r | r in rs ensures r == rs[0] || r in rs[1..] {}
      if rs[0].priority <= top {
        NextIsAbove(rs[1..], top);
      } else {
        AboveShrinks(rs[1..], top, rs[0].priority);
        assert rs[0] in rs;
      }
    }
  }

  lemma {:induction false} AboveShrinks(rs: seq<ResourceRecord>, low: int, high: int)
    requires low <= high
    ensures Above(rs, high) <= Above(rs, low)
  {
    if rs == [] {
    } else {
      AboveShrinks(rs[1..], low, high);
    }
  }

  lemma {:induction false} ReadyMember(net: Net, discarded: set<string>, rs: seq<ResourceRecord>, top: int, q: ResourceRecord)
    requires forall r :: r in rs ==> r.addresses == []
    ensures q in Ready(net, discarded, rs, top) <==>
      && q.Plain() in rs && q.priority <= top && !q.HasExpired(net.now)
      && q.addresses == Addresses(net, discarded, q) && q.addresses != []
  {
    if rs == [] {
    } else {
      ReadyMember(net, discarded, rs[1..], top, q);
      assert q.Plain() == rs[0] ==> q == rs[0].(addresses := q.addresses);
      assert rs == [rs[0]] + rs[1..];
    }
  }

  /** A record that `initializeTopQueue` queues serves at once. */
  lemma InitTopServes(net: Net, st: State)
    requires Resolved(net) && Halts(net, st.discarded) && st.topQueue == [] && InitTop(net, st).topQueue != []
    ensures Serves(net, InitTop(net, st))
  {
    var n := InitTop(net, st);
    var q := n.topQueue[0];
    if IPLiteral(net.domain) {
      assert q.addresses[0] in q.addresses;
    } else {
      ReadyMember(net, st.discarded, net.records, n.topPriority, q);
      assert q.addresses[0] in q.addresses && q.Plain() in net.records;
    }
  }

  /** A refilled queue has either gone up in priority, or a server at its front. */
  lemma RefillAdvances(net: Net, st: State)
    requires Resolved(net) && Halts(net, st.discarded) && st.topQueue == []
    ensures var n := Refill(net, st);
      n.topQueue != [] ==> Serves(net, n) || Above(net.records, n.topPriority) < Above(net.records, st.topPriority)
  {
    hide InitTop, Serves;
    var n := QueueNext(net, st);
    NextIsAbove(net.records, st.topPriority);
    if n.topQueue != [] {
      assert n.topQueue[0] in AliveAbove(net.records, net.now, st.topPriority);
    } else if InitTop(net, n).topQueue != [] {
      InitTopKeeps(net, n);
      InitTopServes(net, n);
    }
  }

  lemma InitTopKeeps(net: Net, st: State)
    ensures InitTop(net, st).discarded == st.discarded
  {
  }

  /** The loop of `cycleServers`: the front record is tried until one serves or nothing is left to queue. */
  function Loop(net: Net, st: State): (r: (bool, State))
    requires Resolved(net) && Halts(net, st.discarded)
    decreases if Serves(net, st) then 0 else 1, Above(net.records, st.topPriority), |st.topQueue|
  {
    if st.topQueue == [] then (false, st)
    else
      var n := TryFront(net, st);
      if Serves(net, st) then (true, n)
      else if n.topQueue != [] then Loop(net, n)
      else
        var m := Refill(net, n);
        RefillAdvances(net, n);
        InitTopKeeps(net, QueueNext(net, n));
        if m.topQueue == [] then (false, m) else Loop(net, m)
  }

  /** `cycleServers`. */
  function Cycle(net: Net, st: State): (bool, State)
    requires Resolved(net) && Halts(net, st.discarded)
  {
    InitTopKeeps(net, QueueNext(net, st));
    Loop(net, if st.topQueue == [] then Refill(net, st) else st)
  }

  /** The server in use: the back address of the back MX record. */
  predicate HasServer(st: State) {
    st.topQueue != [] && st.topQueue[|st.topQueue| - 1].addresses != []
  }

  function CurrentMX(st: State): ResourceRecord
    requires st.topQueue != []
  {
    st.topQueue[|st.topQueue| - 1]
  }

  function Current(st: State): ResourceRecord
    requires HasServer(st)
  {
    var a := CurrentMX(st).addresses;
    a[|a| - 1]
  }

  /** `discardCurrentServer`. */
  function Discard(st: State): State {
    if HasServer(st) then st.(discarded := st.discarded + {Current(st).hostName}) else st
  }
}
