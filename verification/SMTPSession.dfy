/** The failover part of an SMTP session: queues, cursor and discard set, updated in place. */
module SMTPSession {
  import opened Text
  import opened ResourceRecords
  import opened Failover
  import opened FailoverEnding
  import opened FailoverLaws

  /** `isIPAddress`. */
  method IsIPAddress(hostName: string) returns (r: bool)
    ensures r == IPLiteral(hostName)
    ensures r <==> forall c :: c in hostName ==> c in "0123456789."
  {
    IPLiteralIs(hostName);
    for i := 0 to |hostName|
      invariant forall k :: 0 <= k < i ==> '0' <= hostName[k] <= '9' || hostName[k] == '.'
    {
      if !('0' <= hostName[i] <= '9') && hostName[i] != '.' { return false; }
    }
    return true;
  }

  /** The addresses that a record has in its queue, or else the undiscarded ones of its host. */
  function ToTry(net: Net, discarded: set<string>, mx: ResourceRecord): seq<ResourceRecord> {
    if mx.addresses == [] then Addresses(net, discarded, mx) else mx.addresses
  }

  ghost predicate CanServe(net: Net, discarded: set<string>, mx: ResourceRecord) {
    mx.hostName != "" && exists a :: a in ToTry(net, discarded, mx) && Fit(net, discarded, a)
  }

  /** The provider has the first fit address of `mx`, with the port for it, and `turned` has that last. */
  ghost predicate GivenFirst(net: Net, discarded: set<string>, ports: Ports, mx: ResourceRecord, turned: ResourceRecord,
                             hostName: string, port: nat) {
    exists i: nat :: FirstFit(net, discarded, ToTry(net, discarded, mx), i, turned.addresses) && (
      var a := ToTry(net, discarded, mx)[i];
      && hostName == a.hostName
      && port == (if ports.relay == mx.domainName || ports.relay == a.domainName || ports.relay == a.hostName then ports.relayPort
                  else if ports.useSubmission then 587 else 25))
  }

  lemma IPLiteralIs(hostName: string)
    ensures IPLiteral(hostName) <==> forall c :: c in hostName ==> c in "0123456789."
  {
    forall c: char ensures c in "0123456789." <==> '0' <= c <= '9' || c == '.' { DigitsAndDot(c); }
    forall i | 0 <= i < |hostName| ensures hostName[i] in hostName {}
  }

  /** A host given as an address is its own, for ten hours; any other has the addresses that name servers give. */
  lemma AddressesAre(net: Net, discarded: set<string>, mx: ResourceRecord)
    ensures var host := mx.hostName;
      if exists c :: c in host && c !in "0123456789." then
        Addresses(net, discarded, mx) == Kept(if host in net.answers then net.answers[host] else [], discarded)
      else
        var own := ResourceRecord(mx.domainName, 10, host, 36000, net.now + 36000, []);
        Addresses(net, discarded, mx) == if host in discarded then [] else [own]
  {
    IPLiteralIs(mx.hostName);
    var own := ResourceRecord(mx.domainName, 10, mx.hostName, 36000, net.now + 36000, []);
    assert Kept([own][1..], discarded) == [];
  }

  lemma DigitsAndDot(c: char)
    ensures c in "0123456789." <==> '0' <= c <= '9' || c == '.'
  {
    var digits := "0123456789.";
    if '0' <= c <= '9' { assert digits[c as int - '0' as int] == c; }
    if c == '.' { assert digits[10] == c; }
  }

  class Session {
    const net: Net
    var topPriority: int
    var topQueue: seq<ResourceRecord>
    var discarded: set<string>
    const ports: Ports
    /** The host name and the port last given to the provider. */
    var hostName: string
    var port: nat

    function State(): State
      reads this
    {
      Failover.State(topPriority, topQueue, discarded)
    }

    /** `mxRecords` lists the record set of the domain in the order of its iterator. */
    constructor (domain: string, mxRecords: seq<ResourceRecord>, answers: map<string, seq<ResourceRecord>>, now: int,
                 refused: set<string>, ports: Ports)
      ensures net == Net(domain, Reversed(mxRecords), answers, now, refused) && this.ports == ports
      ensures State() == Failover.State(NO_PRIORITY, [], {})
      ensures hostName == ""
    {
      net, this.ports := Net(domain, Reversed(mxRecords), answers, now, refused), ports;
      topPriority, topQueue, discarded, hostName, port := NO_PRIORITY, [], {}, "", 0;
    }

    method IsDiscarded(aRecord: ResourceRecord) returns (r: bool)
      ensures r <==> aRecord.hostName in discarded
    {
      r := aRecord.hostName in discarded;
    }

    /** `initializeAddresses`: the record with its addresses, unless there is none left to use. */
    method InitializeAddresses(mxRecord: ResourceRecord) returns (ok: bool, mx: ResourceRecord)
      ensures ok <==> Addresses(net, discarded, mxRecord) != []
      ensures ok ==> mx == mxRecord.(addresses := Addresses(net, discarded, mxRecord))
      ensures !ok ==> mx.addresses == [] || mx == mxRecord
    {
      hide Kept;
      mx := mxRecord;
      var aRecords := [];
      KeptStep([], discarded);
      var literal := IsIPAddress(mx.hostName);
      if literal {
        aRecords := [MakeRecord(mx.domainName, 10, mx.hostName, 36000, net.now)];
      } else if mx.hostName !in net.answers || net.answers[mx.hostName] == [] {
        return false, mx;
      } else {
        aRecords := net.answers[mx.hostName];
      }
      mx := mx.(addresses := []);
      assert aRecords[0..] == aRecords;
      for i := 0 to |aRecords|
        invariant mx == mxRecord.(addresses := mx.addresses)
        invariant mx.addresses + Kept(aRecords[i..], discarded) == Kept(aRecords, discarded)
      {
        assert aRecords[i..][1..] == aRecords[i + 1..];
        KeptStep(aRecords[i..], discarded);
        var isDiscarded := IsDiscarded(aRecords[i]);
        if !isDiscarded {
          Assoc(mx.addresses, [aRecords[i]], Kept(aRecords[i + 1..], discarded));
          mx := mx.(addresses := mx.addresses + [aRecords[i]]);
        }
      }
      assert aRecords[|aRecords|..] == [] && mx.addresses + [] == mx.addresses;
      ok := mx.addresses != [];
    }

    /** `initializeTopQueue`. */
    method InitializeTopQueue() returns (ok: bool)
      requires Answered(net)
      modifies `topPriority, `topQueue
      ensures State() == InitTop(net, old(State()))
      ensures ok <==> topQueue != []
    {
      hide Addresses, Ready;
      var isIP := IsIPAddress(net.domain);
      ok := true;
      if isIP {
        var mxRecord := MakeRecord(net.domain, 10, net.domain, 36000, net.now);
        var aRecord := MakeRecord(net.domain, 10, net.domain, 36000, net.now);
        topQueue := topQueue + [mxRecord.(addresses := [aRecord])];
      } else {
        ok := QueueTopRecords();
      }
    }

    /** The loop over the records, for a domain given by name. */
    method QueueTopRecords() returns (ok: bool)
      requires Answered(net)
      modifies `topPriority, `topQueue
      ensures topPriority == if old(topPriority) == NO_PRIORITY then FirstPriority(net) else old(topPriority)
      ensures topQueue == old(topQueue) + Ready(net, discarded, net.records, topPriority)
      ensures ok <==> topQueue != []
    {
      hide Addresses, Ready, Usable, IPLiteral;
      ghost var was, rs := topQueue, net.records;
      ghost var top := if topPriority == NO_PRIORITY then FirstPriority(net) else topPriority;
      ghost var full := Ready(net, discarded, rs, top);
      var i := 0;
      assert rs[0..] == rs;
      while i < |net.records|
        invariant i <= |rs|
        invariant topPriority == if i == 0 then old(topPriority) else top
        invariant topQueue + Ready(net, discarded, rs[i..], top) == was + full
        decreases |rs| - i
      {
        var server := net.records[i];
        assert server in rs && rs[i..][1..] == rs[i + 1..];
        ReadyStep(net, discarded, rs[i..], top);
        UsableIs(net, discarded, server);
        if topPriority == NO_PRIORITY && topPriority > server.priority { topPriority := server.priority; }
        if server.priority > topPriority {
          NoneReady(net, discarded, rs[i..], top);
          break;
        }
        var mxRecord := server;
        if !mxRecord.HasExpired(net.now) {
          var usable;
          usable, mxRecord := InitializeAddresses(mxRecord);
          if usable {
            Assoc(topQueue, [mxRecord], Ready(net, discarded, rs[i + 1..], top));
            topQueue := topQueue + [mxRecord];
          }
        }
        i := i + 1;
      }
      ReadyStep(net, discarded, [], top);
      assert i == |rs| ==> rs[i..] == [];
      assert topQueue + [] == topQueue && was + full == topQueue;
      ok := topQueue != [];
    }

    /** `queueNextPriorityRecords`. */
    method QueueNextPriorityRecords() returns (ok: bool)
      requires Answered(net)
      modifies `topPriority, `topQueue
      ensures State() == QueueNext(net, old(State()))
      ensures ok <==> topQueue != []
    {
      hide AliveAbove, NextPriority;
      var currentPriority := NO_PRIORITY;
      ghost var was, rs, top := topQueue, net.records, topPriority;
      var i := 0;
      assert rs[0..] == rs;
      while i < |net.records|
        invariant i <= |rs| && topPriority == top
        invariant currentPriority == NO_PRIORITY ==> NextPriority(rs[i..], top) == NextPriority(rs, top)
        invariant currentPriority != NO_PRIORITY ==> (
          currentPriority == NextPriority(rs, top) && forall k :: i <= k < |rs| ==> currentPriority <= rs[k].priority)
        invariant topQueue + AliveAbove(rs[i..], net.now, top) == was + AliveAbove(rs, net.now, top)
        decreases |rs| - i
      {
        var server := net.records[i];
        assert server in rs && rs[i..][1..] == rs[i + 1..];
        OneRecord(rs[i..], net.now, top);
        if server.priority > topPriority {
          if currentPriority == NO_PRIORITY && currentPriority > server.priority {
            currentPriority := server.priority;
          }
          if server.priority < currentPriority { assert false; break; }
          if !server.HasExpired(net.now) {
            Assoc(topQueue, [server], AliveAbove(rs[i + 1..], net.now, top));
            topQueue := topQueue + [server];
          }
        }
        i := i + 1;
      }
      NoRecord(net.now, top);
      assert rs[i..] == [] && topQueue + [] == topQueue;
      topPriority := currentPriority;
      ok := topQueue != [];
    }

    /** What the provider has been given: the address that went to the back of a record's queue. */
    predicate GivenTo(mx: ResourceRecord)
      reads this`hostName, this`port
    {
      mx.addresses != [] && var a := mx.addresses[|mx.addresses| - 1];
      hostName == a.hostName && port == PortFor(ports, mx, a)
    }

    /**
     * `setServer`: the first fit address is given to the provider, with its port, and goes to the
     * back of the queue.
     */
    method SetServer(mxRecord: ResourceRecord) returns (ok: bool, mx: ResourceRecord)
      modifies `hostName, `port
      ensures ok <==> CanServe(net, discarded, mxRecord)
      ensures ok ==> GivenFirst(net, discarded, ports, mxRecord, mx, hostName, port)
      ensures ok <==> Served(net, discarded, mxRecord) != []
      ensures ok ==> mx == mxRecord.(addresses := Served(net, discarded, mxRecord)) && GivenTo(mx)
      ensures !ok ==> hostName == old(hostName) && port == old(port)
    {
      hide Addresses, PortFor, CanServe, GivenFirst, Served;
      ServedFirst(net, discarded, ports, mxRecord);
      ServedIs(net, discarded, mxRecord);
      mx := mxRecord;
      if mx.hostName == "" { return false, mx; }
      if mx.addresses == [] {
        var found;
        found, mx := InitializeAddresses(mx);
        if !found { NothingPicked(net, discarded); return false, mx; }
      }
      while mx.addresses != []
        invariant mx == mxRecord.(addresses := mx.addresses)
        invariant Pick(net, discarded, mx.addresses) == Served(net, discarded, mxRecord)
        invariant hostName == old(hostName) && port == old(port)
        decreases |mx.addresses|
      {
        var frontRecord := mx.addresses[0];
        mx := mx.(addresses := mx.addresses[1..]);
        var isDiscarded := IsDiscarded(frontRecord);
        if isDiscarded { continue; }
        if frontRecord.HasExpired(net.now) { continue; }
        var serverPort := ChoosePort(mx, frontRecord);
        var accepted := TellProvider(frontRecord.hostName, serverPort);
        if !accepted { continue; }
        SamePort(ports, mx, mx.addresses + [frontRecord], frontRecord);
        SamePort(ports, mx, mxRecord.addresses, frontRecord);
        mx := mx.(addresses := mx.addresses + [frontRecord]);
        return true, mx;
      }
      return false, mx;
    }

    /** The port for a server: the relay's own, submission, or SMTP. */
    method ChoosePort(mx: ResourceRecord, frontRecord: ResourceRecord) returns (serverPort: nat)
      ensures serverPort == PortFor(ports, mx, frontRecord)
    {
      serverPort := 25;
      if ports.relay == mx.domainName || ports.relay == frontRecord.domainName || ports.relay == frontRecord.hostName {
        serverPort := ports.relayPort;
      } else if ports.useSubmission {
        serverPort := 587;
      }
    }

    /** `setServer` of the provider, which keeps what it accepts. */
    method TellProvider(host: string, serverPort: nat) returns (ok: bool)
      modifies `hostName, `port
      ensures ok <==> host !in net.refused
      ensures if ok then hostName == host && port == serverPort else hostName == old(hostName) && port == old(port)
    {
      ok := host !in net.refused;
      if ok { hostName, port := host, serverPort; }
    }

    /** `discardCurrentServer`. */
    method DiscardCurrentServer()
      modifies `discarded
      ensures State() == Discard(old(State()))
      ensures topQueue != [] && GivenTo(topQueue[|topQueue| - 1]) ==> discarded == old(discarded) + {hostName}
    {
      if topQueue == [] { return; }
      var currentMXRecord := topQueue[|topQueue| - 1];
      if currentMXRecord.addresses != [] {
        var currentARecord := currentMXRecord.addresses[|currentMXRecord.addresses| - 1];
        discarded := discarded + {currentARecord.hostName};
      }
    }

    /** The next priority queued, or else all records again. */
    method RefillQueue() returns (ok: bool)
      requires Answered(net)
      modifies `topPriority, `topQueue
      ensures State() == Refill(net, old(State()))
      ensures ok <==> topQueue != []
    {
      ok := QueueNextPriorityRecords();
      if !ok { ok := InitializeTopQueue(); }
    }

    /**
     * `cycleServers`, whenever its loop ends, which `EndsIff` says: on success the provider has been
     * given the server now in use.
     */
    method CycleServers() returns (ok: bool)
      requires Answered(net) && Ends(net, State())
      modifies `topPriority, `topQueue, `hostName, `port
      ensures Cycled(net, old(State()), ok, State())
      ensures ok ==> topQueue != [] && GivenTo(CurrentMX(State()))
      ensures !ok ==> hostName == old(hostName) && port == old(port)
    {
      hide Served, Refill, Turns, Cycled, PortFor, CanServe, GivenFirst;
      ghost var left: nat :| !Turns(net, State(), left).Running?;
      ghost var goal := Turns(net, State(), left);
      EndCycled(net, State(), left);
      TurnsStep(net, State(), left);
      if topQueue == [] {
        var more := RefillQueue();
        if !more { return false; }
        left := left - 1;
      }
      while topQueue != []
        invariant discarded == old(discarded) && hostName == old(hostName) && port == old(port)
        invariant if topQueue == [] then goal == GaveUp(State()) else Turns(net, State(), left) == goal
        decreases left
      {
        TurnsStep(net, State(), left);
        ghost var n := TryFront(net, State());
        var frontRecord := topQueue[0];
        topQueue := topQueue[1..];
        if !frontRecord.HasExpired(net.now) {
          var isSet;
          isSet, frontRecord := SetServer(frontRecord);
          if isSet {
            topQueue := topQueue + [frontRecord];
            return true;
          }
        }
        assert State() == n;
        if topQueue == [] {
          var more := RefillQueue();
          if !more { break; }
        }
        left := left - 1;
      }
      return false;
    }

    /** After a connection error: the server in use is discarded and another one looked for. */
    method FailOver() returns (ok: bool)
      requires Answered(net) && Ends(net, Discard(State()))
      modifies this
      ensures Cycled(net, Discard(old(State())), ok, State())
      ensures old(topQueue != [] && GivenTo(topQueue[|topQueue| - 1])) ==> discarded == old(discarded) + {old(hostName)}
      ensures ok ==> topQueue != [] && GivenTo(CurrentMX(State()))
      ensures !ok ==> hostName == old(hostName) && port == old(port)
    {
      DiscardCurrentServer();
      ok := CycleServers();
    }
  }

  lemma TurnsStep(net: Net, st: State, n: nat)
    requires !Turns(net, st, n).Running?
    ensures n > 0
    ensures var m := if st.topQueue == [] then st else TryFront(net, st);
      Turns(net, st, n) == if st.topQueue != [] && Serves(net, st) then Found(m)
                           else if m.topQueue != [] then Turns(net, m, n - 1)
                           else if Refill(net, m).topQueue != [] then Turns(net, Refill(net, m), n - 1)
                           else GaveUp(Refill(net, m))
  {
    hide Refill, Serves, TryFront;
  }

  /** What is served, in terms of the addresses to try. */
  lemma ServedFirst(net: Net, discarded: set<string>, ports: Ports, mx: ResourceRecord)
    ensures var q := Served(net, discarded, mx);
      && (q != [] <==> CanServe(net, discarded, mx))
      && (q != [] ==>
            var a := q[|q| - 1];
            GivenFirst(net, discarded, ports, mx, mx.(addresses := q), a.hostName, PortFor(ports, mx, a)))
  {
    hide Addresses, Pick, Fit;
    var all := ToTry(net, discarded, mx);
    var i := PickFirst(net, discarded, all);
    if Served(net, discarded, mx) != [] { assert all[i] in all; }
  }

  lemma ServedIs(net: Net, discarded: set<string>, mx: ResourceRecord)
    ensures Served(net, discarded, mx) == if mx.hostName == "" then [] else Pick(net, discarded, ToTry(net, discarded, mx))
  {
  }

  lemma SamePort(ports: Ports, mx: ResourceRecord, queue: seq<ResourceRecord>, a: ResourceRecord)
    ensures PortFor(ports, mx, a) == PortFor(ports, mx.(addresses := queue), a)
  {
  }

  /** What `Answered` asks of a session follows from how the resolver fills a record set. */
  lemma FromRecordSet(domain: string, mxRecords: seq<ResourceRecord>, answers: map<string, seq<ResourceRecord>>, now: int,
                      refused: set<string>)
    requires Ordered(mxRecords)
    requires forall r :: r in mxRecords ==>
      r.domainName == domain && r.priority < 1000000 && r.hostName != "" && r.addresses == []
    requires forall host :: host in answers ==> forall a :: a in answers[host] ==> now < a.expiryTime
    ensures Answered(Net(domain, Reversed(mxRecords), answers, now, refused))
  {
    ReversedByPriority(mxRecords, domain);
    forall r | r in Reversed(mxRecords) ensures r in mxRecords {
      var i :| 0 <= i < |mxRecords| && Reversed(mxRecords)[i] == r;
      assert mxRecords[|mxRecords| - 1 - i] == r;
    }
  }

  lemma UsableIs(net: Net, discarded: set<string>, r: ResourceRecord)
    ensures Usable(net, discarded, r) <==> r in net.records && !r.HasExpired(net.now) && Addresses(net, discarded, r) != []
  {
  }

  lemma KeptStep(addresses: seq<ResourceRecord>, discarded: set<string>)
    ensures addresses == [] ==> Kept(addresses, discarded) == []
    ensures addresses != [] ==> (
      Kept(addresses, discarded)
      == (if addresses[0].hostName in discarded then [] else [addresses[0]]) + Kept(addresses[1..], discarded))
  {
  }

  lemma NothingPicked(net: Net, discarded: set<string>)
    ensures Pick(net, discarded, []) == []
  {
  }

  lemma NoRecord(now: int, top: int)
    ensures AliveAbove([], now, top) == [] && NextPriority([], top) == NO_PRIORITY
  {
  }

  lemma OneRecord(rs: seq<ResourceRecord>, now: int, top: int)
    requires rs != []
    ensures AliveAbove(rs, now, top) == (if rs[0].priority > top && !rs[0].HasExpired(now) then [rs[0]] else []) + AliveAbove(rs[1..], now, top)
    ensures NextPriority(rs, top) == if rs[0].priority <= top then NextPriority(rs[1..], top) else rs[0].priority
  {
  }
}
