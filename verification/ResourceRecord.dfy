/** Resource records, their order, and the `set<ResourceRecord>` that a query fills. */
module ResourceRecords {

  /** The expiry time is absolute; `addresses` is the queue of A records of an MX record. */
  datatype ResourceRecord = ResourceRecord(domainName: string, priority: int, hostName: string, ttl: int,
                                           expiryTime: int, addresses: seq<ResourceRecord>)
  {
    predicate HasExpired(now: int) { expiryTime <= now }

    /** The record as it stands in the set it was copied from, where address queues are empty. */
    function Plain(): ResourceRecord { this.(addresses := []) }
  }

  function MakeRecord(domainName: string, priority: int, hostName: string, ttl: int, queryTime: int): ResourceRecord {
    ResourceRecord(domainName, priority, hostName, ttl, queryTime + ttl, [])
  }

  /** `operator<` of std::string. */
  predicate StringLess(a: string, b: string) {
    b != "" && (a == "" || a[0] < b[0] || (a[0] == b[0] && StringLess(a[1..], b[1..])))
  }

  lemma {:induction false} StringLessTrans(a: string, b: string, c: string)
    requires StringLess(a, b) && StringLess(b, c)
    ensures StringLess(a, c)
  {
    if a != "" && a[0] == b[0] == c[0] { StringLessTrans(a[1..], b[1..], c[1..]); }
  }

  lemma {:induction false} StringLessTotal(a: string, b: string)
    ensures StringLess(a, b) || a == b || StringLess(b, a)
    ensures !(StringLess(a, b) && StringLess(b, a)) && !StringLess(a, a)
  {
    if a != "" { StringLessTotal(a[1..], a[1..]); }
    if a != "" && b != "" && a[0] == b[0] {
      StringLessTotal(a[1..], b[1..]);
      assert a == [a[0]] + a[1..] && b == [b[0]] + b[1..];
    }
  }

  /** `operator<`: the larger priority comes first. */
  predicate Less(a: ResourceRecord, b: ResourceRecord) {
    if StringLess(a.domainName, b.domainName) then true
    else if a.domainName == b.domainName then
      if a.priority > b.priority then true
      else if a.priority == b.priority then
        if StringLess(a.hostName, b.hostName) then true
        else a.hostName == b.hostName && a.ttl < b.ttl
      else false
    else false
  }

  /** `operator==`. */
  predicate Same(a: ResourceRecord, b: ResourceRecord) {
    a.domainName == b.domainName && a.priority == b.priority && a.hostName == b.hostName && a.ttl == b.ttl
  }

  /** A strict total order whose ties are the records `operator==` calls equal. */
  lemma LessIsStrictOrder(a: ResourceRecord, b: ResourceRecord, c: ResourceRecord)
    ensures Same(a, b) <==> !Less(a, b) && !Less(b, a)
    ensures !(Less(a, b) && Less(b, a))
    ensures Less(a, b) && Less(b, c) ==> Less(a, c)
  {
    StringLessTotal(a.domainName, b.domainName);
    StringLessTotal(a.hostName, b.hostName);
    if StringLess(a.domainName, b.domainName) && StringLess(b.domainName, c.domainName) {
      StringLessTrans(a.domainName, b.domainName, c.domainName);
    }
    if StringLess(a.hostName, b.hostName) && StringLess(b.hostName, c.hostName) {
      StringLessTrans(a.hostName, b.hostName, c.hostName);
    }
  }

  /** A set, listed in the order its iterator goes. */
  ghost predicate Ordered(s: seq<ResourceRecord>) {
    forall i, j :: 0 <= i < j < |s| ==> Less(s[i], s[j])
  }

  /** `set::insert`: a record that compares equal to one in the set is not inserted. */
  function Insert(s: seq<ResourceRecord>, r: ResourceRecord): (t: seq<ResourceRecord>)
  {
    if s == [] || Less(r, s[0]) then [r] + s
    else if !Less(s[0], r) then s
    else [s[0]] + Insert(s[1..], r)
  }

  lemma {:induction false} InsertKeepsOrder(s: seq<ResourceRecord>, r: ResourceRecord)
    requires Ordered(s)
    ensures Ordered(Insert(s, r))
    ensures forall x :: x in Insert(s, r) <==> x in s || (x == r && forall y :: y in s ==> !Same(y, r))
  {
    hide Less, Same;
    if s == [] {
    } else {
      LessIsStrictOrder(r, s[0], s[0]);
      if Less(r, s[0]) {
        forall y | y in s ensures Less(r, y) && !Same(y, r) {
          LessIsStrictOrder(r, s[0], y);
          LessIsStrictOrder(y, r, r);
        }
      } else if Less(s[0], r) {
        InsertKeepsOrder(s[1..], r);
        LessIsStrictOrder(s[0], r, r);
        assert s == [s[0]] + s[1..];
        var t := Insert(s[1..], r);
        forall j | 0 <= j < |t| ensures Less(s[0], t[j]) { assert t[j] in t; }
      } else {
        LessIsStrictOrder(s[0], r, r);
        assert Same(s[0], r);
      }
    }
  }

  /** From `rbegin` to `rend`. */
  function Reversed(s: seq<ResourceRecord>): (t: seq<ResourceRecord>)
    ensures |t| == |s| && forall i :: 0 <= i < |s| ==> t[i] == s[|s| - 1 - i]
  {
    if s == [] then [] else Reversed(s[1..]) + [s[0]]
  }

  /** What `initializeTopQueue` relies on: backwards, the records of one domain come by increasing priority. */
  lemma ReversedByPriority(s: seq<ResourceRecord>, domain: string)
    requires Ordered(s) && forall r :: r in s ==> r.domainName == domain
    ensures forall i, j :: 0 <= i < j < |s| ==> Reversed(s)[i].priority <= Reversed(s)[j].priority
  {
    forall i, j | 0 <= i < j < |s| ensures Reversed(s)[i].priority <= Reversed(s)[j].priority {
      assert Less(s[|s| - 1 - j], s[|s| - 1 - i]);
      StringLessTotal(domain, domain);
      assert s[|s| - 1 - j] in s && s[|s| - 1 - i] in s;
    }
  }
}
