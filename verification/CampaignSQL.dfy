/** How slave processes divide the domains of a campaign: the row loop of `CampaignSQL::listDomains`. */
module CampaignSQL {
  import opened Text
  import opened Breakdowns

  /** A row of the query, its third column as a number. */
  datatype Row = Row(domainName: string, status: string, recipients: int)

  /** What the configuration says about relaying; no relay when its address is empty. */
  datatype Relay = Relay(address: string, internalDomain: string)

  /** Whether a slave started at `offset`, one of `count`, takes row number `i`. */
  predicate Taken(row: Row, i: nat, count: int, offset: int) {
    row.domainName != "" && (count > 0 && offset >= 0 ==> i >= offset && (i - offset) % count == 0)
  }

  /** Whether a row that is taken is listed under its own name. */
  predicate Listed(row: Row, relay: Relay) {
    relay.address == "" || (row.domainName == relay.internalDomain && relay.address != relay.internalDomain)
  }

  /** The entries of the rows from number `i` on that a slave lists by name. */
  function Named(rows: seq<Row>, i: nat, count: int, offset: int, relay: Relay): seq<Entry>
    requires i <= |rows|
    decreases |rows| - i
  {
    if i == |rows| then []
    else (if Taken(rows[i], i, count, offset) && Listed(rows[i], relay) then [(rows[i].recipients, rows[i].domainName)] else [])
         + Named(rows, i + 1, count, offset, relay)
  }

  /** The recipients of the rows from number `i` on that a slave leaves to the relay. */
  function External(rows: seq<Row>, i: nat, count: int, offset: int, relay: Relay): int
    requires i <= |rows|
    decreases |rows| - i
  {
    if i == |rows| then 0
    else (if Taken(rows[i], i, count, offset) && !Listed(rows[i], relay) then rows[i].recipients else 0)
         + External(rows, i + 1, count, offset, relay)
  }

  /** The whole breakdown of one slave. */
  function Share(rows: seq<Row>, count: int, offset: int, relay: Relay): seq<Entry> {
    Named(rows, 0, count, offset, relay)
    + (if relay.address != "" then [(External(rows, 0, count, offset, relay), relay.address)] else [])
  }

  /** The loop of `listDomains` over the rows of the query. */
  method ListDomains(rows: seq<Row>, breakdown: Breakdown, count: int, offset: int, relay: Relay)
    returns (size: nat, b: Breakdown)
    ensures b == InsertAll(breakdown, Share(rows, count, offset, relay))
    ensures size == |b|
  {
    hide InsertAll, Insert, Taken, Listed, Named, External;
    b := breakdown;
    var domainNum, externalRecipientsCount: int := 0, 0;
    var hasRelay := relay.address != "";
    ghost var named: seq<Entry> := [];
    InsertNone(b);
    while domainNum < |rows|
      invariant domainNum <= |rows|
      invariant named + Named(rows, domainNum, count, offset, relay) == Named(rows, 0, count, offset, relay)
      invariant externalRecipientsCount + External(rows, domainNum, count, offset, relay) == External(rows, 0, count, offset, relay)
      invariant b == InsertAll(breakdown, named)
    {
      var row := rows[domainNum];
      var goodDomain := false;
      if row.domainName != "" {
        if count > 0 && offset >= 0 {
          if domainNum >= offset && (domainNum - offset) % count == 0 { goodDomain := true; }
        } else {
          goodDomain := true;
        }
      }
      TakenIs(row, domainNum, count, offset, relay);
      NextRow(rows, domainNum, count, offset, relay);
      if goodDomain {
        ghost var next := named + [(row.recipients, row.domainName)];
        InsertOneMore(breakdown, named, (row.recipients, row.domainName));
        Assoc(named, [(row.recipients, row.domainName)], Named(rows, domainNum + 1, count, offset, relay));
        if !hasRelay {
          b := Insert(b, (row.recipients, row.domainName));
          named := next;
        } else if row.domainName == relay.internalDomain && relay.address != relay.internalDomain {
          b := Insert(b, (row.recipients, row.domainName));
          named := next;
        } else {
          externalRecipientsCount := externalRecipientsCount + row.recipients;
        }
      }
      domainNum := domainNum + 1;
    }
    NoMoreRows(rows, count, offset, relay);
    assert named + [] == named;
    if hasRelay {
      InsertOneMore(breakdown, named, (externalRecipientsCount, relay.address));
      b := Insert(b, (externalRecipientsCount, relay.address));
    }
    size := |b|;
  }

  /** One row, and the rows after it. */
  lemma NextRow(rows: seq<Row>, i: nat, count: int, offset: int, relay: Relay)
    requires i < |rows|
    ensures Named(rows, i, count, offset, relay) ==
      (if Taken(rows[i], i, count, offset) && Listed(rows[i], relay) then [(rows[i].recipients, rows[i].domainName)] else [])
      + Named(rows, i + 1, count, offset, relay)
    ensures External(rows, i, count, offset, relay) ==
      (if Taken(rows[i], i, count, offset) && !Listed(rows[i], relay) then rows[i].recipients else 0)
      + External(rows, i + 1, count, offset, relay)
    ensures [] + Named(rows, i + 1, count, offset, relay) == Named(rows, i + 1, count, offset, relay)
  {
  }

  lemma NoMoreRows(rows: seq<Row>, count: int, offset: int, relay: Relay)
    ensures Named(rows, |rows|, count, offset, relay) == [] && External(rows, |rows|, count, offset, relay) == 0
  {
  }

  lemma InsertNone(b: Breakdown)
    ensures InsertAll(b, []) == b
  {
  }

  lemma TakenIs(row: Row, i: nat, count: int, offset: int, relay: Relay)
    ensures Taken(row, i, count, offset) <==>
      row.domainName != "" && (count > 0 && offset >= 0 ==> i >= offset && (i - offset) % count == 0)
    ensures Listed(row, relay) <==>
      relay.address == "" || (row.domainName == relay.internalDomain && relay.address != relay.internalDomain)
  {
  }

  /** Every row with a domain name is taken by exactly one of the slaves 0 to count - 1. */
  lemma TakenByOne(row: Row, i: nat, count: nat, k: nat)
    requires row.domainName != "" && k < count
    ensures Taken(row, i, count, k) <==> k == i % count
  {
    if k == i % count {
      assert i == i / count * count + k;
      Remainder(i - k, i / count, 0, count);
    } else if i >= k && (i - k) % count == 0 {
      assert i - k == (i - k) / count * count;
      Remainder(i, (i - k) / count, k, count);
      assert false;
    }
  }

  lemma Remainder(x: int, q: int, r: int, c: int)
    requires 0 <= r < c && x == q * c + r
    ensures x % c == r
  {
    var d := q - x / c;
    assert d * c == x % c - r;
    if d > 0 { AtLeast(d, c); } else if d < 0 { AtLeast(-d, c); }
  }

  lemma AtLeast(d: int, c: int)
    requires d >= 1 && c > 0
    ensures d * c >= c
  {
  }

  /** The entry of one row, if it has a domain name. */
  function Own(row: Row): seq<Entry> {
    if row.domainName != "" then [(row.recipients, row.domainName)] else []
  }

  /** The rows with a domain name, under their own names. */
  function AllNamed(rows: seq<Row>, i: nat): seq<Entry>
    requires i <= |rows|
    decreases |rows| - i
  {
    if i == |rows| then []
    else Own(rows[i]) + AllNamed(rows, i + 1)
  }

  /** The breakdowns of the slaves 0 to n - 1 put together. */
  function Shares(rows: seq<Row>, count: int, n: nat, relay: Relay): multiset<Entry> {
    if n == 0 then multiset{} else Shares(rows, count, n - 1, relay) + multiset(Share(rows, count, n - 1, relay))
  }

  function SharesTotal(rows: seq<Row>, count: int, n: nat, relay: Relay): int {
    if n == 0 then 0 else SharesTotal(rows, count, n - 1, relay) + Total(Share(rows, count, n - 1, relay))
  }

  lemma {:induction false} TotalAppend(a: seq<Entry>, b: seq<Entry>)
    ensures Total(a + b) == Total(a) + Total(b)
  {
    if a == [] {
      assert a + b == b;
    } else {
      assert (a + b)[0] == a[0] && (a + b)[1..] == a[1..] + b;
      TotalAppend(a[1..], b);
    }
  }

  /** The entries that slaves 0 to n - 1 list by name, for the rows from number `i` on. */
  function NamedShares(rows: seq<Row>, i: nat, count: int, n: nat, relay: Relay): multiset<Entry>
    requires i <= |rows|
  {
    if n == 0 then multiset{}
    else NamedShares(rows, i, count, n - 1, relay) + multiset(Named(rows, i, count, n - 1, relay))
  }

  /** The recipients that slaves 0 to n - 1 list, by name or under the relay. */
  function Recipients(rows: seq<Row>, i: nat, count: int, n: nat, relay: Relay): int
    requires i <= |rows|
  {
    if n == 0 then 0
    else Recipients(rows, i, count, n - 1, relay)
         + Total(Named(rows, i, count, n - 1, relay)) + External(rows, i, count, n - 1, relay)
  }

  /** What one more row adds to the shares of the first n slaves: its entry, at the slave it belongs to. */
  lemma {:induction false} RowAddsEntry(rows: seq<Row>, i: nat, count: nat, n: nat, relay: Relay)
    requires i < |rows| && n <= count && 0 < count && relay.address == ""
    ensures NamedShares(rows, i, count, n, relay)
         == NamedShares(rows, i + 1, count, n, relay)
            + (if i % count < n then multiset(Own(rows[i])) else multiset{})
  {
    hide Taken, Own, Named;
    if n == 0 {
    } else {
      RowAddsEntry(rows, i, count, n - 1, relay);
      SlaveRow(rows, i, count, n - 1, relay);
      MultisetOf(Own(rows[i]), Named(rows, i + 1, count, n - 1, relay));
    }
  }

  lemma {:induction false} RowAddsRecipients(rows: seq<Row>, i: nat, count: nat, n: nat, relay: Relay)
    requires i < |rows| && n <= count && 0 < count
    ensures Recipients(rows, i, count, n, relay)
         == Recipients(rows, i + 1, count, n, relay) + (if i % count < n then Total(Own(rows[i])) else 0)
  {
    hide Taken, Own, Named, External, Total;
    if n == 0 {
    } else {
      RowAddsRecipients(rows, i, count, n - 1, relay);
      SlaveRow(rows, i, count, n - 1, relay);
      TotalAppend(Own(rows[i]), Named(rows, i + 1, count, n - 1, relay));
    }
  }

  /** One row, at the slave it belongs to and at the others. */
  lemma SlaveRow(rows: seq<Row>, i: nat, count: nat, k: nat, relay: Relay)
    requires i < |rows| && k < count
    ensures i % count != k ==>
      Named(rows, i, count, k, relay) == Named(rows, i + 1, count, k, relay) &&
      External(rows, i, count, k, relay) == External(rows, i + 1, count, k, relay)
    ensures i % count == k && Listed(rows[i], relay) ==>
      Named(rows, i, count, k, relay) == Own(rows[i]) + Named(rows, i + 1, count, k, relay) &&
      External(rows, i, count, k, relay) == External(rows, i + 1, count, k, relay)
    ensures i % count == k && !Listed(rows[i], relay) ==>
      Named(rows, i, count, k, relay) == Named(rows, i + 1, count, k, relay) &&
      External(rows, i, count, k, relay) == Total(Own(rows[i])) + External(rows, i + 1, count, k, relay)
  {
    hide Taken, Listed;
    TakenIs(rows[i], i, count, k, relay);
    if rows[i].domainName != "" { TakenByOne(rows[i], i, count, k); }
    var rest := Named(rows, i + 1, count, k, relay);
    assert [] + rest == rest;
    assert [(rows[i].recipients, rows[i].domainName)][1..] == [];
  }

  lemma MultisetOf(a: seq<Entry>, b: seq<Entry>)
    ensures multiset(a + b) == multiset(a) + multiset(b)
  {
  }

  lemma {:induction false} AllRows(rows: seq<Row>, i: nat, count: nat, relay: Relay)
    requires i <= |rows| && 0 < count
    ensures relay.address == "" ==> NamedShares(rows, i, count, count, relay) == multiset(AllNamed(rows, i))
    ensures Recipients(rows, i, count, count, relay) == Total(AllNamed(rows, i))
    decreases |rows| - i
  {
    hide NamedShares, Recipients, Own;
    if i == |rows| {
      NoRows(rows, count, count, relay);
    } else {
      AllRows(rows, i + 1, count, relay);
      if relay.address == "" { RowAddsEntry(rows, i, count, count, relay); }
      RowAddsRecipients(rows, i, count, count, relay);
      TotalAppend(Own(rows[i]), AllNamed(rows, i + 1));
      MultisetOf(Own(rows[i]), AllNamed(rows, i + 1));
    }
  }

  lemma {:induction false} NoRows(rows: seq<Row>, count: nat, n: nat, relay: Relay)
    ensures NamedShares(rows, |rows|, count, n, relay) == multiset{} && Recipients(rows, |rows|, count, n, relay) == 0
  {
    if n == 0 {
    } else {
      NoRows(rows, count, n - 1, relay);
    }
  }

  lemma {:induction false} SharesAre(rows: seq<Row>, count: nat, n: nat, relay: Relay)
    ensures SharesTotal(rows, count, n, relay) == Recipients(rows, 0, count, n, relay)
    ensures relay.address == "" ==> Shares(rows, count, n, relay) == NamedShares(rows, 0, count, n, relay)
  {
    hide Named, External;
    if n == 0 {
    } else {
      SharesAre(rows, count, n - 1, relay);
      var named, ext := Named(rows, 0, count, n - 1, relay), External(rows, 0, count, n - 1, relay);
      if relay.address != "" {
        var e: seq<Entry> := [(ext, relay.address)];
        TotalAppend(named, e);
        assert e[1..] == [] && Total(e) == ext;
        assert Share(rows, count, n - 1, relay) == named + e;
      } else {
        NoExternal(rows, 0, count, n - 1, relay);
        assert named + [] == named;
      }
    }
  }

  lemma {:induction false} NoExternal(rows: seq<Row>, i: nat, count: int, offset: int, relay: Relay)
    requires i <= |rows| && relay.address == ""
    ensures External(rows, i, count, offset, relay) == 0
    decreases |rows| - i
  {
    if i == |rows| {
    } else {
      NoExternal(rows, i + 1, count, offset, relay);
    }
  }

  /**
   * Over the same rows, the breakdowns of slaves 0 to count - 1 hold every recipient of a named
   * domain once: entry by entry without a relay, and in sum with or without one.
   */
  lemma SlavesShareAll(rows: seq<Row>, count: nat, relay: Relay)
    requires 0 < count
    ensures relay.address == "" ==> Shares(rows, count, count, relay) == multiset(AllNamed(rows, 0))
    ensures SharesTotal(rows, count, count, relay) == Total(AllNamed(rows, 0))
  {
    SharesAre(rows, count, count, relay);
    AllRows(rows, 0, count, relay);
  }

  /** How many recipients a list of entries has under a name. */
  function Under(b: seq<Entry>, name: string): int {
    if b == [] then 0 else (if b[0].1 == name then b[0].0 else 0) + Under(b[1..], name)
  }

  lemma {:induction false} UnderAppend(a: seq<Entry>, b: seq<Entry>, name: string)
    ensures Under(a + b, name) == Under(a, name) + Under(b, name)
  {
    if a == [] {
      assert a + b == b;
    } else {
      assert (a + b)[0] == a[0] && (a + b)[1..] == a[1..] + b;
      UnderAppend(a[1..], b, name);
    }
  }

  /** How many the slaves 0 to n - 1 list under a name, all together. */
  function SharesUnder(rows: seq<Row>, count: int, n: nat, relay: Relay, name: string): int {
    if n == 0 then 0
    else SharesUnder(rows, count, n - 1, relay, name) + Under(Share(rows, count, n - 1, relay), name)
  }

  /** With a relay a slave lists only the internal domain by name, and that only if it is not the relay itself. */
  lemma {:induction false} NamedUnder(rows: seq<Row>, i: nat, count: int, offset: int, relay: Relay, name: string)
    requires i <= |rows| && relay.address != ""
    ensures var named := Named(rows, i, count, offset, relay);
      && Under(named, name) == (if name == relay.internalDomain then Total(named) else 0)
      && (relay.address == relay.internalDomain ==> named == [])
    decreases |rows| - i
  {
    if i == |rows| {
    } else {
      NamedUnder(rows, i + 1, count, offset, relay, name);
      var e: seq<Entry> := [(rows[i].recipients, rows[i].domainName)];
      UnderAppend(e, Named(rows, i + 1, count, offset, relay), name);
      TotalAppend(e, Named(rows, i + 1, count, offset, relay));
      assert e[1..] == [] && [] + Named(rows, i + 1, count, offset, relay) == Named(rows, i + 1, count, offset, relay);
    }
  }

  /** What slaves 0 to n - 1 list by name, for the rows from number `i` on. */
  function NamedTotal(rows: seq<Row>, i: nat, count: int, n: nat, relay: Relay): int
    requires i <= |rows|
  {
    if n == 0 then 0 else NamedTotal(rows, i, count, n - 1, relay) + Total(Named(rows, i, count, n - 1, relay))
  }

  lemma {:induction false} RowAddsNamed(rows: seq<Row>, i: nat, count: nat, n: nat, relay: Relay)
    requires i < |rows| && n <= count && 0 < count
    ensures NamedTotal(rows, i, count, n, relay)
         == NamedTotal(rows, i + 1, count, n, relay)
            + (if i % count < n && Listed(rows[i], relay) then Total(Own(rows[i])) else 0)
  {
    hide Taken, Own, Named, External, Total, Listed;
    if n == 0 {
    } else {
      RowAddsNamed(rows, i, count, n - 1, relay);
      SlaveRow(rows, i, count, n - 1, relay);
      TotalAppend(Own(rows[i]), Named(rows, i + 1, count, n - 1, relay));
    }
  }

  lemma {:induction false} AllRowsNamed(rows: seq<Row>, i: nat, count: nat, relay: Relay)
    requires i <= |rows| && 0 < count && relay.address != ""
    ensures NamedTotal(rows, i, count, count, relay)
         == if relay.address == relay.internalDomain then 0 else Under(AllNamed(rows, i), relay.internalDomain)
    decreases |rows| - i
  {
    hide NamedTotal;
    if i == |rows| {
      NoneNamed(rows, count, count, relay);
    } else {
      AllRowsNamed(rows, i + 1, count, relay);
      RowAddsNamed(rows, i, count, count, relay);
      UnderAppend(Own(rows[i]), AllNamed(rows, i + 1), relay.internalDomain);
      assert Own(rows[i]) != [] ==> Own(rows[i])[1..] == [];
    }
  }

  lemma {:induction false} NoneNamed(rows: seq<Row>, count: nat, n: nat, relay: Relay)
    ensures NamedTotal(rows, |rows|, count, n, relay) == 0
  {
    if n == 0 {
    } else {
      NoneNamed(rows, count, n - 1, relay);
    }
  }

  lemma {:induction false} SharesUnderAre(rows: seq<Row>, count: nat, n: nat, relay: Relay, name: string)
    requires relay.address != ""
    ensures var named, all := NamedTotal(rows, 0, count, n, relay), Recipients(rows, 0, count, n, relay);
      SharesUnder(rows, count, n, relay, name)
      == (if name == relay.internalDomain then named else 0) + (if name == relay.address then all - named else 0)
  {
    hide Named, External;
    if n == 0 {
    } else {
      SharesUnderAre(rows, count, n - 1, relay, name);
      var named, ext := Named(rows, 0, count, n - 1, relay), External(rows, 0, count, n - 1, relay);
      var e: seq<Entry> := [(ext, relay.address)];
      NamedUnder(rows, 0, count, n - 1, relay, name);
      UnderAppend(named, e, name);
      assert e[1..] == [] && Under(e, name) == if name == relay.address then ext else 0;
      assert Share(rows, count, n - 1, relay) == named + e;
    }
  }

  /**
   * With a relay the slaves together list the internal domain's recipients under its name, unless
   * it is the relay, all others under the relay's, and nobody under any other name.
   */
  lemma SharesByName(rows: seq<Row>, count: nat, relay: Relay, name: string)
    requires 0 < count && relay.address != ""
    ensures var all := AllNamed(rows, 0);
      var internal := if relay.internalDomain == relay.address then 0 else Under(all, relay.internalDomain);
      SharesUnder(rows, count, count, relay, name) ==
        if name == relay.address then Total(all) - internal
        else if name == relay.internalDomain then internal
        else 0
  {
    SharesUnderAre(rows, count, count, relay, name);
    AllRowsNamed(rows, 0, count, relay);
    AllRows(rows, 0, count, relay);
  }

  /** Without slaves every row with a domain name is listed, in order, when there is no relay. */
  lemma {:induction false} AloneListsAll(rows: seq<Row>, i: nat, count: int, offset: int, relay: Relay)
    requires i <= |rows| && (count <= 0 || offset < 0) && relay.address == ""
    ensures Named(rows, i, count, offset, relay) == AllNamed(rows, i)
    decreases |rows| - i
  {
    if i == |rows| {
    } else {
      AloneListsAll(rows, i + 1, count, offset, relay);
    }
  }
}
