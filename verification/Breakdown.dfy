/** Domains by number of recipients: the `multimap<off_t, string>` that `listDomains` fills. */
module Breakdowns {

  type Entry = (int, string)
  type Breakdown = seq<Entry>

  /** `multimap::insert`: by count, after the entries that have the same count. */
  function Insert(b: Breakdown, e: Entry): Breakdown {
    if b != [] && b[0].0 <= e.0 then [b[0]] + Insert(b[1..], e) else [e] + b
  }

  ghost predicate ByCount(b: Breakdown) {
    forall i, j :: 0 <= i < j < |b| ==> b[i].0 <= b[j].0
  }

  function Total(b: Breakdown): int {
    if b == [] then 0 else b[0].0 + Total(b[1..])
  }

  function InsertAll(b: Breakdown, es: seq<Entry>): Breakdown
    decreases |es|
  {
    if es == [] then b else InsertAll(Insert(b, es[0]), es[1..])
  }

  lemma {:induction false} InsertAdds(b: Breakdown, e: Entry)
    ensures multiset(Insert(b, e)) == multiset(b) + multiset{e}
    ensures Total(Insert(b, e)) == Total(b) + e.0
  {
    if b != [] && b[0].0 <= e.0 {
      InsertAdds(b[1..], e);
      assert b == [b[0]] + b[1..];
    }
  }

  /** In a breakdown in order the new entry is the last of its count. */
  lemma {:induction false} InsertIsLast(b: Breakdown, e: Entry) returns (k: nat)
    requires ByCount(b)
    ensures k <= |b| && Insert(b, e) == b[..k] + [e] + b[k..]
    ensures (forall j :: 0 <= j < k ==> b[j].0 <= e.0) && (forall j :: k <= j < |b| ==> e.0 < b[j].0)
  {
    k := 0;
    if b != [] && b[0].0 <= e.0 {
      k := InsertIsLast(b[1..], e);
      assert b == [b[0]] + b[1..];
      k := k + 1;
    }
  }

  lemma {:induction false} InsertKeepsOrder(b: Breakdown, e: Entry)
    requires ByCount(b)
    ensures ByCount(Insert(b, e))
    ensures forall x :: x in Insert(b, e) ==> x in b || x == e
  {
    if b != [] && b[0].0 <= e.0 {
      InsertKeepsOrder(b[1..], e);
      var rest := Insert(b[1..], e);
      forall j | 0 <= j < |rest| ensures b[0].0 <= rest[j].0 { assert rest[j] in rest; }
    }
  }

  lemma {:induction false} InsertAllAdds(b: Breakdown, es: seq<Entry>)
    ensures multiset(InsertAll(b, es)) == multiset(b) + multiset(es)
    ensures Total(InsertAll(b, es)) == Total(b) + Total(es)
    ensures ByCount(b) ==> ByCount(InsertAll(b, es))
    decreases |es|
  {
    if es == [] {
    } else {
      InsertAdds(b, es[0]);
      if ByCount(b) { InsertKeepsOrder(b, es[0]); }
      InsertAllAdds(Insert(b, es[0]), es[1..]);
      assert es == [es[0]] + es[1..];
    }
  }

  lemma {:induction false} InsertOneMore(b: Breakdown, es: seq<Entry>, e: Entry)
    ensures InsertAll(b, es + [e]) == Insert(InsertAll(b, es), e)
    decreases |es|
  {
    if es == [] {
      assert [] + [e] == [e] && [e][1..] == [];
    } else {
      assert (es + [e])[1..] == es[1..] + [e];
      InsertOneMore(Insert(b, es[0]), es[1..], e);
    }
  }
}
