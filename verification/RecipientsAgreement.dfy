/** When the breakdown of a recipients map agrees with what is fetched from it afterwards. */
module RecipientsAgreement {
  import opened Breakdowns
  import opened RecipientsMaps

  /** Every entry's count is the number of recipients that its domain is given. */
  ghost predicate Agrees(emails: set<string>, o: Options) {
    forall x :: x in Listing(emails, o) ==> x.0 == |Given(emails, x.1, o)|
  }

  /** One recipient is given for exactly one of the listed domains. */
  ghost predicate GivenOnce(emails: set<string>, o: Options, e: string) {
    && (exists x :: x in Listing(emails, o) && GivenFor(e, x.1, o))
    && (forall x, y :: x in Listing(emails, o) && y in Listing(emails, o) && GivenFor(e, x.1, o) && GivenFor(e, y.1, o) ==> x == y)
  }

  ghost predicate Partitions(emails: set<string>, o: Options) {
    forall e :: e in emails ==> GivenOnce(emails, o, e)
  }

  lemma Disjoint(a: set<string>, b: set<string>, c: set<string>)
    requires c == a + b && a !! b
    ensures |c| == |a| + |b|
  {
  }

  /** What is fetched for a domain, and how many that is. */
  lemma GivenSize(emails: set<string>, d: string, o: Options)
    ensures o.internal == "" || o.relay != d ==> Given(emails, d, o) == (if d == "" then {} else On(emails, d))
    ensures o.internal != "" && o.relay == d == o.internal ==> |Given(emails, d, o)| == |emails| - |On(emails, "")|
    ensures o.internal != "" && o.relay == d != o.internal ==>
      |Given(emails, d, o)| == |emails| - |On(emails, "")| - |On(emails, o.internal)|
  {
    hide DomainOf;
    var named := emails - On(emails, "");
    Disjoint(On(emails, ""), named, emails);
    if o.internal != "" && o.relay == d {
      if o.relay == o.internal {
        assert Given(emails, d, o) == named;
      } else {
        Disjoint(Given(emails, d, o), On(emails, o.internal), named);
      }
    }
  }

  /** The listing without a relay, entry by entry. */
  lemma PlainEntries(emails: set<string>, o: Options, x: Entry)
    requires o.relay == ""
    ensures x in Listing(emails, o) <==> x == (|On(emails, x.1)|, x.1) && On(emails, x.1) != {}
  {
    hide DomainOf;
    DomainsHave(emails, x.1);
  }

  /** The listing with a relay, entry by entry. */
  lemma RelayEntries(emails: set<string>, o: Options, x: Entry)
    requires o.relay != ""
    ensures x in Listing(emails, o) <==>
      || (On(emails, o.internal) != {} && x == (if o.relay == o.internal then |emails| else |On(emails, o.internal)|, o.internal))
      || (o.relay != o.internal && x == (|emails| - |On(emails, o.internal)|, o.relay))
  {
  }

  /** The condition on the addresses and the two options. */
  predicate Consistent(emails: set<string>, o: Options) {
    var none, internal := On(emails, ""), On(emails, o.internal);
    if o.relay == "" then none == {} || (o.internal != "" && 2 * |none| + |internal| == |emails|)
    else if o.relay == o.internal then none == {} || internal == {}
    else none == {} && (o.internal != "" || On(emails, o.relay) == emails)
  }

  /** The breakdown agrees with what is fetched exactly when the condition holds. */
  lemma AgreesIff(emails: set<string>, o: Options)
    ensures Agrees(emails, o) <==> Consistent(emails, o)
  {
    if o.relay == "" { AgreesWithoutRelay(emails, o); } else { AgreesWithRelay(emails, o); }
  }

  lemma AgreesWithoutRelay(emails: set<string>, o: Options)
    requires o.relay == ""
    ensures Agrees(emails, o) <==> Consistent(emails, o)
  {
    hide DomainOf, Given, On, Domains, Listing;
    var none := On(emails, "");
    forall x { PlainEntries(emails, o, x); }
    forall x | x in Listing(emails, o) && x.1 != "" ensures x.0 == |Given(emails, x.1, o)| { GivenSize(emails, x.1, o); }
    GivenSize(emails, "", o);
    assert Agrees(emails, o) ==> none == {} || (|none|, "") in Listing(emails, o);
  }

  lemma AgreesWithRelay(emails: set<string>, o: Options)
    requires o.relay != ""
    ensures Agrees(emails, o) <==> Consistent(emails, o)
  {
    hide DomainOf, Given, On, Listing;
    var none, internal := On(emails, ""), On(emails, o.internal);
    forall x ensures x in Listing(emails, o) <==>
      || (internal != {} && x == (if o.relay == o.internal then |emails| else |internal|, o.internal))
      || (o.relay != o.internal && x == (|emails| - |internal|, o.relay))
    {
      RelayEntries(emails, o, x);
    }
    GivenSize(emails, o.internal, o);
    GivenSize(emails, o.relay, o);
    OnSome(emails, o.relay);
    var first: Entry := (if o.relay == o.internal then |emails| else |internal|, o.internal);
    var second: Entry := (|emails| - |internal|, o.relay);
    assert first in Listing(emails, o) <==> internal != {} || (o.relay != o.internal && first == second);
    assert o.relay != o.internal ==> second in Listing(emails, o);
    assert Agrees(emails, o) <==>
      && (internal != {} ==> first.0 == |Given(emails, o.internal, o)|)
      && (o.relay != o.internal ==> second.0 == |Given(emails, o.relay, o)|);
  }

  lemma OnSome(emails: set<string>, d: string)
    ensures On(emails, d) == emails <==> |On(emails, d)| == |emails|
  {
    Disjoint(On(emails, d), emails - On(emails, d), emails);
  }

  /** When the listed domains partition the recipients: none is left out, none given twice. */
  predicate Complete(emails: set<string>, o: Options) {
    && On(emails, "") == {}
    && (o.relay == "" || emails == {}
        || (if o.relay == o.internal then On(emails, o.internal) != {}
            else o.internal != "" || On(emails, o.relay) == emails))
  }

  lemma PartitionsIff(emails: set<string>, o: Options)
    ensures Partitions(emails, o) <==> Complete(emails, o)
  {
    hide DomainOf;
    if o.relay == "" { PartitionsWithoutRelay(emails, o); } else { PartitionsWithRelay(emails, o); }
  }

  lemma PartitionsWithoutRelay(emails: set<string>, o: Options)
    requires o.relay == ""
    ensures Partitions(emails, o) <==> Complete(emails, o)
  {
    hide DomainOf;
    hide Listing;
    forall x { PlainEntries(emails, o, x); }
    forall e | e in emails && On(emails, "") == {} ensures GivenOnce(emails, o, e) {
      var d := DomainOf(e);
      assert e in On(emails, d);
      assert (|On(emails, d)|, d) in Listing(emails, o);
    }
    forall e | e in On(emails, "") ensures !GivenOnce(emails, o, e) {}
  }

  lemma PartitionsWithRelay(emails: set<string>, o: Options)
    requires o.relay != ""
    ensures Partitions(emails, o) <==> Complete(emails, o)
  {
    hide DomainOf, Listing;
    var internal := On(emails, o.internal);
    var first: Entry := (if o.relay == o.internal then |emails| else |internal|, o.internal);
    var second: Entry := (|emails| - |internal|, o.relay);
    forall x { RelayEntries(emails, o, x); }
    forall e | e in emails ensures GivenOnce(emails, o, e) <==>
      DomainOf(e) != "" && (if o.relay == o.internal then internal != {} else o.internal != "" || DomainOf(e) == o.relay)
    {
      assert DomainOf(e) == o.internal ==> e in internal;
      assert first in Listing(emails, o) <==> internal != {} || (o.relay != o.internal && first == second);
      assert o.relay != o.internal ==> second in Listing(emails, o);
    }
    forall e | e in emails ensures e in On(emails, "") <==> DomainOf(e) == "" {}
    assert On(emails, "") == {} <==> forall e :: e in emails ==> DomainOf(e) != "";
    assert On(emails, o.relay) == emails <==> forall e :: e in emails ==> DomainOf(e) == o.relay;
  }

  /**
   * Index agreement: when every address has a domain and a configured relay comes with an internal
   * domain, counts agree; and the listed domains partition the recipients unless relay and
   * internal domain are the same and nobody is on it.
   */
  lemma IndexAgreement(emails: set<string>, o: Options)
    requires On(emails, "") == {} && (o.relay != "" ==> o.internal != "")
    ensures Agrees(emails, o)
    ensures Partitions(emails, o) <==> !(o.relay != "" && o.relay == o.internal && On(emails, o.internal) == {} && emails != {})
  {
    AgreesIff(emails, o);
    PartitionsIff(emails, o);
  }

  /** With relay and internal domain the same and nobody on it, no domain is listed at all. */
  lemma NobodyListed()
    ensures var emails, o := {"a@b"}, Options("relay", "relay");
      emails != {} && Listing(emails, o) == {} && !Partitions(emails, o)
  {
    var emails, o := {"a@b"}, Options("relay", "relay");
    assert |DomainOf("a@b")| == 1;
    assert On(emails, "relay") == {};
    PartitionsIff(emails, o);
  }
}
