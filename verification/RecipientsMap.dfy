/** Recipients by domain and relay: what `RecipientsMap` lists, and what it then gives out. */
module RecipientsMaps {
  import opened Text
  import opened Breakdowns

  datatype Recipient = Recipient(id: string, name: string, customFields: map<string, string>)

  const CAMPAIGN_NAME := "customfield1"
  const ATTACHMENT_NAME := "customfield2"

  /** The two options of the configuration that matter here. */
  datatype Options = Options(relay: string, internal: string)

  /** What follows the first '@' of an address; "" when nothing does. */
  function DomainOf(email: string): string {
    var at := IndexOf(email, '@', 0);
    if at < |email| && at + 1 < |email| then email[at + 1..] else ""
  }

  /** An address as it is written: a local part, "@" and the domain; without a domain, nothing behind the "@", or no "@". */
  ghost predicate Written(email: string, domain: string) {
    if domain == "" then '@' !in email || exists local :: '@' !in local && email == local + "@"
    else exists local :: '@' !in local && email == local + "@" + domain
  }

  ghost function WrittenOn(emails: set<string>, domain: string): set<string> {
    set e | e in emails && Written(e, domain)
  }

  lemma DomainIsWritten(email: string, domain: string)
    ensures DomainOf(email) == domain <==> Written(email, domain)
  {
    var at := IndexOf(email, '@', 0);
    var local := email[..at];
    assert email[0..at] == local;
    if at == |email| {
      assert email == local;
    } else {
      assert email == local + "@" + email[at + 1..];
      assert at + 1 == |email| ==> email[at + 1..] == "" && email == local + "@";
    }
    forall l: string, d: string | '@' !in l && email == l + "@" + d ensures at == |l| && email[at + 1..] == d {
      IndexOfIs(email, '@', 0, |l|);
    }
    forall l: string | '@' !in l && email == l + "@" ensures at == |l| {
      IndexOfIs(email, '@', 0, |l|);
    }
  }

  /** The addresses on a domain. */
  function On(emails: set<string>, domain: string): set<string> {
    set e | e in emails && DomainOf(e) == domain
  }

  function Domains(emails: set<string>): set<string> {
    set e | e in emails :: DomainOf(e)
  }

  /** Whether `getRecipients` gives an address out for a domain. */
  predicate GivenFor(email: string, domain: string, o: Options) {
    var own := DomainOf(email);
    own != "" && (
      || (o.internal != "" && o.relay == domain && (o.internal != own || o.relay == o.internal))
      || domain == own)
  }

  function Given(emails: set<string>, domain: string, o: Options): set<string> {
    set e | e in emails && GivenFor(e, domain, o)
  }

  /** The entries that `listDomains` inserts. */
  function Listing(emails: set<string>, o: Options): set<Entry> {
    if o.relay == "" then set d | d in Domains(emails) :: (|On(emails, d)|, d)
    else
      var internal := On(emails, o.internal);
      (if internal == {} then {} else {(if o.relay == o.internal then |emails| else |internal|, o.internal)})
      + (if o.relay == o.internal then {} else {(|emails| - |internal|, o.relay)})
  }

  /** The listing by how addresses are written: which entries there are. */
  ghost predicate IsListed(emails: set<string>, o: Options, x: Entry) {
    if o.relay == "" then x.0 > 0 && x.0 == |WrittenOn(emails, x.1)|
    else
      var internal := |WrittenOn(emails, o.internal)|;
      || (internal > 0 && x == (if o.relay == o.internal then |emails| else internal, o.internal))
      || (o.relay != o.internal && x == (|emails| - internal, o.relay))
  }

  /** Whether an address is given out for a domain, by how it is written. */
  ghost predicate IsGiven(email: string, domain: string, o: Options) {
    && !Written(email, "")
    && (|| Written(email, domain)
        || (o.internal != "" && o.relay == domain && (!Written(email, o.internal) || o.relay == o.internal)))
  }

  lemma OnIsWritten(emails: set<string>, domain: string)
    ensures On(emails, domain) == WrittenOn(emails, domain)
  {
    hide DomainOf, Written;
    forall e { DomainIsWritten(e, domain); }
  }

  lemma ListingIsWritten(emails: set<string>, o: Options, x: Entry)
    ensures x in Listing(emails, o) <==> IsListed(emails, o, x)
  {
    hide DomainOf, On, WrittenOn;
    OnIsWritten(emails, x.1);
    OnIsWritten(emails, o.internal);
    DomainsHave(emails, x.1);
  }

  lemma GivenIsWritten(email: string, domain: string, o: Options)
    ensures GivenFor(email, domain, o) <==> IsGiven(email, domain, o)
  {
    hide DomainOf, Written;
    DomainIsWritten(email, "");
    DomainIsWritten(email, domain);
    DomainIsWritten(email, o.internal);
  }

  /** The copy of a recipient that is given out, with the two fields of the campaign. */
  function Tagged(r: Recipient, campaign: string, attachment: string): Recipient {
    r.(customFields := r.customFields[CAMPAIGN_NAME := campaign][ATTACHMENT_NAME := attachment])
  }

  function Copies(recipients: map<string, Recipient>, emails: set<string>, campaign: string, attachment: string): map<string, Recipient> {
    map e | e in emails && e in recipients :: Tagged(recipients[e], campaign, attachment)
  }

  class RecipientsMap {
    var recipients: map<string, Recipient>
    const campaignName: string
    const attachmentName: string
    const options: Options

    constructor (campaignName: string, attachmentName: string, options: Options)
      ensures recipients == map[]
      ensures this.campaignName == campaignName && this.attachmentName == attachmentName && this.options == options
    {
      this.campaignName, this.attachmentName, this.options := campaignName, attachmentName, options;
      recipients := map[];
    }

    /** The first loop of `listDomains`: how many recipients each domain has. */
    method CountDomains() returns (allDomains: map<string, nat>)
      ensures allDomains.Keys == Domains(recipients.Keys)
      ensures forall d :: d in allDomains ==> allDomains[d] == |On(recipients.Keys, d)|
    {
      hide DomainOf;
      allDomains := map[];
      var rest := recipients.Keys;
      while rest != {}
        invariant rest <= recipients.Keys
        invariant allDomains.Keys == Domains(recipients.Keys - rest)
        invariant forall d :: d in allDomains ==> allDomains[d] == |On(recipients.Keys - rest, d)|
        decreases |rest|
      {
        var email :| email in rest;
        ghost var done := recipients.Keys - rest;
        rest := rest - {email};
        assert recipients.Keys - rest == done + {email};
        var domainName := DomainOf(email);
        OneMoreRecipient(done, email);
        if domainName in allDomains {
          allDomains := allDomains[domainName := allDomains[domainName] + 1];
        } else {
          allDomains := allDomains[domainName := 1];
        }
      }
      assert recipients.Keys - {} == recipients.Keys;
    }

    /** `listDomains`: the breakdown gets the entries of the listing, each once. */
    method ListDomains(breakdown: Breakdown) returns (n: nat, b: Breakdown)
      ensures multiset(b) == multiset(breakdown) + multiset(Listing(recipients.Keys, options))
      ensures forall x ::
        multiset(b)[x] == multiset(breakdown)[x] + (if IsListed(recipients.Keys, options, x) then 1 else 0)
      ensures ByCount(breakdown) ==> ByCount(b)
      ensures n == if options.relay != "" then |b| else |Domains(recipients.Keys)|
    {
      hide Listing, IsListed, Domains, On;
      forall x { ListingIsWritten(recipients.Keys, options, x); }
      var allDomains := CountDomains();
      if options.relay != "" {
        b := ListRelay(breakdown, allDomains);
        n := |b|;
      } else {
        b := ListAll(breakdown, allDomains);
        n := |allDomains|;
      }
    }

    /** With a relay, only the internal domain and the relay itself are listed. */
    method ListRelay(breakdown: Breakdown, allDomains: map<string, nat>) returns (b: Breakdown)
      requires options.relay != "" && allDomains.Keys == Domains(recipients.Keys)
      requires forall d :: d in allDomains ==> allDomains[d] == |On(recipients.Keys, d)|
      ensures Added(b, breakdown, Listing(recipients.Keys, options))
    {
      hide Insert, Added, DomainOf, Domains, On, Listing;
      var internalRecipientsCount := 0;
      b := breakdown;
      NoneAdded(b);
      DomainsHave(recipients.Keys, options.internal);
      ghost var listed: set<Entry> := {};
      if options.internal in allDomains {
        internalRecipientsCount := allDomains[options.internal];
        if options.relay == options.internal { internalRecipientsCount := |recipients|; }
        AddOne(b, breakdown, listed, (internalRecipientsCount, options.internal));
        b := Insert(b, (internalRecipientsCount, options.internal));
        listed := listed + {(internalRecipientsCount, options.internal)};
      }
      if options.relay != options.internal {
        var e := (|recipients| - internalRecipientsCount, options.relay);
        AddOne(b, breakdown, listed, e);
        b := Insert(b, e);
        listed := listed + {e};
      }
      RelayListing(recipients.Keys, options);
    }

    /** Without one, all domains are. */
    method ListAll(breakdown: Breakdown, allDomains: map<string, nat>) returns (b: Breakdown)
      requires options.relay == "" && allDomains.Keys == Domains(recipients.Keys)
      requires forall d :: d in allDomains ==> allDomains[d] == |On(recipients.Keys, d)|
      ensures Added(b, breakdown, Listing(recipients.Keys, options))
    {
      hide Insert, Added, DomainOf, Domains, On, Entries;
      b := breakdown;
      ghost var emails, domains := recipients.Keys, allDomains.Keys;
      NoneAdded(b);
      NoEntries(emails);
      var rest := allDomains.Keys;
      assert domains - rest == {};
      while rest != {}
        invariant rest <= domains
        invariant Added(b, breakdown, Entries(emails, domains - rest))
        decreases |rest|
      {
        var domainName :| domainName in rest;
        ghost var done := domains - rest;
        rest := rest - {domainName};
        assert domains - rest == done + {domainName};
        OneMoreEntry(emails, done, domainName);
        AddOne(b, breakdown, Entries(emails, done), (allDomains[domainName], domainName));
        b := Insert(b, (allDomains[domainName], domainName));
      }
      assert domains - {} == domains;
      AllEntries(emails, options);
    }

    /** One turn of the loop below: the recipient joins the map if it is given for the domain. */
    method GiveOne(email: string, domainName: string, r0: map<string, Recipient>, found0: bool)
      returns (r: map<string, Recipient>, foundDomains: bool)
      requires email in recipients
      ensures var given := GivenFor(email, domainName, options);
        && r == (if given then r0[email := Tagged(recipients[email], campaignName, attachmentName)] else r0)
        && foundDomains == (found0 || given)
    {
      hide DomainOf, Tagged;
      r, foundDomains := r0, found0;
      var recipientDomain := DomainOf(email);
      if recipientDomain != "" {
        var thisRecipient := Tagged(recipients[email], campaignName, attachmentName);
        if options.internal != "" && options.relay == domainName
           && (options.internal != recipientDomain || options.relay == options.internal) {
          r := r[email := thisRecipient];
          foundDomains := true;
        } else if domainName == recipientDomain {
          r := r[email := thisRecipient];
          foundDomains := true;
        }
      }
    }

    /** `getRecipients`: tagged copies of the recipients for a domain join those already in the map. */
    method GetRecipients(domainName: string, found: map<string, Recipient>) returns (foundDomains: bool, r: map<string, Recipient>)
      ensures r == found + Copies(recipients, Given(recipients.Keys, domainName, options), campaignName, attachmentName)
      ensures foundDomains <==> Given(recipients.Keys, domainName, options) != {}
      ensures GivenOut(recipients, domainName, options, campaignName, attachmentName, found, r)
    {
      hide DomainOf, Tagged, Copies, Given, GivenFor, GivenOut;
      AllGivenOut(recipients, domainName, options, campaignName, attachmentName, found);
      r, foundDomains := found, false;
      var rest := recipients.Keys;
      ghost var emails, given: set<string> := recipients.Keys, {};
      NoneGiven(recipients, found, domainName, options, campaignName, attachmentName);
      assert emails - rest == {};
      while rest != {}
        invariant rest <= emails
        invariant given == Given(emails - rest, domainName, options)
        invariant r == found + Copies(recipients, given, campaignName, attachmentName)
        invariant foundDomains <==> given != {}
        decreases |rest|
      {
        var email :| email in rest;
        ghost var done := emails - rest;
        rest := rest - {email};
        OneMoreGiven(done, email, domainName, options);
        OneMoreCopy(found, recipients, given, email, campaignName, attachmentName);
        assert emails - rest == done + {email};
        given := given + (if GivenFor(email, domainName, options) then {email} else {});
        r, foundDomains := GiveOne(email, domainName, r, foundDomains);
      }
      assert emails - {} == emails;
    }
  }

  /** The result by how addresses are written: who is in it, with which fields, and who stays as before. */
  ghost predicate GivenOut(m: map<string, Recipient>, domain: string, o: Options, campaign: string, attachment: string,
                           found: map<string, Recipient>, r: map<string, Recipient>) {
    && (forall e :: e in r <==> e in found || (e in m && IsGiven(e, domain, o)))
    && (forall e :: e in found && !(e in m && IsGiven(e, domain, o)) ==> r[e] == found[e])
    && (forall e :: e in m && IsGiven(e, domain, o) ==>
          r[e] == Recipient(m[e].id, m[e].name, m[e].customFields["customfield1" := campaign]["customfield2" := attachment]))
  }

  lemma AllGivenOut(m: map<string, Recipient>, domain: string, o: Options, campaign: string, attachment: string,
                    found: map<string, Recipient>)
    ensures GivenOut(m, domain, o, campaign, attachment, found, found + Copies(m, Given(m.Keys, domain, o), campaign, attachment))
  {
    hide DomainOf, GivenFor, IsGiven;
    forall e { GivenIsWritten(e, domain, o); }
  }

  lemma NoneGiven(m: map<string, Recipient>, found: map<string, Recipient>, domain: string, o: Options, campaign: string, attachment: string)
    ensures Given({}, domain, o) == {} && found + Copies(m, {}, campaign, attachment) == found
  {
  }

  lemma OneMoreCopy(found: map<string, Recipient>, m: map<string, Recipient>, given: set<string>, email: string,
                    campaign: string, attachment: string)
    requires email in m
    ensures found + Copies(m, given + {email}, campaign, attachment)
         == (found + Copies(m, given, campaign, attachment))[email := Tagged(m[email], campaign, attachment)]
  {
  }

  lemma RelayListing(emails: set<string>, o: Options)
    requires o.relay != ""
    ensures var internal := On(emails, o.internal);
      && (internal == {} && o.relay == o.internal ==> Listing(emails, o) == {})
      && (internal == {} && o.relay != o.internal ==> Listing(emails, o) == {} + {(|emails|, o.relay)})
      && (internal != {} && o.relay == o.internal ==> Listing(emails, o) == {} + {(|emails|, o.internal)})
      && (internal != {} && o.relay != o.internal ==>
          Listing(emails, o) == {} + {(|internal|, o.internal)} + {(|emails| - |internal|, o.relay)})
  {
  }

  /** `b` is `was` with the given entries inserted. */
  ghost predicate Added(b: Breakdown, was: Breakdown, es: set<Entry>) {
    multiset(b) == multiset(was) + multiset(es) && (ByCount(was) ==> ByCount(b))
  }

  lemma NoneAdded(b: Breakdown)
    ensures Added(b, b, {})
  {
  }

  lemma AddOne(b: Breakdown, was: Breakdown, es: set<Entry>, e: Entry)
    requires Added(b, was, es) && e !in es
    ensures Added(Insert(b, e), was, es + {e})
  {
    InsertAdds(b, e);
    if ByCount(b) { InsertKeepsOrder(b, e); }
    assert multiset(es + {e}) == multiset(es) + multiset{e};
  }

  lemma OneMoreGiven(done: set<string>, email: string, domain: string, o: Options)
    ensures Given(done + {email}, domain, o) == Given(done, domain, o) + (if GivenFor(email, domain, o) then {email} else {})
  {
  }

  lemma OneMoreRecipient(done: set<string>, email: string)
    requires email !in done
    ensures Domains(done + {email}) == Domains(done) + {DomainOf(email)}
    ensures forall d :: |On(done + {email}, d)| == |On(done, d)| + (if d == DomainOf(email) then 1 else 0)
    ensures DomainOf(email) !in Domains(done) ==> |On(done, DomainOf(email))| == 0
  {
    hide DomainOf;
    forall d ensures |On(done + {email}, d)| == |On(done, d)| + (if d == DomainOf(email) then 1 else 0) {
      assert On(done + {email}, d) == if d == DomainOf(email) then On(done, d) + {email} else On(done, d);
    }
    if DomainOf(email) !in Domains(done) { assert On(done, DomainOf(email)) == {}; }
  }

  lemma DomainsHave(emails: set<string>, d: string)
    ensures d in Domains(emails) <==> On(emails, d) != {}
  {
    if d in Domains(emails) {
      var e :| e in emails && DomainOf(e) == d;
      assert e in On(emails, d);
    }
  }

  function Entries(emails: set<string>, domains: set<string>): set<Entry> {
    set d | d in domains :: (|On(emails, d)|, d)
  }

  lemma NoEntries(emails: set<string>)
    ensures Entries(emails, {}) == {}
  {
  }

  lemma AllEntries(emails: set<string>, o: Options)
    requires o.relay == ""
    ensures Entries(emails, Domains(emails)) == Listing(emails, o)
  {
  }

  lemma OneMoreEntry(emails: set<string>, done: set<string>, domain: string)
    requires domain !in done
    ensures var e := (|On(emails, domain)|, domain);
      e !in Entries(emails, done) && Entries(emails, done + {domain}) == Entries(emails, done) + {e}
  {
  }
}
