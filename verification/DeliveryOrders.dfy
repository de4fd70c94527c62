/** When the order in which records arrive at a registry does not matter: an exact condition on the records. */
module DeliveryOrders {
  import opened ServiceRecords

  ghost function MergedAll(records: seq<ServiceRecord>): Services {
    if records == [] then map[] else Merge(MergedAll(records[..|records| - 1]), records[|records| - 1])
  }

  /** The sequence delivers exactly these records, any of them more than once. */
  ghost predicate Delivers(s: seq<ServiceRecord>, records: set<ServiceRecord>) {
    forall r :: r in s <==> r in records
  }

  ghost predicate OrderIsIrrelevant(records: set<ServiceRecord>) {
    forall s, t :: Delivers(s, records) && Delivers(t, records) ==> MergedAll(s) == MergedAll(t)
  }

  /** The record is preferred to all others of its service and shares its timestamp with none of them. */
  ghost predicate Dominates(d: ServiceRecord, records: set<ServiceRecord>) {
    d in records && forall r :: r in records && r.serviceId == d.serviceId && r != d ==>
      Preferred(d, r) && r.registrationTimestamp != d.registrationTimestamp
  }

  ghost predicate HasDominant(records: set<ServiceRecord>, id: string) {
    exists d :: Dominates(d, records) && d.serviceId == id
  }

  lemma {:induction false} PreferredIsAsymmetric(a: ServiceRecord, b: ServiceRecord)
    ensures !(Preferred(a, b) && Preferred(b, a))
  {
    LessIsTotal(Version(a), Version(b));
    LessIsTotal(Stamp(a), Stamp(b));
  }

  lemma {:induction false} IncomparableSharesTimestamp(a: ServiceRecord, b: ServiceRecord)
    requires !Preferred(a, b) && !Preferred(b, a)
    ensures a.registrationTimestamp == b.registrationTimestamp
  {
    LessIsTotal(Version(a), Version(b));
    LessIsTotal(Stamp(a), Stamp(b));
    SameCodesSameString(a.registrationTimestamp, b.registrationTimestamp);
  }

  lemma {:induction false} KeptAgainst(d: ServiceRecord, r: ServiceRecord)
    requires Preferred(d, r)
    ensures Kept(r, d) == d
    ensures r.registrationTimestamp != d.registrationTimestamp ==> Kept(d, r) == d
    ensures r.registrationTimestamp == d.registrationTimestamp ==> Kept(d, r) == r
  {
    PreferredIsAsymmetric(d, r);
  }

  // ---------------------------------------------------------------------------------------
  // A dominant record decides
  // ---------------------------------------------------------------------------------------

  lemma {:induction false} MergedAllKeys(s: seq<ServiceRecord>)
    ensures forall id :: id in MergedAll(s) <==> exists i :: 0 <= i < |s| && s[i].serviceId == id
    ensures forall id :: id in MergedAll(s) ==> MergedAll(s)[id] in s && MergedAll(s)[id].serviceId == id
  {
    if s != [] {
      var front := s[..|s| - 1];
      MergedAllKeys(front);
      forall id
        ensures id in MergedAll(s) <==> exists i :: 0 <= i < |s| && s[i].serviceId == id
      {
        if id in MergedAll(front) {
          var i :| 0 <= i < |front| && front[i].serviceId == id;
          assert s[i].serviceId == id;
        }
        if i :| 0 <= i < |s| && s[i].serviceId == id {
          assert i < |front| ==> front[i].serviceId == id;
        }
      }
    }
  }

  lemma {:induction false} DominantStays(s: seq<ServiceRecord>, records: set<ServiceRecord>, d: ServiceRecord)
    requires Dominates(d, records) && (forall r :: r in s ==> r in records) && d in s
    ensures d.serviceId in MergedAll(s) && MergedAll(s)[d.serviceId] == d
  {
    var front, last := s[..|s| - 1], s[|s| - 1];
    MergedAllKeys(front);
    if d in front {
      DominantStays(front, records, d);
      if last.serviceId == d.serviceId && last != d {
        KeptAgainst(d, last);
      }
    } else {
      assert last == d;
      if d.serviceId in MergedAll(front) {
        KeptAgainst(d, MergedAll(front)[d.serviceId]);
      }
    }
  }

  lemma {:induction false} SameDominants(
      s: seq<ServiceRecord>, t: seq<ServiceRecord>, records: set<ServiceRecord>, id: string)
    requires Delivers(s, records) && Delivers(t, records) && id in MergedAll(s)
    requires HasDominant(records, id)
    ensures id in MergedAll(t) && MergedAll(s)[id] == MergedAll(t)[id]
  {
    var d :| Dominates(d, records) && d.serviceId == id;
    DominantStays(s, records, d);
    DominantStays(t, records, d);
  }

  // ---------------------------------------------------------------------------------------
  // Without one, two orders differ
  // ---------------------------------------------------------------------------------------

  lemma {:induction false} Listing(records: set<ServiceRecord>) returns (s: seq<ServiceRecord>)
    ensures Delivers(s, records)
    decreases |records|
  {
    if records == {} {
      s := [];
    } else {
      var r :| r in records;
      var rest := Listing(records - {r});
      s := rest + [r];
    }
  }

  /** Some record of the service has none preferred to it. */
  lemma {:induction false} BestOf(records: set<ServiceRecord>, id: string) returns (d: ServiceRecord)
    requires exists r :: r in records && r.serviceId == id
    ensures d in records && d.serviceId == id
    ensures forall r :: r in records && r.serviceId == id ==> !Preferred(r, d)
    decreases |records|
  {
    var r :| r in records && r.serviceId == id;
    var others := records - {r};
    if exists q :: q in others && q.serviceId == id {
      var best := BestOf(others, id);
      PreferredIsAsymmetric(r, r);
      PreferredIsAsymmetric(r, best);
      d := if Preferred(r, best) then r else best;
      forall q | q in records && q.serviceId == id
        ensures !Preferred(q, d)
      {
        if q != r && Preferred(q, r) && Preferred(r, best) {
          WinsIsTransitive(q, r, best);
          PreferredIsAsymmetric(q, r);
        }
      }
    } else {
      d := r;
      PreferredIsAsymmetric(r, r);
    }
  }

  lemma {:induction false} ArrivesLast(s: seq<ServiceRecord>, d: ServiceRecord)
    requires forall r :: r in s && r.serviceId == d.serviceId ==>
      !Preferred(r, d)
    ensures d.serviceId in MergedAll(s + [d]) && MergedAll(s + [d])[d.serviceId] == d
  {
    assert (s + [d])[..|s|] == s;
    MergedAllKeys(s);
    if d.serviceId in MergedAll(s) {
      var present := MergedAll(s)[d.serviceId];
      if Preferred(d, present) {
        KeptAgainst(d, present);
      } else {
        IncomparableSharesTimestamp(d, present);
      }
    }
  }

  /** A best record and another one that shares its timestamp and is not preferred to it. */
  lemma {:induction false} Rivals(records: set<ServiceRecord>, id: string) returns (d: ServiceRecord, e: ServiceRecord)
    requires (exists r :: r in records && r.serviceId == id) && !HasDominant(records, id)
    ensures d in records && e in records && d != e && d.serviceId == e.serviceId == id
    ensures d.registrationTimestamp == e.registrationTimestamp && !Preferred(e, d)
    ensures forall r :: r in records && r.serviceId == id ==> !Preferred(r, d)
  {
    d := BestOf(records, id);
    assert !Dominates(d, records);
    e :| e in records && e.serviceId == id && e != d
      && !(Preferred(d, e) && e.registrationTimestamp != d.registrationTimestamp);
    if !Preferred(d, e) {
      IncomparableSharesTimestamp(d, e);
    }
  }

  lemma {:induction false} RivalReplaces(s: seq<ServiceRecord>, d: ServiceRecord, e: ServiceRecord)
    requires d.serviceId == e.serviceId && d.serviceId in MergedAll(s) && MergedAll(s)[d.serviceId] == d
    requires d.registrationTimestamp == e.registrationTimestamp
    ensures e.serviceId in MergedAll(s + [e]) && MergedAll(s + [e])[e.serviceId] == e
  {
    assert (s + [e])[..|s|] == s;
  }

  lemma {:induction false} OneMoreDelivery(s: seq<ServiceRecord>, r: ServiceRecord, records: set<ServiceRecord>)
    requires Delivers(s, records) && r in records
    ensures Delivers(s + [r], records)
  {
  }

  lemma {:induction false} OrderMatters(
      s: seq<ServiceRecord>, t: seq<ServiceRecord>, records: set<ServiceRecord>, id: string)
    requires Delivers(s, records) && Delivers(t, records)
    requires id in MergedAll(s) && id in MergedAll(t) && MergedAll(s)[id] != MergedAll(t)[id]
    ensures !OrderIsIrrelevant(records)
  {
  }

  lemma {:induction false} TwoOrdersDiffer(records: set<ServiceRecord>, id: string)
    requires (exists r :: r in records && r.serviceId == id) && !HasDominant(records, id)
    ensures !OrderIsIrrelevant(records)
  {
    var d, e := Rivals(records, id);
    var all := Listing(records);
    var s := all + [d];
    var t := s + [e];
    assert d.serviceId in MergedAll(s) && MergedAll(s)[d.serviceId] == d by {
      ArrivesLast(all, d);
    }
    assert e.serviceId in MergedAll(t) && MergedAll(t)[e.serviceId] == e by {
      RivalReplaces(s, d, e);
    }
    OneMoreDelivery(all, d, records);
    OneMoreDelivery(s, e, records);
    OrderMatters(s, t, records, id);
  }

  /** However records arrive, and however often, the same map results if and only if every service among them has
      a record that is preferred to all others and shares its timestamp with none. */
  lemma {:induction false} OrdersAgreeExactly(records: set<ServiceRecord>)
    ensures OrderIsIrrelevant(records) <==> forall r :: r in records ==> HasDominant(records, r.serviceId)
  {
    if forall r :: r in records ==> HasDominant(records, r.serviceId) {
      forall s, t | Delivers(s, records) && Delivers(t, records)
        ensures MergedAll(s) == MergedAll(t)
      {
        MergedAllKeys(s);
        MergedAllKeys(t);
        forall id | id in MergedAll(s)
          ensures id in MergedAll(t) && MergedAll(s)[id] == MergedAll(t)[id]
        {
          SameDominants(s, t, records, id);
        }
        forall id | id in MergedAll(t)
          ensures id in MergedAll(s)
        {
          SameDominants(t, s, records, id);
        }
      }
    } else {
      var r :| r in records && !HasDominant(records, r.serviceId);
      TwoOrdersDiffer(records, r.serviceId);
    }
  }

  // ---------------------------------------------------------------------------------------
  // Registries that already hold something
  // ---------------------------------------------------------------------------------------

  ghost predicate AllHaveDominants(records: set<ServiceRecord>) {
    forall r :: r in records ==> HasDominant(records, r.serviceId)
  }

  /** Distinct timestamps are enough, but not necessary. */
  lemma {:induction false} CoherentHasDominants(records: set<ServiceRecord>)
    requires Coherent(records)
    ensures AllHaveDominants(records)
  {
    forall r | r in records
      ensures HasDominant(records, r.serviceId)
    {
      if !HasDominant(records, r.serviceId) {
        var d, e := Rivals(records, r.serviceId);
        assert false;
      }
    }
  }

  /** Of the records seen so far, one for each service is held, a dominant one if it has been seen. */
  ghost predicate HoldsDominants(services: Services, seen: set<ServiceRecord>, all: set<ServiceRecord>) {
    && (forall id :: id in services ==> services[id] in seen && services[id].serviceId == id)
    && (forall r :: r in seen ==> r.serviceId in services)
    && (forall d :: d in seen && Dominates(d, all) ==> services[d.serviceId] == d)
  }

  lemma {:induction false} MergeHoldsDominants(
      services: Services, seen: set<ServiceRecord>, all: set<ServiceRecord>, record: ServiceRecord)
    requires HoldsDominants(services, seen, all) && seen <= all && record in all
    ensures HoldsDominants(Merge(services, record), seen + {record}, all)
  {
    var id, after := record.serviceId, Merge(services, record);
    forall d | d in seen + {record} && Dominates(d, all)
      ensures after[d.serviceId] == d
    {
      if d.serviceId == id && id in services {
        var present := services[id];
        if d == record && present != d {
          KeptAgainst(d, present);
        } else if d != record {
          KeptAgainst(d, record);
        }
      }
    }
  }

  lemma {:induction false} KeptIsDominant(
      local: ServiceRecord, remote: ServiceRecord, d: ServiceRecord, all: set<ServiceRecord>)
    requires Dominates(d, all) && local in all && remote in all && d in {local, remote}
    requires local.serviceId == remote.serviceId
    ensures Kept(local, remote) == d
  {
    if d == remote && local != d {
      KeptAgainst(d, local);
    } else if d != remote {
      KeptAgainst(d, remote);
    }
  }

  lemma {:induction false} SyncHoldsDominants(
      local: Services, localSeen: set<ServiceRecord>,
      remote: Services, remoteSeen: set<ServiceRecord>, all: set<ServiceRecord>)
    requires HoldsDominants(local, localSeen, all) && HoldsDominants(remote, remoteSeen, all)
    requires localSeen <= all && remoteSeen <= all
    ensures HoldsDominants(Synced(local, remote), localSeen + remoteSeen, all)
  {
    var after := Synced(local, remote);
    forall d | d in localSeen + remoteSeen && Dominates(d, all)
      ensures after[d.serviceId] == d
    {
      var id := d.serviceId;
      if id in local && id in remote {
        KeptIsDominant(local[id], remote[id], d, all);
      }
    }
  }

  lemma {:induction false} DominantsAreJoin(services: Services, records: set<ServiceRecord>)
    requires HoldsDominants(services, records, records) && AllHaveDominants(records)
    ensures IsJoin(services, records)
  {
    forall r | r in records
      ensures Wins(services[r.serviceId], r)
    {
      var d :| Dominates(d, records) && d.serviceId == r.serviceId;
    }
  }

  lemma {:induction false} SameDominantMaps(a: Services, b: Services, all: set<ServiceRecord>)
    requires HoldsDominants(a, all, all) && HoldsDominants(b, all, all) && AllHaveDominants(all)
    ensures a == b
  {
    forall id | id in a
      ensures id in b && a[id] == b[id]
    {
      var d :| Dominates(d, all) && d.serviceId == id;
    }
    forall id | id in b
      ensures id in a
    {
      assert b[id] in all;
    }
  }

  lemma {:induction false} OwnDominants(services: Services, all: set<ServiceRecord>)
    requires KeyedById(services)
    ensures HoldsDominants(services, services.Values, all)
  {
    forall r | r in services.Values
      ensures r.serviceId in services && services[r.serviceId] == r
    {
      var id :| id in services && services[id] == r;
    }
  }
}
