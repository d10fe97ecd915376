/** The in-memory offer store, keyed by offer id, with whole-record replacement. */
module OfferRepository {
  import opened Entities

  /** Every key maps to the offer that has that id. */
  predicate KeyedById(m: map<string, Offer>) {
    forall id | id in m :: m[id].id == id
  }

  /** Storing an offer keeps every key mapped to the offer with that id. */
  lemma UpsertKeyedById(m: map<string, Offer>, o: Offer)
    requires KeyedById(m)
    ensures KeyedById(m[o.id := o])
  {
  }

  /** Storing the same offer twice gives the map that storing it once gives. */
  lemma UpsertIdempotent(m: map<string, Offer>, o: Offer)
    ensures m[o.id := o][o.id := o] == m[o.id := o]
  {
  }

  class InMemoryOfferRepository {
    var offers: map<string, Offer>

    ghost predicate Valid()
      reads this
    {
      KeyedById(offers)
    }

    constructor ()
      ensures Valid() && offers == map[]
    {
      offers := map[];
    }

    /**
     * Stores `offer` under its id, replacing any previous offer with that id in
     * full. The source's error result is always nil.
     */
    method Upsert(offer: Offer)
      requires Valid()
      modifies this
      ensures Valid()
      ensures offer.id in offers && offers[offer.id] == offer
      ensures forall id | id in old(offers) && id != offer.id :: id in offers && offers[id] == old(offers)[id]
      ensures offers.Keys == old(offers).Keys + {offer.id}
    {
      offers := offers[offer.id := offer];
    }

    /** Every stored offer exactly once, in unspecified order. */
    method GetAll() returns (all: seq<Offer>)
      requires Valid()
      ensures UniqueOfferIds(all)
      ensures Elements(all) == offers.Values
      ensures |all| == |offers|
    {
      all := [];
      var remaining := offers.Keys;
      while remaining != {}
        invariant remaining <= offers.Keys
        invariant |all| + |remaining| == |offers.Keys|
        invariant forall i | 0 <= i < |all| ::
          all[i].id in offers && offers[all[i].id] == all[i] && all[i].id !in remaining
        invariant forall id | id in offers && id !in remaining :: offers[id] in all
        invariant UniqueOfferIds(all)
        decreases remaining
      {
        var id :| id in remaining;
        all := all + [offers[id]];
        remaining := remaining - {id};
      }
      forall o | o in offers.Values
        ensures o in all
      {
        var id :| id in offers && offers[id] == o;
      }
      assert Elements(all) == offers.Values;
    }
  }
}
