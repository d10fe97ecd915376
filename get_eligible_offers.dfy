/** The read path: which offers a user qualifies for at a given instant. */
module GetEligibleOffers {
  import opened Wrappers
  import opened Entities
  import opened Dtos
  import opened AppErrors
  import opened Eligibility
  import opened OfferRepository
  import opened TransactionRepository

  /** Keeps the offers active at `now`, in their order. */
  method FilterActiveOffers(offers: seq<Offer>, now: Instant) returns (active: seq<Offer>)
    ensures active == ActiveOffers(offers, now)
  {
    active := [];
    for i := 0 to |offers|
      invariant active == ActiveOffers(offers[..i], now)
    {
      var offer := offers[i];
      assert offers[..i + 1][..i] == offers[..i];
      if offer.active && !(now < offer.startsAt) && !(now > offer.endsAt) {
        active := active + [offer];
      }
    }
    assert offers[..|offers|] == offers;
  }

  /** One reported entry per eligible offer, carrying the offer's id and reason. */
  method ToEligibleOfferDtos(eligible: seq<Offer>) returns (entries: seq<EligibleOfferDto>)
    ensures entries == Entries(eligible)
  {
    entries := [];
    for i := 0 to |eligible|
      invariant entries == Entries(eligible[..i])
    {
      var offer := eligible[i];
      assert eligible[..i + 1][..i] == eligible[..i];
      entries := entries + [EligibleOfferDto(offer.id, Reason(offer))];
    }
    assert eligible[..|eligible|] == eligible;
  }

  class GetEligibleOffersUseCase {
    const offerRepository: InMemoryOfferRepository
    const transactionRepository: InMemoryTransactionRepository

    constructor (offerRepository: InMemoryOfferRepository, transactionRepository: InMemoryTransactionRepository)
      ensures this.offerRepository == offerRepository
      ensures this.transactionRepository == transactionRepository
    {
      this.offerRepository := offerRepository;
      this.transactionRepository := transactionRepository;
    }

    /**
     * Reads every offer and the user's transactions, keeps the active offers,
     * counts each one's qualifying transactions and reports those that reach
     * their threshold. Neither store is written. `offers` and `userTransactions`
     * are the two snapshots the reads returned.
     */
    method Execute(request: GetEligibleOffersRequest)
      returns (r: Result<GetEligibleOffersResponse, AppError>,
               ghost offers: seq<Offer>, ghost userTransactions: seq<Transaction>)
      requires offerRepository.Valid() && transactionRepository.Valid()
      ensures UniqueOfferIds(offers) && Elements(offers) == offerRepository.offers.Values
      ensures Distinct(userTransactions)
      ensures Elements(userTransactions) == transactionRepository.UserTransactions(request.userId)
      ensures r == Evaluate(request, Success(offers), Success(userTransactions))
      ensures r.Success? && r.value.userId == request.userId
      ensures Elements(r.value.eligibleOffers) ==
              EligibleSet(offerRepository.offers.Values, transactionRepository.UserTransactions(request.userId), request.now)
      ensures UniqueEntryIds(r.value.eligibleOffers)
    {
      var allOffers := offerRepository.GetAll();
      var txns := transactionRepository.GetByUserID(request.userId);
      offers, userTransactions := allOffers, txns;
      var now := request.now;

      var active := FilterActiveOffers(allOffers, now);
      var eligible: seq<Offer> := [];
      for i := 0 to |active|
        invariant eligible == EligibleOffers(active[..i], txns, now)
      {
        var offer := active[i];
        var lookbackStart := LookbackStart(now, offer.lookbackDays);
        var count := 0;
        for j := 0 to |txns|
          invariant count == Count(txns[..j], offer, now)
        {
          var t := txns[j];
          assert txns[..j + 1][..j] == txns[..j];
          if t.approvedAt < lookbackStart || t.approvedAt > now {
            continue;
          }
          if t.merchantId == offer.merchantId || t.mcc in offer.mccWhitelist {
            count := count + 1;
          }
        }
        assert txns[..|txns|] == txns;
        assert active[..i + 1][..i] == active[..i];
        if count >= offer.minTxnCount {
          eligible := eligible + [offer];
        }
      }
      assert active[..|active|] == active;

      var entries := ToEligibleOfferDtos(eligible);
      r := Success(GetEligibleOffersResponse(request.userId, entries));
      EvaluateMatchesReference(request, allOffers, txns);
    }
  }
}
