/** The write path for offers: check the date order, build the offer, store it. */
module UpsertOffer {
  import opened Wrappers
  import opened Entities
  import opened Dtos
  import opened AppErrors
  import opened OfferRepository

  /** The request's whitelist; an absent list has no entries. */
  function WhitelistOf(request: UpsertOfferRequest): seq<string> {
    if request.mccWhitelist.Some? then request.mccWhitelist.value else []
  }

  /**
   * The use case's answer given the store's reply to Upsert. A request whose
   * `starts_at` is not strictly before `ends_at` is rejected with a 400 before
   * the store is used; a store failure gives a ServiceError; otherwise the
   * built offer is returned.
   */
  function UpsertOfferOutcome(request: UpsertOfferRequest, generatedId: string, upsertReply: Outcome<string>)
    : (r: Result<Offer, AppError>)
    requires generatedId != ""
    ensures !(request.startsAt < request.endsAt) ==>
      r == Failure(HttpError(StatusBadRequest, "starts_at must be before ends_at", map[]))
    ensures request.startsAt < request.endsAt && upsertReply.Fail? ==>
      r == Failure(ServiceError("failed to upsert offer"))
    ensures r.Success? <==> request.startsAt < request.endsAt && upsertReply.Pass?
    ensures r.Success? ==>
      && r.value.id != ""
      && (request.id != "" ==> r.value.id == request.id)
      && r.value.merchantId == request.merchantId && r.value.mccWhitelist == WhitelistOf(request)
      && r.value.active == request.active && r.value.minTxnCount == request.minTxnCount
      && r.value.lookbackDays == request.lookbackDays
      && r.value.startsAt == request.startsAt && r.value.endsAt == request.endsAt
      && r.value.startsAt < r.value.endsAt
  {
    if !(request.startsAt < request.endsAt) then
      Failure(BadRequest("starts_at must be before ends_at", map[]))
    else
      var offer := NewOffer(request.id, generatedId, request.merchantId, WhitelistOf(request), request.active,
                            request.minTxnCount, request.lookbackDays, request.startsAt, request.endsAt);
      if upsertReply.Fail? then Failure(ServiceError("failed to upsert offer")) else Success(offer)
  }

  class UpsertOfferUseCase {
    const offerRepository: InMemoryOfferRepository

    constructor (offerRepository: InMemoryOfferRepository)
      ensures this.offerRepository == offerRepository
    {
      this.offerRepository := offerRepository;
    }

    /**
     * Rejects a request whose dates are not in order without touching the store;
     * otherwise stores the built offer under its id and returns it.
     * `generatedId` stands for the UUID drawn when the request has no id.
     */
    method Execute(request: UpsertOfferRequest, generatedId: string) returns (r: Result<Offer, AppError>)
      requires generatedId != ""
      requires offerRepository.Valid()
      modifies offerRepository
      ensures offerRepository.Valid()
      ensures r == UpsertOfferOutcome(request, generatedId, Pass)
      ensures r.Failure? ==> offerRepository.offers == old(offerRepository.offers)
      ensures r.Success? ==> offerRepository.offers == old(offerRepository.offers)[r.value.id := r.value]
    {
      if !(request.startsAt < request.endsAt) {
        return Failure(BadRequest("starts_at must be before ends_at", map[]));
      }
      var offer := NewOffer(request.id, generatedId, request.merchantId, WhitelistOf(request), request.active,
                            request.minTxnCount, request.lookbackDays, request.startsAt, request.endsAt);
      offerRepository.Upsert(offer);
      r := Success(offer);
    }
  }
}
