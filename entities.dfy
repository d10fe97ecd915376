/** The two stored records, Offer and Transaction, and their constructors. */
module Entities {

  /** An instant: nanoseconds since 1970-01-01T00:00:00Z. */
  type Instant = int

  const NanosPerSecond: int := 1_000_000_000
  /** A calendar day in UTC or in any fixed-offset zone. */
  const NanosPerDay: int := 86_400 * NanosPerSecond
  /** Go's zero `time.Time`, 0001-01-01T00:00:00Z. */
  const ZeroInstant: Instant := -62_135_596_800 * NanosPerSecond

  /** A promotional rule issued by a merchant. */
  datatype Offer = Offer(
    id: string,
    merchantId: string,
    mccWhitelist: seq<string>,
    active: bool,
    minTxnCount: int,
    lookbackDays: int,
    startsAt: Instant,
    endsAt: Instant)

  /** An approved purchase. */
  datatype Transaction = Transaction(
    id: string,
    userId: string,
    merchantId: string,
    mcc: string,
    amountCents: int,
    approvedAt: Instant)

  /**
   * Builds an offer from its fields. An empty `id` is replaced by `generatedId`,
   * the fresh identifier the source draws from a UUID generator. No check of
   * the date order happens here.
   */
  function NewOffer(id: string, generatedId: string, merchantId: string, mccWhitelist: seq<string>,
                    active: bool, minTxnCount: int, lookbackDays: int,
                    startsAt: Instant, endsAt: Instant): (o: Offer)
    requires generatedId != ""
    ensures o.id != ""
    ensures id != "" ==> o.id == id
    ensures id == "" ==> o.id == generatedId
    ensures o.merchantId == merchantId && o.mccWhitelist == mccWhitelist && o.active == active
    ensures o.minTxnCount == minTxnCount && o.lookbackDays == lookbackDays
    ensures o.startsAt == startsAt && o.endsAt == endsAt
  {
    var resolvedId := if id == "" then generatedId else id;
    Offer(resolvedId, merchantId, mccWhitelist, active, minTxnCount, lookbackDays, startsAt, endsAt)
  }

  /**
   * Building an offer again from the record NewOffer returned, under its own id,
   * gives the same record whatever identifier the generator would produce:
   * resubmitting a created offer does not mint a second identity.
   */
  lemma NewOfferStableUnderResubmission(id: string, generatedId: string, otherId: string, merchantId: string,
                                        mccWhitelist: seq<string>, active: bool, minTxnCount: int,
                                        lookbackDays: int, startsAt: Instant, endsAt: Instant)
    requires generatedId != "" && otherId != ""
    ensures var o := NewOffer(id, generatedId, merchantId, mccWhitelist, active, minTxnCount, lookbackDays, startsAt, endsAt);
            NewOffer(o.id, otherId, o.merchantId, o.mccWhitelist, o.active, o.minTxnCount,
                     o.lookbackDays, o.startsAt, o.endsAt) == o
  {
  }

  /** Builds a transaction from its fields; the id is kept as given, with no defaulting. */
  function NewTransaction(id: string, userId: string, merchantId: string, mcc: string,
                          amountCents: int, approvedAt: Instant): (t: Transaction)
    ensures t.id == id && t.userId == userId && t.merchantId == merchantId
    ensures t.mcc == mcc && t.amountCents == amountCents && t.approvedAt == approvedAt
  {
    Transaction(id, userId, merchantId, mcc, amountCents, approvedAt)
  }

  /** The set of elements of a sequence. */
  function Elements<T>(s: seq<T>): set<T> {
    set x | x in s
  }

  /** No two offers of `offers` share an id. */
  predicate UniqueOfferIds(offers: seq<Offer>) {
    forall i, j | 0 <= i < j < |offers| :: offers[i].id != offers[j].id
  }

  /** No transaction occurs twice in `txns`. */
  predicate Distinct(txns: seq<Transaction>) {
    forall i, j | 0 <= i < j < |txns| :: txns[i] != txns[j]
  }
}
