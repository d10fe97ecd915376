/**
 * Request and response records of the three operations, and the meaning of
 * the validation tags on the request records, as predicates.
 */
module Dtos {
  import opened Wrappers
  import opened Entities
  import opened Decimal

  // ---------------------------------------------------------------- records

  datatype TransactionDto = TransactionDto(
    id: string,
    userId: string,
    merchantId: string,
    mcc: string,
    amountCents: int,
    approvedAt: Instant)

  /** `transactions` is None when the list is absent or null in the request. */
  datatype IngestTransactionsRequest = IngestTransactionsRequest(transactions: Option<seq<TransactionDto>>)

  datatype IngestTransactionsResponse = IngestTransactionsResponse(inserted: int)

  /** `mccWhitelist` is None when the list is absent or null in the request. */
  datatype UpsertOfferRequest = UpsertOfferRequest(
    id: string,
    merchantId: string,
    mccWhitelist: Option<seq<string>>,
    active: bool,
    minTxnCount: int,
    lookbackDays: int,
    startsAt: Instant,
    endsAt: Instant)

  datatype GetEligibleOffersRequest = GetEligibleOffersRequest(userId: string, now: Instant)

  datatype EligibleOfferDto = EligibleOfferDto(offerId: string, reason: string)

  datatype GetEligibleOffersResponse = GetEligibleOffersResponse(userId: string, eligibleOffers: seq<EligibleOfferDto>)

  // ------------------------------------------------------- tag meanings

  /** `required` on a string: not the empty string. */
  predicate RequiredString(s: string) {
    s != ""
  }

  /** `required` on an integer: not zero. */
  predicate RequiredInt(n: int) {
    n != 0
  }

  /** `required` on a time: not the zero time. */
  predicate RequiredTime(t: Instant) {
    t != ZeroInstant
  }

  /** `len=n` on a string: exactly n characters. */
  predicate Len(s: string, n: nat) {
    |s| == n
  }

  predicate Digits(s: string) {
    |s| > 0 && forall i | 0 <= i < |s| :: IsDigit(s[i])
  }

  /** `[0-9]+(\.[0-9]+)?` */
  predicate UnsignedNumber(s: string) {
    || Digits(s)
    || exists i | 0 < i < |s| :: s[i] == '.' && Digits(s[..i]) && Digits(s[i + 1..])
  }

  /**
   * `numeric` on a string: the validator's pattern `^[-+]?[0-9]+(\.[0-9]+)?$`,
   * so an optional sign and one decimal point are accepted.
   */
  predicate Numeric(s: string) {
    if |s| > 0 && (s[0] == '-' || s[0] == '+') then UnsignedNumber(s[1..]) else UnsignedNumber(s)
  }

  /** `gt=n` on an integer. */
  predicate Gt(x: int, n: int) {
    x > n
  }

  // ---------------------------------------------------- request validity

  /** The tags of one transaction in an ingestion request. */
  predicate ValidTransactionDto(d: TransactionDto) {
    && RequiredString(d.id)
    && RequiredString(d.userId)
    && RequiredString(d.merchantId)
    && RequiredString(d.mcc) && Len(d.mcc, 4) && Numeric(d.mcc)
    && RequiredInt(d.amountCents) && Gt(d.amountCents, 0)
    && RequiredTime(d.approvedAt)
  }

  /** `required,dive`: the list is present and every element passes its own tags. */
  predicate ValidIngestTransactionsRequest(r: IngestTransactionsRequest) {
    && r.transactions.Some?
    && forall i | 0 <= i < |r.transactions.value| :: ValidTransactionDto(r.transactions.value[i])
  }

  /** One MCC whitelist entry: `len=4,numeric`. */
  predicate ValidWhitelistEntry(mcc: string) {
    Len(mcc, 4) && Numeric(mcc)
  }

  /** The tags of an offer request. `id` and `active` carry none. */
  predicate ValidUpsertOfferRequest(r: UpsertOfferRequest) {
    && RequiredString(r.merchantId)
    && r.mccWhitelist.Some?
    && (forall i | 0 <= i < |r.mccWhitelist.value| :: ValidWhitelistEntry(r.mccWhitelist.value[i]))
    && RequiredInt(r.minTxnCount) && Gt(r.minTxnCount, 0)
    && RequiredInt(r.lookbackDays) && Gt(r.lookbackDays, 0)
    && RequiredTime(r.startsAt)
    && RequiredTime(r.endsAt)
  }

  // ------------------------------------------------------------- lemmas

  /** A transaction passes its tags exactly when each field meets its rule. */
  lemma ValidTransactionDtoFields(d: TransactionDto)
    ensures ValidTransactionDto(d) <==>
      && d.id != "" && d.userId != "" && d.merchantId != ""
      && |d.mcc| == 4 && Numeric(d.mcc)
      && d.amountCents > 0
      && d.approvedAt != ZeroInstant
  {
  }

  /** One element that fails its tags rejects the whole batch. */
  lemma OneBadTransactionRejectsBatch(r: IngestTransactionsRequest, i: nat)
    requires r.transactions.Some? && i < |r.transactions.value|
    requires !ValidTransactionDto(r.transactions.value[i])
    ensures !ValidIngestTransactionsRequest(r)
  {
  }

  /** An empty list is present, so `required` accepts it: there is no minimum length. */
  lemma EmptyBatchIsValid()
    ensures ValidIngestTransactionsRequest(IngestTransactionsRequest(Some([])))
    ensures !ValidIngestTransactionsRequest(IngestTransactionsRequest(None))
  {
  }

  /** `numeric` is not digits-only: four-character strings with a sign or a point pass. */
  lemma NumericAcceptsSignAndPoint()
    ensures Numeric("5812") && Numeric("-123") && Numeric("+123") && Numeric("1.23")
    ensures !Numeric("12a4") && !Numeric(".123") && !Numeric("123.") && !Numeric("1.2.")
  {
    assert Digits("5812");
    assert Digits("123") && "-123"[1..] == "123" && "+123"[1..] == "123";
    assert "1.23"[1] == '.' && Digits("1.23"[..1]) && Digits("1.23"[2..]);
    assert !IsDigit("12a4"[2]);
    assert ".123"[0] == '.';
    assert "123."[3] == '.';
    var s := "1.2.";
    assert !Digits(s) by { assert !IsDigit(s[1]); }
    forall i | 0 < i < |s| && s[i] == '.'
      ensures !(Digits(s[..i]) && Digits(s[i + 1..]))
    {
      if i == 1 {
        assert !IsDigit(s[i + 1..][1]);
      } else {
        assert s[i + 1..] == [];
      }
    }
  }

  /** Every tag of an offer request can hold while `starts_at` is not before `ends_at`:
      the date order is left to the use case. An empty id and `active=false` pass too. */
  lemma OfferTagsIgnoreDateOrder()
    ensures var r := UpsertOfferRequest("", "merchant-1", Some(["5812"]), false, 3, 30,
                                        1_000 * NanosPerDay, 1_000 * NanosPerDay);
            ValidUpsertOfferRequest(r) && r.id == "" && !r.active && !(r.startsAt < r.endsAt)
  {
    assert Digits("5812");
  }

  /** An offer request passes its tags exactly when each field meets its rule. */
  lemma ValidUpsertOfferRequestFields(r: UpsertOfferRequest)
    ensures ValidUpsertOfferRequest(r) <==>
      && r.merchantId != ""
      && r.mccWhitelist.Some?
      && (forall m | m in r.mccWhitelist.value :: |m| == 4 && Numeric(m))
      && r.minTxnCount > 0 && r.lookbackDays > 0
      && r.startsAt != ZeroInstant && r.endsAt != ZeroInstant
  {
  }
}
