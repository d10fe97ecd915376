# Eligible offers: a verified model

This project models the core of a card-linked offers service. Merchants publish **offers**. An offer has:

- a merchant;
- a whitelist of merchant category codes (MCCs);
- an `active` flag;
- a threshold of `N` purchases;
- a lookback of `K` days;
- a `[starts_at, ends_at]` validity window.

Purchases arrive as **transactions**. The service answers one question: "which offers is this user eligible for at time `now`?"

The model covers:

- **the eligibility evaluator**:
  - it keeps the offers that are active at `now`, with both window bounds inclusive;
  - for each one, it counts the user's transactions approved in `[now - K days, now]` that match by merchant **or** by MCC;
  - it reports the offer when the count reaches `N`, with the reason `">= N transactions in last K days"`;
- **the two in-memory stores**:
  - the transaction store is insert-only, keyed by id, skips ids already present, and counts what it adds;
  - the offer store is keyed by id, and its upsert replaces the whole entry;
- **the two write-path use cases**:
  - upserting an offer rejects a request whose `starts_at` is not strictly before `ends_at`;
  - ingesting a batch maps request records to transactions one for one and reports the store's count;
- **the entity constructors**: `NewOffer` supplies a fresh id when the id is empty;
- **the validation tags on the request records**, as predicates;
- **the validation-error response**: the tag-to-message mapping and the field-to-message map.

Layout:

| file | module | what it holds |
|---|---|---|
| `wrappers.dfy` | `Wrappers` | `Option`, `Result` and `Outcome` |
| `entities.dfy` | `Entities` | `Offer`, `Transaction`, `NewOffer` and `NewTransaction`; instants as integer nanoseconds |
| `decimal.dfy` | `Decimal` | the base-10 rendering of integers used by the reason text |
| `app_errors.dfy` | `AppErrors` | the error sum type: an HTTP error with a status, or a service error |
| `dtos.dfy` | `Dtos` | request and response records, and the tag predicates |
| `error_response.dfy` | `ErrorResponse` | `ErrorMessage` and the `FormatValidationErrors` loop |
| `transaction_repository.dfy` | `TransactionRepository` | the `Merge` specification and the store class |
| `offer_repository.dfy` | `OfferRepository` | the store class |
| `eligibility.dfy` | `Eligibility` | the evaluator as pure functions, and an order-free reference definition |
| `get_eligible_offers.dfy` | `GetEligibleOffers` | the evaluator's loops, proved against `Eligibility` |
| `upsert_offer.dfy` | `UpsertOffer` | the offer use case |
| `ingest_transactions.dfy` | `IngestTransactions` | the ingestion use case |
| `scenarios.dfy` | `Scenarios` | the evaluator on the situations its unit tests describe |

Modelling choices:

- **Instants.** An instant is an `int` count of nanoseconds since the Unix epoch. "K days back" is `now - K * 86_400 s`, which is exact in UTC and in any fixed-offset zone. The zero `time.Time` (0001-01-01T00:00:00Z) is the constant `ZeroInstant`.
- **Stores.**
  - Each store is a class with one `map` field keyed by id. Its `Valid()` invariant says every key maps to the record with that id.
  - The read methods walk the keys in an unspecified order, picked with `:|`. They therefore promise the set of records returned, and that none is repeated, but never an order.
- **Store errors.** The stores' error results are always nil in the source, so the store methods have no error result. The use cases still have error paths for them. Those paths are modelled by pure functions that take the store's reply as a parameter:
  - `Eligibility.Evaluate`;
  - `IngestTransactions.IngestResponse`;
  - `UpsertOffer.UpsertOfferOutcome`.

  Each use-case method is proved equal to its function with the reply the in-memory store actually gives.
- **Evaluator snapshots.** The evaluator's `Execute` returns, as ghost outputs, the two snapshots it read. Its postcondition ties the response to `Evaluate` on those snapshots. It also ties the response to `EligibleSet` on the stores' contents, which does not depend on the order of the reads.
- **Generated ids.** The UUID generator becomes a parameter, `generatedId`, which must be non-empty.
- **Absent lists.** A JSON list that is absent or null is `None`. The use cases treat it as empty, as Go's `range` and `len` do on a nil slice.

## Model

| member | source | states |
|---|---|---|
| Entities.NewOffer | internal/entities/offer.go:20-35 | an empty id becomes the generated, non-empty id; a non-empty id is kept; every other field is copied unchanged; no date-order check |
| Entities.NewOfferStableUnderResubmission | internal/entities/offer.go:21-26 | rebuilding an offer from a built offer's own fields yields the same offer, whatever id the generator would draw |
| Entities.NewTransaction | internal/entities/transaction.go:14-23 | every field, the id included, is copied unchanged, with no defaulting and no failure path |
| Decimal.NatToDecimal | internal/use_cases/get_eligible_offers.go:63 | `%d` of a natural number is a non-empty digit string without a leading zero |
| Decimal.IntToDecimal | internal/use_cases/get_eligible_offers.go:63 | `%d` of an integer is non-empty, starts with `-` exactly when the value is negative, and has only digits after that |
| Decimal.NatToDecimalRoundTrip | internal/use_cases/get_eligible_offers.go:63 | reading the digits back gives the number |
| Decimal.IntToDecimalInjective | internal/use_cases/get_eligible_offers.go:63 | two integers with the same rendering are equal |
| Dtos.Numeric | internal/dtos/ingest_transactions.go:17 | definition: `numeric` is the validator's pattern `^[-+]?[0-9]+(\.[0-9]+)?$`, an optional sign, digits and at most one decimal point with digits after it; `NumericAcceptsSignAndPoint` shows what it accepts and rejects |
| Dtos.ValidTransactionDto | internal/dtos/ingest_transactions.go:13-20 | definition: the conjunction of the six field tags; `ValidTransactionDtoFields` states it field by field |
| Dtos.ValidIngestTransactionsRequest | internal/dtos/ingest_transactions.go:10 | definition: `required,dive`, the list is present and each element is a valid record; `OneBadTransactionRejectsBatch` and `EmptyBatchIsValid` are its consequences |
| Dtos.ValidUpsertOfferRequest | internal/dtos/upsert_offer.go:9-18 | definition: the conjunction of the offer request's tags, none on id or active; `ValidUpsertOfferRequestFields` states it field by field |
| Dtos.ValidTransactionDtoFields | internal/dtos/ingest_transactions.go:13-20 | a transaction record passes its tags exactly when: id, user_id and merchant_id are non-empty; mcc has 4 characters and is `numeric`; amount_cents > 0; approved_at is not the zero time |
| Dtos.OneBadTransactionRejectsBatch | internal/dtos/ingest_transactions.go:10 | one failing element makes the whole request invalid |
| Dtos.EmptyBatchIsValid | internal/dtos/ingest_transactions.go:10 | `required` on the list rejects an absent list but accepts an empty one |
| Dtos.NumericAcceptsSignAndPoint | internal/dtos/ingest_transactions.go:17 | `numeric` accepts "5812", "-123", "+123" and "1.23"; it rejects "12a4", ".123", "123." and "1.2." |
| Dtos.ValidUpsertOfferRequestFields | internal/dtos/upsert_offer.go:9-18 | an offer request passes its tags exactly when: merchant_id is non-empty; the whitelist is present and every entry has 4 characters and is `numeric`; min_txn_count > 0 and lookback_days > 0; neither date is the zero time |
| Dtos.OfferTagsIgnoreDateOrder | internal/dtos/upsert_offer.go:10-17 | a request with an empty id, `active=false` and `starts_at == ends_at` passes every tag |
| ErrorResponse.ErrorMessage | internal/helpers/error_response.go:27-40 | the message for each of `required`, `gt`, `len` and `numeric`, and "is invalid" for any other tag; the message starts with the field name |
| ErrorResponse.MessagesByField | internal/helpers/error_response.go:15-21 | definition: the field-to-message map written front to back, each error setting its field's entry; `MessagesByFieldKeys` and `MessagesByFieldLastWins` state its keys and values |
| ErrorResponse.MessagesByFieldKeys | internal/helpers/error_response.go:18-21 | the map has one key per distinct field name, so it is no larger than the error list |
| ErrorResponse.MessagesByFieldLastWins | internal/helpers/error_response.go:18-21 | a field's entry is the message of the last error naming that field |
| ErrorResponse.FormatValidationErrors | internal/helpers/error_response.go:14-25 | an error that is not a validation list gives an empty map; a validation list gives `MessagesByField` of the list |
| TransactionRepository.Merge | internal/repositories/transaction.go:30-35 | definition: the batch processed front to back, each transaction stored under its id unless that id is already present; its properties are the `Merge…` lemmas below |
| TransactionRepository.Added | internal/repositories/transaction.go:29-37 | definition: the number of batch entries whose id was not present when the entry was processed; `AddedIsGrowth` ties it to the map's growth |
| TransactionRepository.MergeKeepsAndAdds | internal/repositories/transaction.go:30-34 | after a merge the keys are the old keys plus the batch's ids, and every old entry is unchanged |
| TransactionRepository.MergeLeavesOtherKeys | internal/repositories/transaction.go:25-38 | a key that is not a batch id is present, and maps to the same record, before and after |
| TransactionRepository.AddedIsGrowth | internal/repositories/transaction.go:29-37 | the inserted count equals the growth of the map and is at most the batch length |
| TransactionRepository.FirstOccurrenceWins | internal/repositories/transaction.go:30-34 | a new id repeated within the batch is stored from its first occurrence |
| TransactionRepository.MergePresentIsNoop | internal/repositories/transaction.go:31 | a batch whose ids are all present changes nothing and counts 0 |
| TransactionRepository.MergeIdempotent | internal/repositories/transaction.go:31 | merging the same batch again changes nothing and counts 0 |
| TransactionRepository.MergeKeyedById | internal/repositories/transaction.go:32 | merging keeps every key mapped to the record with that id |
| TransactionRepository.InMemoryTransactionRepository.constructor | internal/repositories/transaction.go:19-23 | a new store is empty |
| TransactionRepository.InMemoryTransactionRepository.Insert | internal/repositories/transaction.go:25-38 | the new map is `Merge(old, batch)` and the result is `Added(old, batch)`: every batch id is present, no stored record is overwritten, the count is the growth of the map and at most the batch length |
| TransactionRepository.InMemoryTransactionRepository.GetByUserID | internal/repositories/transaction.go:40-51 | returns exactly the stored transactions of that user, each once, and changes nothing |
| OfferRepository.UpsertKeyedById | internal/repositories/offer.go:29 | an upsert keeps every key mapped to the offer with that id |
| OfferRepository.UpsertIdempotent | internal/repositories/offer.go:29 | upserting the same offer twice gives the same map as upserting it once |
| OfferRepository.InMemoryOfferRepository.constructor | internal/repositories/offer.go:19-23 | a new store is empty |
| OfferRepository.InMemoryOfferRepository.Upsert | internal/repositories/offer.go:25-32 | the entry under the offer's id is exactly that offer; every other entry is unchanged; the keys gain only that id |
| OfferRepository.InMemoryOfferRepository.GetAll | internal/repositories/offer.go:34-43 | returns every stored offer exactly once, as many as there are keys, and changes nothing |
| Eligibility.IsActive | internal/use_cases/get_eligible_offers.go:76-78 | definition: `active`, `starts_at <= now` and `now <= ends_at`, the negations of `Before` and `After` |
| Eligibility.LookbackStart | internal/use_cases/get_eligible_offers.go:41 | definition: `now` moved back by K days of 86 400 seconds |
| Eligibility.InLookback | internal/use_cases/get_eligible_offers.go:45-47 | definition: a transaction is kept unless approved before the lookback start or after `now`, so both bounds are included |
| Eligibility.Matches | internal/use_cases/get_eligible_offers.go:49 | definition: same merchant OR an MCC in the whitelist; `Scenarios.MatchByMcc` exercises the MCC side alone |
| Eligibility.Reason | internal/use_cases/get_eligible_offers.go:63 | definition: `">= N transactions in last K days"` from the offer's own threshold and lookback; `ReasonDeterminesTerms` shows the text determines both numbers |
| Eligibility.Count | internal/use_cases/get_eligible_offers.go:42-52 | the count never exceeds the number of transactions; its meaning is given by `CountIsSetSize` |
| Eligibility.ActiveOffers | internal/use_cases/get_eligible_offers.go:73-83 | the filtered list is no longer than the input; `ActiveOffersMembers` states which offers survive and `GetEligibleOffers.FilterActiveOffers` is its loop |
| Eligibility.ActiveOffersMembers | internal/use_cases/get_eligible_offers.go:73-83 | an offer survives the filter iff `active`, `starts_at <= now` and `now <= ends_at`, both bounds included |
| Eligibility.ActiveOffersUniqueIds | internal/use_cases/get_eligible_offers.go:73-83 | filtering keeps offer ids distinct |
| Eligibility.CountIsQualifyingSetSize | internal/use_cases/get_eligible_offers.go:44-52 | for distinct transactions, the loop's count is the number of transactions that are in the lookback window and match |
| Eligibility.CountIsSetSize | internal/use_cases/get_eligible_offers.go:44-52 | the count over a sequence of distinct transactions equals the count over its set of elements, so it does not depend on order |
| Eligibility.CountIgnoresOutOfWindow | internal/use_cases/get_eligible_offers.go:41-47 | transactions approved before `now - K days` or after `now` never change the count, whatever their merchant or MCC |
| Eligibility.EligibleOffers | internal/use_cases/get_eligible_offers.go:40-57 | the kept list is no longer than the active list; `EligibleOffersMembers` states which offers are kept |
| Eligibility.EligibleOffersMembers | internal/use_cases/get_eligible_offers.go:54-56 | an active offer is kept iff its count is at least `min_txn_count` |
| Eligibility.EligibleOffersUniqueIds | internal/use_cases/get_eligible_offers.go:40-57 | thresholding keeps offer ids distinct |
| Eligibility.NoneReachThreshold | internal/use_cases/get_eligible_offers.go:54-56 | if no offer reaches its threshold, none is eligible |
| Eligibility.Entries | internal/use_cases/get_eligible_offers.go:59-65 | one entry per eligible offer; `EntriesAt` gives entry i and `GetEligibleOffers.ToEligibleOfferDtos` is its loop |
| Eligibility.EntriesAt | internal/use_cases/get_eligible_offers.go:59-65 | entry i carries offer i's id and its reason, built from the offer's threshold and lookback rather than the observed count |
| Eligibility.EntriesMembers | internal/use_cases/get_eligible_offers.go:59-65 | the entries are exactly the entries of the eligible offers |
| Eligibility.ReasonDeterminesTerms | internal/use_cases/get_eligible_offers.go:63 | two offers have the same reason iff they have the same threshold and the same lookback |
| Eligibility.Evaluate | internal/use_cases/get_eligible_offers.go:26-71 | definition: the offers read's failure first, then the transactions read's, each as a ServiceError; otherwise the echoed user id with the entries of the active offers reaching their threshold; `EvaluateFailures`, `EvaluateReports` and `EvaluateMatchesReference` state its meaning |
| Eligibility.EvaluateFailures | internal/use_cases/get_eligible_offers.go:27-35 | a failed offers read gives ServiceError "failed to get active offers"; otherwise a failed transactions read gives "failed to get user transactions"; success happens iff both reads succeed |
| Eligibility.EvaluateReports | internal/use_cases/get_eligible_offers.go:26-71 | echoes the user id; an entry is reported iff it belongs to an offer that is active at `now` and has at least `min_txn_count` qualifying transactions |
| Eligibility.EvaluateMatchesReference | internal/use_cases/get_eligible_offers.go:26-71 | for snapshots with no repeated offer or transaction, the reported entries are the order-free reference set `EligibleSet`, and no offer id is reported twice |
| Eligibility.InactiveNeverReported | internal/use_cases/get_eligible_offers.go:76-78 | an offer that is inactive, not yet started or already ended is never reported, whatever the transactions |
| Eligibility.NoTransactionsNoOffers | internal/use_cases/get_eligible_offers.go:40-57 | for a user with no transactions, an offer with threshold at least 1 is never reported, whatever other offers (thresholds of 0 or below included) the snapshot holds |
| GetEligibleOffers.FilterActiveOffers | internal/use_cases/get_eligible_offers.go:73-83 | the loop returns `ActiveOffers(offers, now)`, the offers active at `now`, in their order |
| GetEligibleOffers.ToEligibleOfferDtos | internal/use_cases/get_eligible_offers.go:59-65 | the loop returns one entry per eligible offer, with its id and reason, in order |
| GetEligibleOffers.GetEligibleOffersUseCase.constructor | internal/use_cases/get_eligible_offers.go:19-24 | the use case holds the two stores it was given |
| GetEligibleOffers.GetEligibleOffersUseCase.Execute | internal/use_cases/get_eligible_offers.go:26-71 | the response is `Evaluate` of the two snapshots it read, which are exactly the stored offers and the user's stored transactions; it always succeeds on the in-memory stores, echoes the user id, reports exactly `EligibleSet` of the stores' contents with no id repeated, and writes nothing |
| IngestTransactions.ToEntities | internal/use_cases/ingest_transactions.go:21-24 | one transaction per request record, the same length, and entity i has record i's fields |
| IngestTransactions.IngestResponse | internal/use_cases/ingest_transactions.go:26-33 | a store failure gives ServiceError "failed to ingest transactions"; otherwise `inserted` is the store's count |
| IngestTransactions.IngestTwiceAddsNothing | internal/use_cases/ingest_transactions.go:26 | ingesting the same request again leaves the store as it was and reports 0 |
| IngestTransactions.IngestTransactionsUseCase.constructor | internal/use_cases/ingest_transactions.go:14-18 | the use case holds the store it was given |
| IngestTransactions.IngestTransactionsUseCase.Execute | internal/use_cases/ingest_transactions.go:20-34 | the store becomes `Merge(old, ToEntities(records))`; the response carries `Added(old, ...)`, the number of new ids |
| IngestTransactions.IngestSameBatchTwice | internal/use_cases/ingest_transactions.go:20-34 | two identical ingestions in a row: the first reports the new ids; the second reports 0 and leaves the store as the first left it |
| UpsertOffer.UpsertOfferOutcome | internal/use_cases/upsert_offer.go:20-32 | `starts_at >= ends_at`, equality included, gives a 400 "starts_at must be before ends_at"; a store failure gives ServiceError "failed to upsert offer"; otherwise it succeeds with the built offer, whose id is non-empty, whose fields are the request's and whose dates are in order |
| UpsertOffer.UpsertOfferUseCase.constructor | internal/use_cases/upsert_offer.go:14-18 | the use case holds the store it was given |
| UpsertOffer.UpsertOfferUseCase.Execute | internal/use_cases/upsert_offer.go:20-32 | the result is `UpsertOfferOutcome` with the in-memory store's reply; a rejected request leaves the store unchanged; otherwise the store maps the returned offer's id to that offer and changes nothing else |
| Scenarios.UserQualifies | internal/use_cases/get_eligible_offers_test.go:13-64 | three same-merchant purchases 5, 10 and 15 days old meet N=3 and K=30, with reason ">= 3 transactions in last 30 days" |
| Scenarios.NotEnoughTransactions | internal/use_cases/get_eligible_offers_test.go:66-108 | two such purchases do not meet N=3 |
| Scenarios.MatchByMcc | internal/use_cases/get_eligible_offers_test.go:248-298 | purchases at other merchants with whitelisted MCCs meet N=2 |
| Scenarios.TooOldDoesNotCount | internal/use_cases/get_eligible_offers_test.go:202-246 | purchases 40, 50 and 60 days old count 0 toward a 30-day lookback |

## Left out

- Locking: the `sync.RWMutex` in both stores is not modelled. Neither is the read skew between the evaluator's two store reads. The stores are single-threaded classes.
- Go map iteration order: the read methods pick keys in an unspecified order. No contract fixes the order of what they return or of the eligible entries.
- Calendar arithmetic: `time.AddDate(0, 0, -K)` is modelled as subtracting K × 86 400 seconds. That is exact in UTC and in fixed-offset zones. Days of 23 or 25 hours across a daylight-saving change in a local zone are not modelled.
- UUID generation: it is a foreign call, modelled as the `generatedId` parameter. Freshness and uniqueness of generated ids are not modelled.
- Validator internals: go-playground's struct walking, error ordering and field-name rendering are not modelled. The tags are predicates over the records, and a validation failure is a list of `FieldError` values.
- Integer width: `AmountCents` (int64) and the `int` fields are unbounded integers, so int64 overflow in `K * 24 h` is not modelled. `AmountCents` is copied but never read by any rule.
- Time precision: instants are integer nanoseconds, with no location. Monotonic clock readings are not modelled.
- Store errors: `Insert`, `Upsert`, `GetAll` and `GetByUserID` always return a nil error, so the store methods have no error result. Each use case's error path is modelled in its pure function instead: `Evaluate`, `IngestResponse` and `UpsertOfferOutcome`.
- Aliasing: the stores keep the caller's pointers, not copies. Records are values here, and nothing is claimed about defensive copying.
- Nil versus empty lists: a nil whitelist or batch is `None` in the request records. The use cases pass it on as the empty sequence, so the model does not distinguish a stored nil whitelist from an empty one.
- HTTP plumbing is not part of this model:
  - the handlers, the router, JSON decoding and the RFC 3339 parsing of `now`, which is taken as an input;
  - the error middleware, logging and `WriteJSONError`;
  - the rule that the handlers validate a request before calling a use case, so an invalid ingestion batch inserts nothing.
- Loop layout: the loop that builds the response entries (internal/use_cases/get_eligible_offers.go:59-65) is its own method, `ToEligibleOfferDtos`, called from `Execute`, rather than being inlined there.
- Eligibility.Count, Eligibility.ActiveOffers, Eligibility.EligibleOffers, Eligibility.Entries: their own ensures state only length bounds. Their meaning is proved in the lemmas their rows name: `CountIsQualifyingSetSize` and `CountIsSetSize`, `ActiveOffersMembers`, `EligibleOffersMembers`, and `EntriesAt` and `EntriesMembers`.
