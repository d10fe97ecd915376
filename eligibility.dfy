/**
 * The eligibility rules as pure functions: which offers are active, which
 * transactions count toward an offer, the threshold, the reason text, and the
 * whole evaluation with its two failure paths. Sequences are processed front
 * to back, as the evaluator's loops do; EligibleSet is an order-free
 * reference definition of the same result.
 */
module Eligibility {
  import opened Wrappers
  import opened Entities
  import opened Decimal
  import opened Dtos
  import opened AppErrors

  // ----------------------------------------------------------------- rules

  /** The `active` flag is set and `now` lies in [startsAt, endsAt], both bounds included. */
  predicate IsActive(o: Offer, now: Instant) {
    o.active && o.startsAt <= now && now <= o.endsAt
  }

  /** `now` moved back by `lookbackDays` days of 24 hours. */
  function LookbackStart(now: Instant, lookbackDays: int): Instant {
    now - lookbackDays * NanosPerDay
  }

  /** The transaction was approved in [now - lookbackDays days, now], both bounds included. */
  predicate InLookback(t: Transaction, o: Offer, now: Instant) {
    LookbackStart(now, o.lookbackDays) <= t.approvedAt <= now
  }

  /** Same merchant, OR a whitelisted merchant category code. */
  predicate Matches(t: Transaction, o: Offer) {
    t.merchantId == o.merchantId || t.mcc in o.mccWhitelist
  }

  /** The transaction counts toward the offer. */
  predicate Qualifies(t: Transaction, o: Offer, now: Instant) {
    InLookback(t, o, now) && Matches(t, o)
  }

  /** The number of transactions of `txns` that count toward `o`. */
  function Count(txns: seq<Transaction>, o: Offer, now: Instant): (c: nat)
    ensures c <= |txns|
  {
    if txns == [] then 0
    else Count(txns[..|txns| - 1], o, now) + if Qualifies(txns[|txns| - 1], o, now) then 1 else 0
  }

  /** The offers of `offers` that are active at `now`, in their order. */
  function ActiveOffers(offers: seq<Offer>, now: Instant): (active: seq<Offer>)
    ensures |active| <= |offers|
  {
    if offers == [] then []
    else
      var init, o := offers[..|offers| - 1], offers[|offers| - 1];
      var rest := ActiveOffers(init, now);
      if IsActive(o, now) then rest + [o] else rest
  }

  /** The offers of `active` whose count reaches their threshold, in their order. */
  function EligibleOffers(active: seq<Offer>, txns: seq<Transaction>, now: Instant): (eligible: seq<Offer>)
    ensures |eligible| <= |active|
  {
    if active == [] then []
    else
      var init, o := active[..|active| - 1], active[|active| - 1];
      var rest := EligibleOffers(init, txns, now);
      if Count(txns, o, now) >= o.minTxnCount then rest + [o] else rest
  }

  /** `">= N transactions in last K days"` with the offer's own threshold and lookback. */
  function Reason(o: Offer): string {
    ">= " + IntToDecimal(o.minTxnCount) + " transactions in last " + IntToDecimal(o.lookbackDays) + " days"
  }

  function EntryFor(o: Offer): EligibleOfferDto {
    EligibleOfferDto(o.id, Reason(o))
  }

  /** One entry per offer, in the offers' order. */
  function Entries(eligible: seq<Offer>): (entries: seq<EligibleOfferDto>)
    ensures |entries| == |eligible|
  {
    if eligible == [] then []
    else Entries(eligible[..|eligible| - 1]) + [EntryFor(eligible[|eligible| - 1])]
  }

  /**
   * The evaluation, given what the two store reads returned: a failed read of
   * the offers or of the user's transactions gives a ServiceError; otherwise
   * the user id is echoed with one entry per active offer that reaches its threshold.
   */
  function Evaluate(request: GetEligibleOffersRequest,
                    offersRead: Result<seq<Offer>, string>,
                    txnsRead: Result<seq<Transaction>, string>): Result<GetEligibleOffersResponse, AppError>
  {
    if offersRead.Failure? then Failure(ServiceError("failed to get active offers"))
    else if txnsRead.Failure? then Failure(ServiceError("failed to get user transactions"))
    else
      var active := ActiveOffers(offersRead.value, request.now);
      var eligible := EligibleOffers(active, txnsRead.value, request.now);
      Success(GetEligibleOffersResponse(request.userId, Entries(eligible)))
  }

  // ------------------------------------------------- reference definition

  /** The number of transactions of a set that count toward `o`. */
  function CountIn(txns: set<Transaction>, o: Offer, now: Instant): nat {
    |set t | t in txns && Qualifies(t, o, now)|
  }

  /** The eligible entries, as a set: every active offer whose count reaches its threshold. */
  function EligibleSet(offers: set<Offer>, txns: set<Transaction>, now: Instant): set<EligibleOfferDto> {
    set o | o in offers && IsActive(o, now) && CountIn(txns, o, now) >= o.minTxnCount :: EntryFor(o)
  }

  predicate UniqueEntryIds(entries: seq<EligibleOfferDto>) {
    forall i, j | 0 <= i < j < |entries| :: entries[i].offerId != entries[j].offerId
  }

  // ---------------------------------------------------------------- lemmas

  /** An offer survives the active filter exactly when it is active at `now`. */
  lemma {:induction false} ActiveOffersMembers(offers: seq<Offer>, now: Instant)
    ensures forall o :: o in ActiveOffers(offers, now) <==> o in offers && IsActive(o, now)
  {
    if offers != [] {
      var init := offers[..|offers| - 1];
      assert offers == init + [offers[|offers| - 1]];
      ActiveOffersMembers(init, now);
    }
  }

  /** An offer survives the threshold exactly when its count reaches `minTxnCount`. */
  lemma {:induction false} EligibleOffersMembers(active: seq<Offer>, txns: seq<Transaction>, now: Instant)
    ensures forall o :: o in EligibleOffers(active, txns, now) <==>
                        o in active && Count(txns, o, now) >= o.minTxnCount
  {
    if active != [] {
      var init := active[..|active| - 1];
      assert active == init + [active[|active| - 1]];
      EligibleOffersMembers(init, txns, now);
    }
  }

  /** When no offer reaches its threshold, none is eligible. */
  lemma {:induction false} NoneReachThreshold(active: seq<Offer>, txns: seq<Transaction>, now: Instant)
    requires forall o | o in active :: Count(txns, o, now) < o.minTxnCount
    ensures EligibleOffers(active, txns, now) == []
  {
    if active != [] {
      var init := active[..|active| - 1];
      assert active[|active| - 1] in active;
      assert forall o | o in init :: o in active;
      NoneReachThreshold(init, txns, now);
    }
  }

  /** Entry i is the entry of offer i: its id and its reason. */
  lemma {:induction false} EntriesAt(eligible: seq<Offer>, i: nat)
    requires i < |eligible|
    ensures Entries(eligible)[i] == EntryFor(eligible[i])
  {
    if i < |eligible| - 1 {
      EntriesAt(eligible[..|eligible| - 1], i);
    }
  }

  /** The entries are exactly the entries of the offers. */
  lemma EntriesMembers(eligible: seq<Offer>)
    ensures forall e :: e in Entries(eligible) <==> exists o :: o in eligible && e == EntryFor(o)
  {
    forall e | e in Entries(eligible)
      ensures exists o :: o in eligible && e == EntryFor(o)
    {
      var i :| 0 <= i < |Entries(eligible)| && Entries(eligible)[i] == e;
      EntriesAt(eligible, i);
    }
    forall o | o in eligible
      ensures EntryFor(o) in Entries(eligible)
    {
      var i :| 0 <= i < |eligible| && eligible[i] == o;
      EntriesAt(eligible, i);
    }
  }

  /** The transactions of `txns` that count toward `o`, as a set. */
  function QualifyingSet(txns: seq<Transaction>, o: Offer, now: Instant): set<Transaction> {
    set t | t in txns && Qualifies(t, o, now)
  }

  /** Over a sequence without repetitions, Count is the size of the set of qualifying transactions. */
  lemma {:induction false} CountIsQualifyingSetSize(txns: seq<Transaction>, o: Offer, now: Instant)
    requires Distinct(txns)
    ensures Count(txns, o, now) == |QualifyingSet(txns, o, now)|
  {
    if txns != [] {
      var init, t := txns[..|txns| - 1], txns[|txns| - 1];
      assert txns == init + [t];
      CountIsQualifyingSetSize(init, o, now);
      assert t !in init;
      if Qualifies(t, o, now) {
        assert QualifyingSet(txns, o, now) == QualifyingSet(init, o, now) + {t};
      } else {
        assert QualifyingSet(txns, o, now) == QualifyingSet(init, o, now);
      }
    }
  }

  /** Over a sequence without repetitions, Count agrees with the set-based CountIn. */
  lemma CountIsSetSize(txns: seq<Transaction>, o: Offer, now: Instant)
    requires Distinct(txns)
    ensures Count(txns, o, now) == CountIn(Elements(txns), o, now)
  {
    CountIsQualifyingSetSize(txns, o, now);
    var all := Elements(txns);
    assert CountIn(all, o, now) == |set t | t in all && Qualifies(t, o, now)|;
    assert (set t | t in all && Qualifies(t, o, now)) == QualifyingSet(txns, o, now);
  }

  /** Transactions approved outside the lookback window never change a count. */
  lemma {:induction false} CountIgnoresOutOfWindow(txns: seq<Transaction>, extra: seq<Transaction>, o: Offer, now: Instant)
    requires forall t | t in extra :: !InLookback(t, o, now)
    ensures Count(txns + extra, o, now) == Count(txns, o, now)
  {
    if extra != [] {
      var init, last := extra[..|extra| - 1], extra[|extra| - 1];
      assert extra == init + [last];
      assert !Qualifies(last, o, now);
      var all := txns + extra;
      assert all[..|all| - 1] == txns + init;
      assert all[|all| - 1] == last;
      CountIgnoresOutOfWindow(txns, init, o, now);
      assert Count(all, o, now) == Count(txns + init, o, now);
    } else {
      assert txns + extra == txns;
    }
  }

  /** Filtering keeps ids unique. */
  lemma {:induction false} ActiveOffersUniqueIds(offers: seq<Offer>, now: Instant)
    requires UniqueOfferIds(offers)
    ensures UniqueOfferIds(ActiveOffers(offers, now))
  {
    if offers != [] {
      var init, o := offers[..|offers| - 1], offers[|offers| - 1];
      ActiveOffersUniqueIds(init, now);
      ActiveOffersMembers(init, now);
      var rest := ActiveOffers(init, now);
      forall i | 0 <= i < |rest|
        ensures rest[i].id != o.id
      {
        assert rest[i] in rest;
        var k :| 0 <= k < |init| && init[k] == rest[i];
        assert offers[k] == rest[i];
      }
    }
  }

  lemma {:induction false} EligibleOffersUniqueIds(active: seq<Offer>, txns: seq<Transaction>, now: Instant)
    requires UniqueOfferIds(active)
    ensures UniqueOfferIds(EligibleOffers(active, txns, now))
  {
    if active != [] {
      var init, o := active[..|active| - 1], active[|active| - 1];
      EligibleOffersUniqueIds(init, txns, now);
      EligibleOffersMembers(init, txns, now);
      var rest := EligibleOffers(init, txns, now);
      forall i | 0 <= i < |rest|
        ensures rest[i].id != o.id
      {
        assert rest[i] in rest;
        var k :| 0 <= k < |init| && init[k] == rest[i];
        assert active[k] == rest[i];
      }
    }
  }

  /** The two failure paths: the offers read is checked first. */
  lemma EvaluateFailures(request: GetEligibleOffersRequest,
                         offersRead: Result<seq<Offer>, string>,
                         txnsRead: Result<seq<Transaction>, string>)
    ensures offersRead.Failure? ==>
      Evaluate(request, offersRead, txnsRead) == Failure(ServiceError("failed to get active offers"))
    ensures offersRead.Success? && txnsRead.Failure? ==>
      Evaluate(request, offersRead, txnsRead) == Failure(ServiceError("failed to get user transactions"))
    ensures Evaluate(request, offersRead, txnsRead).Success? <==> offersRead.Success? && txnsRead.Success?
  {
  }

  /**
   * An entry is reported exactly when some offer is active at `now` and has at
   * least `minTxnCount` qualifying transactions; the entry carries that offer's
   * id and reason; the user id is echoed.
   */
  lemma EvaluateReports(request: GetEligibleOffersRequest, offers: seq<Offer>, txns: seq<Transaction>)
    ensures var r := Evaluate(request, Success(offers), Success(txns));
      && r.Success?
      && r.value.userId == request.userId
      && forall e :: e in r.value.eligibleOffers <==>
           exists o :: && o in offers && IsActive(o, request.now)
                       && Count(txns, o, request.now) >= o.minTxnCount
                       && e == EntryFor(o)
  {
    var active := ActiveOffers(offers, request.now);
    ActiveOffersMembers(offers, request.now);
    EligibleOffersMembers(active, txns, request.now);
    EntriesMembers(EligibleOffers(active, txns, request.now));
  }

  /**
   * For store snapshots (no repeated offer id, no repeated transaction) the
   * reported entries are the reference set, whatever order the snapshots come
   * in, and no offer is reported twice.
   */
  lemma EvaluateMatchesReference(request: GetEligibleOffersRequest, offers: seq<Offer>, txns: seq<Transaction>)
    requires UniqueOfferIds(offers)
    requires Distinct(txns)
    ensures var r := Evaluate(request, Success(offers), Success(txns));
      && r.Success?
      && r.value.userId == request.userId
      && Elements(r.value.eligibleOffers) == EligibleSet(Elements(offers), Elements(txns), request.now)
      && UniqueEntryIds(r.value.eligibleOffers)
  {
    var now := request.now;
    var active := ActiveOffers(offers, now);
    var eligible := EligibleOffers(active, txns, now);
    var entries := Entries(eligible);
    forall o: Offer
      ensures Count(txns, o, now) == CountIn(Elements(txns), o, now)
    {
      CountIsSetSize(txns, o, now);
    }
    EvaluateReports(request, offers, txns);
    ActiveOffersUniqueIds(offers, now);
    EligibleOffersUniqueIds(active, txns, now);
    forall i | 0 <= i < |entries|
      ensures entries[i].offerId == eligible[i].id
    {
      EntriesAt(eligible, i);
    }
    assert Elements(entries) == EligibleSet(Elements(offers), Elements(txns), now);
  }

  /** An offer that is not active at `now` is never reported, whatever the transactions. */
  lemma InactiveNeverReported(request: GetEligibleOffersRequest, offers: seq<Offer>, txns: seq<Transaction>, o: Offer)
    requires UniqueOfferIds(offers)
    requires o in offers && !IsActive(o, request.now)
    ensures forall e | e in Evaluate(request, Success(offers), Success(txns)).value.eligibleOffers :: e.offerId != o.id
  {
    EvaluateReports(request, offers, txns);
    forall e | e in Evaluate(request, Success(offers), Success(txns)).value.eligibleOffers
      ensures e.offerId != o.id
    {
      var p :| p in offers && IsActive(p, request.now) && e == EntryFor(p);
      var i :| 0 <= i < |offers| && offers[i] == p;
      var j :| 0 <= j < |offers| && offers[j] == o;
      assert i != j;
    }
  }

  /**
   * A user with no transactions is never reported for an offer whose threshold
   * is at least 1, whatever other offers the snapshot holds.
   */
  lemma NoTransactionsNoOffers(request: GetEligibleOffersRequest, offers: seq<Offer>, o: Offer)
    requires UniqueOfferIds(offers)
    requires o in offers && o.minTxnCount >= 1
    ensures forall e | e in Evaluate(request, Success(offers), Success([])).value.eligibleOffers :: e.offerId != o.id
  {
    EvaluateReports(request, offers, []);
    forall e | e in Evaluate(request, Success(offers), Success([])).value.eligibleOffers
      ensures e.offerId != o.id
    {
      var p :| p in offers && Count([], p, request.now) >= p.minTxnCount && e == EntryFor(p);
      assert Count([], p, request.now) == 0;
      assert p.minTxnCount <= 0 < o.minTxnCount;
      var i :| 0 <= i < |offers| && offers[i] == p;
      var j :| 0 <= j < |offers| && offers[j] == o;
      assert i != j;
    }
  }

  lemma CharOfSplit(x: string, s: string, y: string, t: string, i: nat)
    requires x + s == y + t && i < |x + s|
    ensures (if i < |x| then x[i] else s[i - |x|]) == (if i < |y| then y[i] else t[i - |y|])
  {
    assert (x + s)[i] == if i < |x| then x[i] else s[i - |x|];
    assert (y + t)[i] == if i < |y| then y[i] else t[i - |y|];
  }

  /** Numeric characters stop at the first character that is not one. */
  lemma {:induction false} SplitAtNonDecimal(x: string, s: string, y: string, t: string)
    requires forall i | 0 <= i < |x| :: IsDecimalChar(x[i])
    requires forall i | 0 <= i < |y| :: IsDecimalChar(y[i])
    requires |s| > 0 && |t| > 0 && !IsDecimalChar(s[0]) && !IsDecimalChar(t[0])
    requires x + s == y + t
    ensures x == y && s == t
  {
    CharOfSplit(x, s, y, t, |x|);
    CharOfSplit(x, s, y, t, |y|);
    assert |x| == |y|;
    assert x == (x + s)[..|x|] == (y + t)[..|y|] == y;
    assert s == (x + s)[|x|..] == (y + t)[|y|..] == t;
  }

  /** The reason, cut after its fixed `">= "` prefix. */
  lemma ReasonShape(o: Offer)
    ensures Reason(o)[3..] == IntToDecimal(o.minTxnCount) + (" transactions in last " + (IntToDecimal(o.lookbackDays) + " days"))
  {
  }

  /** The reason identifies the threshold and the lookback that produced it. */
  lemma ReasonDeterminesTerms(a: Offer, b: Offer)
    ensures Reason(a) == Reason(b) <==> a.minTxnCount == b.minTxnCount && a.lookbackDays == b.lookbackDays
  {
    if Reason(a) == Reason(b) {
      var mid, tail := " transactions in last ", " days";
      var na, nb := IntToDecimal(a.minTxnCount), IntToDecimal(b.minTxnCount);
      var la, lb := IntToDecimal(a.lookbackDays), IntToDecimal(b.lookbackDays);
      ReasonShape(a);
      ReasonShape(b);
      SplitAtNonDecimal(na, mid + (la + tail), nb, mid + (lb + tail));
      assert la + tail == (mid + (la + tail))[|mid|..] == (mid + (lb + tail))[|mid|..] == lb + tail;
      SplitAtNonDecimal(la, tail, lb, tail);
      IntToDecimalInjective(a.minTxnCount, b.minTxnCount);
      IntToDecimalInjective(a.lookbackDays, b.lookbackDays);
    }
  }
}
