/**
 * The evaluator on the situations its unit tests describe: one offer of
 * merchant-1 running from ten days ago to ten days ahead, a 30-day lookback,
 * and a user's purchases a few days old.
 */
module Scenarios {
  import opened Wrappers
  import opened Entities
  import opened Dtos
  import opened Decimal
  import opened Eligibility

  function RunningOffer(now: Instant, whitelist: seq<string>, minTxnCount: int): Offer {
    Offer("offer-1", "merchant-1", whitelist, true, minTxnCount, 30, LookbackStart(now, 10), now + 10 * NanosPerDay)
  }

  function Purchase(id: string, merchantId: string, mcc: string, approvedAt: Instant): Transaction {
    Transaction(id, "user-1", merchantId, mcc, 0, approvedAt)
  }

  lemma CountSnoc(txns: seq<Transaction>, t: Transaction, o: Offer, now: Instant)
    ensures Count(txns + [t], o, now) == Count(txns, o, now) + if Qualifies(t, o, now) then 1 else 0
  {
    assert (txns + [t])[..|txns|] == txns;
  }

  /** The two reason texts the scenarios expect, spelled out. */
  lemma ReasonTexts()
    ensures ">= " + "3" + " transactions in last " + "30" + " days" == ">= 3 transactions in last 30 days"
    ensures ">= " + "2" + " transactions in last " + "30" + " days" == ">= 2 transactions in last 30 days"
  {
    assert |">= " + "3" + " transactions in last " + "30" + " days"| == |">= 3 transactions in last 30 days"|;
    assert |">= " + "2" + " transactions in last " + "30" + " days"| == |">= 2 transactions in last 30 days"|;
  }

  lemma ThreeAndThirty()
    ensures IntToDecimal(3) == "3" && IntToDecimal(30) == "30" && IntToDecimal(2) == "2"
  {
    assert NatToDecimal(30) == NatToDecimal(3) + [DigitChar(0)];
  }

  /** Three same-merchant purchases in the window meet a threshold of 3. */
  lemma UserQualifies(now: Instant)
    ensures var txns := [Purchase("txn-1", "merchant-1", "", LookbackStart(now, 5)),
                         Purchase("txn-2", "merchant-1", "", LookbackStart(now, 10)),
                         Purchase("txn-3", "merchant-1", "", LookbackStart(now, 15))];
      Evaluate(GetEligibleOffersRequest("user-1", now), Success([RunningOffer(now, [], 3)]), Success(txns))
      == Success(GetEligibleOffersResponse("user-1", [EligibleOfferDto("offer-1", ">= 3 transactions in last 30 days")]))
  {
    ThreeAndThirty();
    var txns := [Purchase("txn-1", "merchant-1", "", LookbackStart(now, 5)),
                 Purchase("txn-2", "merchant-1", "", LookbackStart(now, 10)),
                 Purchase("txn-3", "merchant-1", "", LookbackStart(now, 15))];
    var o := RunningOffer(now, [], 3);
    CountSnoc([], txns[0], o, now);
    CountSnoc([txns[0]], txns[1], o, now);
    CountSnoc([txns[0], txns[1]], txns[2], o, now);
    assert [txns[0], txns[1]] + [txns[2]] == txns;
    assert [o][..0] == [];
    assert ActiveOffers([o], now) == [o];
    assert EligibleOffers([o], txns, now) == [o];
    assert Entries([o]) == [EntryFor(o)];
    assert o.minTxnCount == 3 && o.lookbackDays == 30;
    assert Reason(o) == ">= " + "3" + " transactions in last " + "30" + " days";
    ReasonTexts();
  }

  /** Two such purchases do not meet it. */
  lemma NotEnoughTransactions(now: Instant)
    ensures var txns := [Purchase("txn-1", "merchant-1", "", LookbackStart(now, 5)),
                         Purchase("txn-2", "merchant-1", "", LookbackStart(now, 10))];
      Evaluate(GetEligibleOffersRequest("user-1", now), Success([RunningOffer(now, [], 3)]), Success(txns))
      == Success(GetEligibleOffersResponse("user-1", []))
  {
    var txns := [Purchase("txn-1", "merchant-1", "", LookbackStart(now, 5)),
                 Purchase("txn-2", "merchant-1", "", LookbackStart(now, 10))];
    var o := RunningOffer(now, [], 3);
    CountSnoc([], txns[0], o, now);
    CountSnoc([txns[0]], txns[1], o, now);
    assert [txns[0]] + [txns[1]] == txns;
    assert [o][..0] == [];
  }

  /** Purchases at other merchants count through a whitelisted category code alone. */
  lemma MatchByMcc(now: Instant)
    ensures var txns := [Purchase("txn-1", "merchant-2", "5812", LookbackStart(now, 5)),
                         Purchase("txn-2", "merchant-3", "5814", LookbackStart(now, 10))];
      Evaluate(GetEligibleOffersRequest("user-1", now), Success([RunningOffer(now, ["5812", "5814"], 2)]), Success(txns))
      == Success(GetEligibleOffersResponse("user-1", [EligibleOfferDto("offer-1", ">= 2 transactions in last 30 days")]))
  {
    ThreeAndThirty();
    var txns := [Purchase("txn-1", "merchant-2", "5812", LookbackStart(now, 5)),
                 Purchase("txn-2", "merchant-3", "5814", LookbackStart(now, 10))];
    var o := RunningOffer(now, ["5812", "5814"], 2);
    CountSnoc([], txns[0], o, now);
    CountSnoc([txns[0]], txns[1], o, now);
    assert [txns[0]] + [txns[1]] == txns;
    assert [o][..0] == [];
    assert ActiveOffers([o], now) == [o];
    assert EligibleOffers([o], txns, now) == [o];
    assert Entries([o]) == [EntryFor(o)];
    assert o.minTxnCount == 2 && o.lookbackDays == 30;
    assert Reason(o) == ">= " + "2" + " transactions in last " + "30" + " days";
    ReasonTexts();
  }

  /** Purchases older than the lookback do not count, however many there are. */
  lemma TooOldDoesNotCount(now: Instant)
    ensures var txns := [Purchase("txn-1", "merchant-1", "", LookbackStart(now, 40)),
                         Purchase("txn-2", "merchant-1", "", LookbackStart(now, 50)),
                         Purchase("txn-3", "merchant-1", "", LookbackStart(now, 60))];
      Count(txns, RunningOffer(now, [], 3), now) == 0
  {
    var txns := [Purchase("txn-1", "merchant-1", "", LookbackStart(now, 40)),
                 Purchase("txn-2", "merchant-1", "", LookbackStart(now, 50)),
                 Purchase("txn-3", "merchant-1", "", LookbackStart(now, 60))];
    var o := RunningOffer(now, [], 3);
    CountSnoc([], txns[0], o, now);
    CountSnoc([txns[0]], txns[1], o, now);
    CountSnoc([txns[0], txns[1]], txns[2], o, now);
    assert [txns[0], txns[1]] + [txns[2]] == txns;
  }
}
