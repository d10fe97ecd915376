/** The in-memory, insert-only transaction store, keyed by transaction id. */
module TransactionRepository {
  import opened Entities

  /** Every key maps to the transaction that has that id. */
  predicate KeyedById(m: map<string, Transaction>) {
    forall id | id in m :: m[id].id == id
  }

  /** The ids occurring in a batch. */
  function BatchIds(batch: seq<Transaction>): set<string> {
    set t | t in batch :: t.id
  }

  /** The store after inserting `batch` into `m` in order, skipping ids already present. */
  function Merge(m: map<string, Transaction>, batch: seq<Transaction>): map<string, Transaction>
  {
    if batch == [] then m
    else
      var before := Merge(m, batch[..|batch| - 1]);
      var t := batch[|batch| - 1];
      if t.id in before then before else before[t.id := t]
  }

  /** How many entries of `batch` found their id absent when they were processed. */
  function Added(m: map<string, Transaction>, batch: seq<Transaction>): nat
  {
    if batch == [] then 0
    else
      var init := batch[..|batch| - 1];
      Added(m, init) + if batch[|batch| - 1].id in Merge(m, init) then 0 else 1
  }

  /** Afterwards the keys are the old keys plus the batch's ids, and each old entry is untouched. */
  lemma {:induction false} MergeKeepsAndAdds(m: map<string, Transaction>, batch: seq<Transaction>)
    ensures Merge(m, batch).Keys == m.Keys + BatchIds(batch)
    ensures forall id | id in m :: Merge(m, batch)[id] == m[id]
  {
    if batch != [] {
      var init := batch[..|batch| - 1];
      MergeKeepsAndAdds(m, init);
      assert batch == init + [batch[|batch| - 1]];
      assert BatchIds(batch) == BatchIds(init) + {batch[|batch| - 1].id};
    }
  }

  /** Keys outside the batch keep their entry, or stay absent. */
  lemma MergeLeavesOtherKeys(m: map<string, Transaction>, batch: seq<Transaction>, id: string)
    requires id !in BatchIds(batch)
    ensures id in Merge(m, batch) <==> id in m
    ensures id in m ==> Merge(m, batch)[id] == m[id]
  {
    MergeKeepsAndAdds(m, batch);
  }

  /** The count equals the growth of the key set, and never exceeds the batch length. */
  lemma {:induction false} AddedIsGrowth(m: map<string, Transaction>, batch: seq<Transaction>)
    ensures |Merge(m, batch)| == |m| + Added(m, batch)
    ensures Added(m, batch) <= |batch|
  {
    if batch != [] {
      AddedIsGrowth(m, batch[..|batch| - 1]);
    }
  }

  /** A new id is stored from its first occurrence in the batch. */
  lemma {:induction false} FirstOccurrenceWins(m: map<string, Transaction>, batch: seq<Transaction>, i: nat)
    requires i < |batch|
    requires batch[i].id !in m
    requires forall j | 0 <= j < i :: batch[j].id != batch[i].id
    ensures batch[i].id in Merge(m, batch)
    ensures Merge(m, batch)[batch[i].id] == batch[i]
  {
    var init := batch[..|batch| - 1];
    if i < |batch| - 1 {
      FirstOccurrenceWins(m, init, i);
    } else {
      MergeKeepsAndAdds(m, init);
      assert batch[i].id !in BatchIds(init);
    }
  }

  /** Merging a batch whose ids are all present changes nothing and counts nothing. */
  lemma {:induction false} MergePresentIsNoop(m: map<string, Transaction>, batch: seq<Transaction>)
    requires BatchIds(batch) <= m.Keys
    ensures Merge(m, batch) == m
    ensures Added(m, batch) == 0
  {
    if batch != [] {
      var init := batch[..|batch| - 1];
      assert batch == init + [batch[|batch| - 1]];
      assert BatchIds(init) <= BatchIds(batch);
      MergePresentIsNoop(m, init);
    }
  }

  /** Inserting the same batch twice: the second time adds nothing and counts 0. */
  lemma MergeIdempotent(m: map<string, Transaction>, batch: seq<Transaction>)
    ensures Merge(Merge(m, batch), batch) == Merge(m, batch)
    ensures Added(Merge(m, batch), batch) == 0
  {
    MergeKeepsAndAdds(m, batch);
    MergePresentIsNoop(Merge(m, batch), batch);
  }

  /** Merging keeps every key mapped to the transaction with that id. */
  lemma {:induction false} MergeKeyedById(m: map<string, Transaction>, batch: seq<Transaction>)
    requires KeyedById(m)
    ensures KeyedById(Merge(m, batch))
  {
    if batch != [] {
      MergeKeyedById(m, batch[..|batch| - 1]);
    }
  }

  class InMemoryTransactionRepository {
    var transactions: map<string, Transaction>

    ghost predicate Valid()
      reads this
    {
      KeyedById(transactions)
    }

    /** The set of stored transactions of one user. */
    ghost function UserTransactions(userId: string): set<Transaction>
      reads this
    {
      set t | t in transactions.Values && t.userId == userId
    }

    constructor ()
      ensures Valid() && transactions == map[]
    {
      transactions := map[];
    }

    /**
     * Inserts each transaction whose id is not stored yet, first occurrence first,
     * and returns how many were added. The source's error result is always nil.
     */
    method Insert(batch: seq<Transaction>) returns (inserted: nat)
      requires Valid()
      modifies this
      ensures Valid()
      ensures transactions == Merge(old(transactions), batch)
      ensures inserted == Added(old(transactions), batch)
      ensures forall t | t in batch :: t.id in transactions
      ensures forall id | id in old(transactions) :: id in transactions && transactions[id] == old(transactions)[id]
      ensures |transactions| == |old(transactions)| + inserted && inserted <= |batch|
    {
      inserted := 0;
      var i := 0;
      while i < |batch|
        invariant 0 <= i <= |batch|
        invariant transactions == Merge(old(transactions), batch[..i])
        invariant inserted == Added(old(transactions), batch[..i])
      {
        var t := batch[i];
        assert batch[..i + 1][..i] == batch[..i];
        if t.id !in transactions {
          transactions := transactions[t.id := t];
          inserted := inserted + 1;
        }
        i := i + 1;
      }
      assert batch[..|batch|] == batch;
      MergeKeyedById(old(transactions), batch);
      MergeKeepsAndAdds(old(transactions), batch);
      AddedIsGrowth(old(transactions), batch);
    }

    /** The transactions of one user, each once, in unspecified order. */
    method GetByUserID(userId: string) returns (result: seq<Transaction>)
      requires Valid()
      ensures Distinct(result)
      ensures Elements(result) == UserTransactions(userId)
    {
      result := [];
      var remaining := transactions.Keys;
      while remaining != {}
        invariant remaining <= transactions.Keys
        invariant forall i | 0 <= i < |result| ::
          && result[i].id in transactions && transactions[result[i].id] == result[i]
          && result[i].id !in remaining && result[i].userId == userId
        invariant forall id | id in transactions && id !in remaining && transactions[id].userId == userId ::
          transactions[id] in result
        invariant Distinct(result)
        decreases remaining
      {
        var id :| id in remaining;
        var t := transactions[id];
        if t.userId == userId {
          result := result + [t];
        }
        remaining := remaining - {id};
      }
      forall t | t in transactions.Values && t.userId == userId
        ensures t in result
      {
        var id :| id in transactions && transactions[id] == t;
      }
      assert Elements(result) == UserTransactions(userId);
    }
  }
}
