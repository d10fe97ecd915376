/** The write path for purchases: map request records to transactions and insert them. */
module IngestTransactions {
  import opened Wrappers
  import opened Entities
  import opened Dtos
  import opened AppErrors
  import opened TransactionRepository

  /** The request's list; an absent list has no elements. */
  function BatchOf(request: IngestTransactionsRequest): seq<TransactionDto> {
    if request.transactions.Some? then request.transactions.value else []
  }

  function ToEntity(d: TransactionDto): Transaction {
    NewTransaction(d.id, d.userId, d.merchantId, d.mcc, d.amountCents, d.approvedAt)
  }

  /** One transaction per request record, in order, with that record's fields. */
  function ToEntities(dtos: seq<TransactionDto>): (txns: seq<Transaction>)
    ensures |txns| == |dtos|
    ensures forall i | 0 <= i < |dtos| ::
      && txns[i].id == dtos[i].id && txns[i].userId == dtos[i].userId
      && txns[i].merchantId == dtos[i].merchantId && txns[i].mcc == dtos[i].mcc
      && txns[i].amountCents == dtos[i].amountCents && txns[i].approvedAt == dtos[i].approvedAt
  {
    seq(|dtos|, i requires 0 <= i < |dtos| => ToEntity(dtos[i]))
  }

  /**
   * The use case's answer given the store's reply to Insert: the inserted count,
   * or a ServiceError when the store failed.
   */
  function IngestResponse(insertReply: Result<nat, string>): (r: Result<IngestTransactionsResponse, AppError>)
    ensures insertReply.Failure? ==> r == Failure(ServiceError("failed to ingest transactions"))
    ensures insertReply.Success? ==> r == Success(IngestTransactionsResponse(insertReply.value))
  {
    match insertReply
    case Failure(_) => Failure(ServiceError("failed to ingest transactions"))
    case Success(inserted) => Success(IngestTransactionsResponse(inserted))
  }

  /** Ingesting the same request a second time reports 0 and leaves the store as the first time left it. */
  lemma IngestTwiceAddsNothing(m: map<string, Transaction>, request: IngestTransactionsRequest)
    ensures var batch := ToEntities(BatchOf(request));
      && Merge(Merge(m, batch), batch) == Merge(m, batch)
      && IngestResponse(Success(Added(Merge(m, batch), batch))) == Success(IngestTransactionsResponse(0))
  {
    MergeIdempotent(m, ToEntities(BatchOf(request)));
  }

  class IngestTransactionsUseCase {
    const transactionRepository: InMemoryTransactionRepository

    constructor (transactionRepository: InMemoryTransactionRepository)
      ensures this.transactionRepository == transactionRepository
    {
      this.transactionRepository := transactionRepository;
    }

    /** Builds the entity batch, inserts it and reports the store's inserted count. */
    method Execute(request: IngestTransactionsRequest) returns (r: Result<IngestTransactionsResponse, AppError>)
      requires transactionRepository.Valid()
      modifies transactionRepository
      ensures transactionRepository.Valid()
      ensures var batch := ToEntities(BatchOf(request));
        && transactionRepository.transactions == Merge(old(transactionRepository.transactions), batch)
        && r == IngestResponse(Success(Added(old(transactionRepository.transactions), batch)))
    {
      var dtos := BatchOf(request);
      var transactions := new Transaction[|dtos|];
      for i := 0 to |dtos|
        modifies transactions
        invariant forall k | 0 <= k < i :: transactions[k] == ToEntity(dtos[k])
      {
        var d := dtos[i];
        transactions[i] := NewTransaction(d.id, d.userId, d.merchantId, d.mcc, d.amountCents, d.approvedAt);
      }
      assert transactions[..] == ToEntities(dtos);

      var inserted := transactionRepository.Insert(transactions[..]);
      r := IngestResponse(Success(inserted));
    }
  }

  /** Two identical ingestions in a row: the second inserts nothing and reports 0. */
  method IngestSameBatchTwice(useCase: IngestTransactionsUseCase, request: IngestTransactionsRequest)
    returns (first: Result<IngestTransactionsResponse, AppError>, second: Result<IngestTransactionsResponse, AppError>)
    requires useCase.transactionRepository.Valid()
    modifies useCase.transactionRepository
    ensures useCase.transactionRepository.Valid()
    ensures var batch := ToEntities(BatchOf(request));
      && first == IngestResponse(Success(Added(old(useCase.transactionRepository.transactions), batch)))
      && useCase.transactionRepository.transactions == Merge(old(useCase.transactionRepository.transactions), batch)
    ensures second == Success(IngestTransactionsResponse(0))
  {
    first := useCase.Execute(request);
    ghost var afterFirst := useCase.transactionRepository.transactions;
    second := useCase.Execute(request);
    MergeIdempotent(old(useCase.transactionRepository.transactions), ToEntities(BatchOf(request)));
    assert useCase.transactionRepository.transactions == afterFirst;
  }
}
