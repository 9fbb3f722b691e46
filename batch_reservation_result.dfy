/** The outcome of a batch of reservation changes. */
module BatchReservationResults {
  import opened Requests

  datatype Status = SUCCESS | FAILURE

  /** The status and the requests that were carried out, as a list. */
  datatype BatchReservationResult = BatchReservationResult(status: Status, executedRequests: seq<ReservationChangeRequest>)

  /** No request list holds one request twice. */
  predicate Distinct(requests: seq<ReservationChangeRequest>)
  {
    forall i, j | 0 <= i < j < |requests| :: requests[i] != requests[j]
  }

  /** `none`: nothing was carried out. */
  function None(): (r: BatchReservationResult)
    ensures r.status == FAILURE && |r.executedRequests| == 0
  {
    BatchReservationResult(FAILURE, [])
  }

  /** `success`: the executed set copied into a list, in no particular order,
      each request exactly once. */
  method Success(executed: set<ReservationChangeRequest>) returns (r: BatchReservationResult)
    ensures r.status == SUCCESS
    ensures forall q :: q in r.executedRequests <==> q in executed
    ensures Distinct(r.executedRequests) && |r.executedRequests| == |executed|
  {
    var list: seq<ReservationChangeRequest> := [];
    var remaining := executed;
    while remaining != {}
      invariant remaining <= executed
      invariant forall q :: q in list <==> q in executed - remaining
      invariant Distinct(list) && |list| + |remaining| == |executed|
      decreases remaining
    {
      var q :| q in remaining;
      list := list + [q];
      remaining := remaining - {q};
    }
    r := BatchReservationResult(SUCCESS, list);
  }
}
