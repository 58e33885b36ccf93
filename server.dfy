/// The scheduler state of src/pserver.c seen sequentially: the request heap,
/// the admission counter `seq_counter`, one iteration of the acceptor loop
/// (lines 220-283) and the extraction step of the worker loop (lines
/// 119-138).  The blocking waits become preconditions: the acceptor reaches
/// the insertion only when the heap has room.  A worker extracting requires a
/// non-empty heap, which is the `exit(1)` guard of `heap_extract_min`; under
/// SFF the source does not re-check the size after its delay, so two workers
/// sleeping on one request can reach an empty extraction, which is assumed
/// not to happen here.
module Server {
  import opened Requests
  import opened RequestHeap
  import opened DispatchOrder
  import opened Probe

  class Server {
    const policy: Policy
    const queue: Heap
    var seqCounter: nat

    /// The heap is well formed and sorted by the server's policy, every
    /// pending request holds its own admission number, below the counter,
    /// and every cost fits in an `int` (0 under FIFO).
    ghost predicate Valid()
      reads this, queue, queue.buffer
    {
      && queue.Valid()
      && queue.policy == policy
      && UniqueSequences(queue.Contents())
      && (forall x :: x in queue.Contents() ==> x.sequence < seqCounter)
      && CostsInRange(queue.Contents())
      && (policy == FIFO ==> forall x :: x in queue.Contents() ==> x.filesize == 0)
    }

    constructor (policy: Policy, capacity: nat)
      ensures Valid() && fresh(queue) && fresh(queue.buffer)
      ensures this.policy == policy && queue.capacity == capacity
      ensures seqCounter == 0 && queue.size == 0 && queue.Contents() == multiset{}
    {
      this.policy := policy;
      queue := new Heap(policy, capacity);
      seqCounter := 0;
    }

    /// One turn of the acceptor for connection `conn`.  Under SFF the peeked
    /// bytes are probed first; a failed probe drops the connection without
    /// using an admission number, whether or not the heap has room.
    /// Otherwise the request gets the next admission number and the probed
    /// cost (0 under FIFO) and enters the heap, which must then have room:
    /// the wait for room guards only the insertion.
    method Admit(conn: int, peek: seq<char>, fs: map<seq<char>, nat>) returns (admitted: Option<Request>)
      requires Valid()
      requires queue.size < queue.capacity || (policy == SFF && ProbeCost(peek, fs).None?)
      modifies this, queue, queue.buffer
      ensures Valid()
      ensures admitted.None? <==> policy == SFF && ProbeCost(peek, fs).None?
      ensures admitted.None? ==> unchanged(this, queue, queue.buffer)
      ensures admitted.Some? ==>
        admitted.value == Request(conn, if policy == SFF then ProbeCost(peek, fs).value else 0, old(seqCounter))
      ensures admitted.Some? ==>
        && seqCounter == old(seqCounter) + 1
        && queue.size == old(queue.size) + 1
        && queue.Contents() == old(queue.Contents()) + multiset{admitted.value}
    {
      var filesize := 0;
      if policy == SFF {
        var cost := MeasureCost(peek, fs);
        if cost.None? {
          return None;
        }
        filesize := cost.value;
      }
      var req := Request(conn, filesize, seqCounter);
      seqCounter := seqCounter + 1;
      ghost var before := queue.Contents();
      assert 0 <= filesize <= IntMax && (policy == FIFO ==> filesize == 0);
      queue.Insert(req);
      assert forall x :: x in queue.Contents() ==> x in before || x == req;
      admitted := Some(req);
    }

    /// A worker's extraction: the request it serves is least among those
    /// pending under the policy.
    method Dispatch() returns (req: Request)
      requires Valid() && queue.size > 0
      modifies queue, queue.buffer
      ensures Valid() && queue.size == old(queue.size) - 1
      ensures IsLeast(policy, req, old(queue.Contents()))
      ensures queue.Contents() == old(queue.Contents()) - multiset{req}
    {
      req := queue.ExtractMin();
    }

    /// `rounds` turns of the worker loop with no admissions in between: the
    /// requests are served in comparator order.
    method ServeRounds(rounds: nat) returns (served: seq<Request>)
      requires Valid() && rounds <= queue.size
      modifies queue, queue.buffer
      ensures Valid() && |served| == rounds
      ensures DrainedInOrder(policy, old(queue.Contents()), served, queue.Contents())
      ensures policy == SFF ==>
        forall i, j :: 0 <= i < j < |served| && served[i].filesize == IntMax ==> served[j].filesize == IntMax
    {
      served := [];
      while |served| < rounds
        invariant Valid() && |served| <= rounds
        invariant queue.size == old(queue.size) - |served|
        invariant DrainedInOrder(policy, old(queue.Contents()), served, queue.Contents())
      {
        ghost var pending := queue.Contents();
        var req := Dispatch();
        DrainExtend(policy, old(queue.Contents()), served, pending, req);
        served := served + [req];
      }
      if policy == SFF {
        UnknownCostServedLast(old(queue.Contents()), served, queue.Contents());
      }
    }
  }
}
