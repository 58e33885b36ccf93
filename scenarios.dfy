/// Concrete runs of the scheduler, stated as what a caller can prove from
/// the contracts of the heap and the server alone.
module Scenarios {
  import opened Requests
  import opened RequestHeap
  import opened Server

  /// Capacity 3, FIFO: connections 1, 2 and 3 admitted in that order are
  /// served in that order.
  method FifoServesInArrivalOrder() returns (order: seq<int>)
    ensures order == [1, 2, 3]
  {
    var server := AdmitThreeFifo();
    order := ServeThree(server, Request(1, 0, 0), Request(2, 0, 1), Request(3, 0, 2));
  }

  /// The acceptor's three turns on a fresh FIFO server of capacity 3 for
  /// connections 1, 2 and 3: each is queued with cost 0 and the next
  /// sequence number.
  method AdmitThreeFifo() returns (server: Server)
    ensures fresh(server) && fresh(server.queue) && fresh(server.queue.buffer)
    ensures server.Valid() && server.policy == FIFO
    ensures server.queue.Contents() == multiset{Request(1, 0, 0), Request(2, 0, 1), Request(3, 0, 2)}
  {
    server := new Server(FIFO, 3);
    var a := server.Admit(1, [], map[]);
    assert server.queue.Contents() == multiset{Request(1, 0, 0)};
    var b := server.Admit(2, [], map[]);
    assert server.queue.Contents() == multiset{Request(1, 0, 0), Request(2, 0, 1)};
    var c := server.Admit(3, [], map[]);
  }

  /// Under FIFO the costs carried by the requests change nothing.
  method FifoIgnoresCosts() returns (order: seq<int>)
    ensures order == [1, 2, 3]
  {
    var heap := new Heap(FIFO, 3);
    heap.Insert(Request(1, 900, 0));
    heap.Insert(Request(2, 5, 1));
    heap.Insert(Request(3, 50, 2));
    order := TakeThree(heap, Request(1, 900, 0), Request(2, 5, 1), Request(3, 50, 2));
  }

  /// Capacity 2, SFF: A (cost 500) then B (cost 100) admitted before any
  /// dispatch are served B first, then A.
  method SffServesSmallerFirst() returns (order: seq<int>)
    ensures order == [2, 1]
  {
    var heap := new Heap(SFF, 2);
    heap.Insert(Request(1, 500, 0));
    heap.Insert(Request(2, 100, 1));
    var x := heap.ExtractMin();
    var y := heap.ExtractMin();
    order := [x.conn, y.conn];
  }

  /// SFF: requests whose size is unknown wait behind a known-size one that
  /// arrived later, and leave among themselves in arrival order.
  method SffUnknownSizeLast() returns (order: seq<int>)
    ensures order == [2, 1, 3]
  {
    var heap := new Heap(SFF, 3);
    heap.Insert(Request(1, IntMax, 0));
    heap.Insert(Request(2, 7, 1));
    heap.Insert(Request(3, IntMax, 2));
    order := TakeThree(heap, Request(2, 7, 1), Request(1, IntMax, 0), Request(3, IntMax, 2));
  }

  /// Empties a heap holding three requests that the policy orders `a`,
  /// `b`, `c`.
  method TakeThree(heap: Heap, a: Request, b: Request, c: Request) returns (order: seq<int>)
    requires heap.Valid() && heap.Contents() == multiset{a, b, c}
    requires Lt(heap.policy, a, b) && Lt(heap.policy, b, c)
    modifies heap, heap.buffer
    ensures order == [a.conn, b.conn, c.conn]
  {
    CompareTransitive(heap.policy, a, b, c);
    var x := heap.ExtractMin();
    assert Le(heap.policy, x, a);
    var y := heap.ExtractMin();
    assert Le(heap.policy, y, b);
    var z := heap.ExtractMin();
    order := [x.conn, y.conn, z.conn];
  }

  /// Three worker turns on a server holding three requests that the policy
  /// orders `a`, `b`, `c`.
  method ServeThree(server: Server, a: Request, b: Request, c: Request) returns (order: seq<int>)
    requires server.Valid() && server.queue.Contents() == multiset{a, b, c}
    requires Lt(server.policy, a, b) && Lt(server.policy, b, c)
    modifies server.queue, server.queue.buffer
    ensures order == [a.conn, b.conn, c.conn]
  {
    CompareTransitive(server.policy, a, b, c);
    var x := server.Dispatch();
    assert Le(server.policy, x, a);
    var y := server.Dispatch();
    assert Le(server.policy, y, b);
    var z := server.Dispatch();
    order := [x.conn, y.conn, z.conn];
  }

  /// SFF: a connection whose peek yields nothing is closed and never queued.
  method EmptyPeekIsDropped() returns (admitted: Option<Request>, pending: nat)
    ensures admitted == None && pending == 0
  {
    var server := new Server(SFF, 1);
    admitted := server.Admit(7, [], map[]);
    pending := server.queue.size;
  }

  /// SFF with a full heap (capacity 0): a connection whose probe fails is
  /// still dropped at once, without waiting for room and without using an
  /// admission number.
  method FullServerDropsFailedProbe() returns (admitted: Option<Request>, counter: nat)
    ensures admitted == None && counter == 0
  {
    var server := new Server(SFF, 0);
    admitted := server.Admit(7, [], map[]);
    counter := server.seqCounter;
  }
}
