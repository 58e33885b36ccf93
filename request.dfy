/// The request record of the server and the comparator that orders the
/// pending requests (`request_t` and `request_cmp` in src/pserver.c).
module Requests {

  datatype Option<T> = None | Some(value: T)

  /// The scheduling discipline, fixed once at start-up.
  datatype Policy = FIFO | SFF

  /// Largest value of the C `int` that holds a request's cost; a request
  /// whose size is unknown carries it as a "schedule last" sentinel.
  const IntMax: int := 0x7FFF_FFFF

  /// A pending request: the accepted connection, its estimated cost in bytes
  /// (`filesize`) and its admission number (`seq`, an `unsigned long`).
  datatype Request = Request(conn: int, filesize: int, sequence: nat)

  /// The key a policy sorts by: the admission number alone under FIFO, the
  /// cost and then the admission number under SFF.
  function Key(p: Policy, a: Request): (int, int)
  {
    match p
    case FIFO => (0, a.sequence)
    case SFF => (a.filesize, a.sequence)
  }

  /// Lexicographic "strictly before" on keys.
  predicate KeyBefore(k: (int, int), l: (int, int))
  {
    k.0 < l.0 || (k.0 == l.0 && k.1 < l.1)
  }

  /// The three-way comparator: negative when `a` must be served before `b`.
  function Compare(p: Policy, a: Request, b: Request): (r: int)
    ensures r == -1 || r == 0 || r == 1
    ensures r < 0 <==> KeyBefore(Key(p, a), Key(p, b))
    ensures r == 0 <==> Key(p, a) == Key(p, b)
    ensures r > 0 <==> KeyBefore(Key(p, b), Key(p, a))
  {
    if p == FIFO then
      if a.sequence < b.sequence then -1
      else if a.sequence > b.sequence then 1
      else 0
    else
      if a.filesize < b.filesize then -1
      else if a.filesize > b.filesize then 1
      else if a.sequence < b.sequence then -1
      else if a.sequence > b.sequence then 1
      else 0
  }

  /// `a` may be served no later than `b`.
  predicate Le(p: Policy, a: Request, b: Request)
  {
    Compare(p, a, b) <= 0
  }

  /// `a` must be served strictly before `b`.
  predicate Lt(p: Policy, a: Request, b: Request)
  {
    Compare(p, a, b) < 0
  }

  lemma CompareAntisymmetric(p: Policy, a: Request, b: Request)
    ensures Compare(p, a, b) == -Compare(p, b, a)
  {
  }

  lemma CompareTransitive(p: Policy, a: Request, b: Request, c: Request)
    ensures Le(p, a, b) && Le(p, b, c) ==> Le(p, a, c)
    ensures Lt(p, a, b) && Le(p, b, c) ==> Lt(p, a, c)
    ensures Le(p, a, b) && Lt(p, b, c) ==> Lt(p, a, c)
  {
  }

  lemma CompareTotal(p: Policy, a: Request, b: Request)
    ensures Le(p, a, b) || Le(p, b, a)
    ensures !Lt(p, a, b) <==> Le(p, b, a)
  {
  }

  /// Two requests tie exactly when their keys agree; under either policy a
  /// tie therefore needs equal admission numbers.
  lemma CompareZeroOnlyOnEqualSeq(p: Policy, a: Request, b: Request)
    ensures Compare(p, a, b) == 0 <==>
      (a.sequence == b.sequence && (p == SFF ==> a.filesize == b.filesize))
  {
  }

  /// Under FIFO the cost plays no part in the order.
  lemma FifoIgnoresCost(a: Request, b: Request, x: int, y: int)
    ensures Compare(FIFO, a, b) == Compare(FIFO, a.(filesize := x), b.(filesize := y))
    ensures Compare(FIFO, a, b) < 0 <==> a.sequence < b.sequence
  {
  }

  /// Under SFF a strictly cheaper request always wins, whatever its
  /// admission number; equal costs (two unknown-size sentinels included)
  /// fall back to admission order.
  lemma SffCheaperFirst(a: Request, b: Request)
    ensures a.filesize < b.filesize ==> Compare(SFF, a, b) == -1
    ensures a.filesize == b.filesize ==> Compare(SFF, a, b) == Compare(FIFO, a, b)
  {
  }
}
