/// The order in which the workers take requests out of the queue: each
/// dispatch takes a request that is least under the comparator among those
/// pending.  These lemmas are stated on the pending multiset and the
/// sequence of dispatched requests, independently of threads.
module DispatchOrder {
  import opened Requests

  /// `x` is pending and ordered no later than anything pending.
  ghost predicate IsLeast(p: Policy, x: Request, m: multiset<Request>)
  {
    x in m && forall y :: y in m ==> Le(p, x, y)
  }

  /// Starting from the pending requests `m`, dispatching the requests of
  /// `out` one after another, each a least pending one, leaves `rest`.
  ghost predicate DrainedInOrder(p: Policy, m: multiset<Request>, out: seq<Request>, rest: multiset<Request>)
    decreases |out|
  {
    if out == [] then rest == m
    else IsLeast(p, out[0], m) && DrainedInOrder(p, m - multiset{out[0]}, out[1..], rest)
  }

  /// Every cost fits the source's 32-bit `int` and is not negative: the
  /// probe never yields more than `IntMax`, and FIFO requests cost 0.
  ghost predicate CostsInRange(m: multiset<Request>)
  {
    forall x :: x in m ==> 0 <= x.filesize <= IntMax
  }

  /// Each pending request carries its own admission number, and appears once.
  ghost predicate UniqueSequences(m: multiset<Request>)
  {
    && (forall x :: x in m ==> m[x] == 1)
    && (forall x, y :: x in m && y in m && x.sequence == y.sequence ==> x == y)
  }

  /// One more dispatch of a least pending request extends the drain.
  lemma {:induction false} DrainExtend(p: Policy, m: multiset<Request>, out: seq<Request>, rest: multiset<Request>, x: Request)
    requires DrainedInOrder(p, m, out, rest)
    requires IsLeast(p, x, rest)
    ensures DrainedInOrder(p, m, out + [x], rest - multiset{x})
    decreases |out|
  {
    if out == [] {
      assert ([x])[1..] == [];
    } else {
      DrainExtend(p, m - multiset{out[0]}, out[1..], rest, x);
      assert (out + [x])[1..] == out[1..] + [x];
    }
  }

  /// Nothing is lost or invented: the dispatched requests and the ones
  /// still pending make up exactly the requests that were pending.
  lemma {:induction false} DrainPermutation(p: Policy, m: multiset<Request>, out: seq<Request>, rest: multiset<Request>)
    requires DrainedInOrder(p, m, out, rest)
    ensures multiset(out) + rest == m
    decreases |out|
  {
    if out != [] {
      DrainPermutation(p, m - multiset{out[0]}, out[1..], rest);
      assert out == [out[0]] + out[1..];
    }
  }

  /// Dispatch order follows the comparator: an earlier dispatch is ordered
  /// no later than a later one, and no later than anything still pending.
  lemma {:induction false} DrainSorted(p: Policy, m: multiset<Request>, out: seq<Request>, rest: multiset<Request>)
    requires DrainedInOrder(p, m, out, rest)
    ensures forall i, j :: 0 <= i < j < |out| ==> Le(p, out[i], out[j])
    ensures forall i, x :: 0 <= i < |out| && x in rest ==> Le(p, out[i], x)
    decreases |out|
  {
    if out != [] {
      var m' := m - multiset{out[0]};
      DrainSorted(p, m', out[1..], rest);
      DrainPermutation(p, m', out[1..], rest);
      forall j | 0 < j < |out| ensures Le(p, out[0], out[j]) {
        assert out[j] == out[1..][j - 1];
        assert out[j] in multiset(out[1..]);
      }
      forall i, j | 0 <= i < j < |out| ensures Le(p, out[i], out[j]) {
        if 0 < i {
          assert out[i] == out[1..][i - 1] && out[j] == out[1..][j - 1];
        }
      }
      forall i, x | 0 <= i < |out| && x in rest ensures Le(p, out[i], x) {
        if 0 < i {
          assert out[i] == out[1..][i - 1];
        }
      }
    }
  }

  lemma SubUnique(m: multiset<Request>, x: Request)
    requires UniqueSequences(m)
    ensures UniqueSequences(m - multiset{x})
  {
  }

  /// With admission numbers unique among the pending requests, dispatch
  /// order is strict: no two dispatched requests tie.
  lemma {:induction false} DrainStrict(p: Policy, m: multiset<Request>, out: seq<Request>, rest: multiset<Request>)
    requires DrainedInOrder(p, m, out, rest)
    requires UniqueSequences(m)
    ensures forall i, j :: 0 <= i < j < |out| ==> Lt(p, out[i], out[j])
    decreases |out|
  {
    if out != [] {
      var m' := m - multiset{out[0]};
      SubUnique(m, out[0]);
      DrainStrict(p, m', out[1..], rest);
      DrainPermutation(p, m', out[1..], rest);
      forall j | 0 < j < |out| ensures Lt(p, out[0], out[j]) {
        assert out[j] == out[1..][j - 1];
        assert out[j] in multiset(out[1..]);
        assert out[j] in m' && out[j] in m;
        assert out[j] != out[0];
        CompareZeroOnlyOnEqualSeq(p, out[0], out[j]);
      }
      forall i, j | 0 <= i < j < |out| ensures Lt(p, out[i], out[j]) {
        if 0 < i {
          assert out[i] == out[1..][i - 1] && out[j] == out[1..][j - 1];
        }
      }
    }
  }

  /// Under FIFO the requests leave in strictly increasing admission order,
  /// whatever their costs.
  lemma FifoDispatchOrder(m: multiset<Request>, out: seq<Request>, rest: multiset<Request>)
    requires DrainedInOrder(FIFO, m, out, rest)
    requires UniqueSequences(m)
    ensures forall i, j :: 0 <= i < j < |out| ==> out[i].sequence < out[j].sequence
  {
    DrainStrict(FIFO, m, out, rest);
  }

  /// Under SFF the requests leave by cost, and by admission order among
  /// equal costs.
  lemma SffDispatchOrder(m: multiset<Request>, out: seq<Request>, rest: multiset<Request>)
    requires DrainedInOrder(SFF, m, out, rest)
    requires UniqueSequences(m)
    ensures forall i, j :: 0 <= i < j < |out| ==>
      out[i].filesize < out[j].filesize ||
      (out[i].filesize == out[j].filesize && out[i].sequence < out[j].sequence)
    ensures forall i, x :: 0 <= i < |out| && x in rest ==> out[i].filesize <= x.filesize
  {
    DrainStrict(SFF, m, out, rest);
    DrainSorted(SFF, m, out, rest);
  }

  /// Under SFF a request of unknown size (cost `IntMax`) is dispatched only
  /// when no request of known, smaller cost is waiting with it.  When every
  /// cost fits in an `int`, everything after it has exactly that cost.
  lemma UnknownCostServedLast(m: multiset<Request>, out: seq<Request>, rest: multiset<Request>)
    requires DrainedInOrder(SFF, m, out, rest)
    ensures forall i, j :: 0 <= i < j < |out| && out[i].filesize == IntMax ==> IntMax <= out[j].filesize
    ensures forall i, x :: 0 <= i < |out| && x in rest && out[i].filesize == IntMax ==> IntMax <= x.filesize
    ensures CostsInRange(m) ==>
      forall i, j :: 0 <= i < j < |out| && out[i].filesize == IntMax ==> out[j].filesize == IntMax
    ensures CostsInRange(m) ==>
      forall i, x :: 0 <= i < |out| && x in rest && out[i].filesize == IntMax ==> x.filesize == IntMax
  {
    DrainSorted(SFF, m, out, rest);
    DrainPermutation(SFF, m, out, rest);
    if CostsInRange(m) {
      forall j | 0 <= j < |out|
        ensures out[j].filesize <= IntMax
      {
        assert out[j] in multiset(out);
      }
    }
  }
}
