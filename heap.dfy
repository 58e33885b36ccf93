/// The bounded binary min-heap of pending requests (`request_heap`,
/// `heap_size`, `buffer_capacity` and the heap routines of src/pserver.c).
module RequestHeap {
  import opened Requests

  function Parent(i: nat): nat
    requires 0 < i
  {
    (i - 1) / 2
  }

  function Left(i: nat): nat { 2 * i + 1 }

  function Right(i: nat): nat { 2 * i + 2 }

  /// Every slot is ordered no earlier than its parent.
  ghost predicate IsHeap(p: Policy, s: seq<Request>)
  {
    forall j {:trigger s[Parent(j)]} :: 0 < j < |s| ==> Le(p, s[Parent(j)], s[j])
  }

  /// The state of an upward sift at `k`: the heap order holds everywhere
  /// except between `k` and its parent, and `k`'s parent is ordered before
  /// `k`'s children.
  ghost predicate SiftUpInv(p: Policy, s: seq<Request>, k: nat)
  {
    && k < |s|
    && (forall j {:trigger s[Parent(j)]} :: 0 < j < |s| && j != k ==> Le(p, s[Parent(j)], s[j]))
    && (0 < k ==> forall j :: 0 < j < |s| && Parent(j) == k ==> Le(p, s[Parent(k)], s[j]))
  }

  /// The state of a downward sift at `k`: the heap order holds everywhere
  /// except between `k` and its children, and `k`'s parent is ordered before
  /// `k`'s children.
  ghost predicate SiftDownInv(p: Policy, s: seq<Request>, k: nat)
  {
    && k < |s|
    && (forall j {:trigger s[Parent(j)]} :: 0 < j < |s| && Parent(j) != k ==> Le(p, s[Parent(j)], s[j]))
    && (0 < k ==> forall j :: 0 < j < |s| && Parent(j) == k ==> Le(p, s[Parent(k)], s[j]))
  }

  /// The root of a heap is ordered before every element.
  lemma {:induction false} HeapRootLeast(p: Policy, s: seq<Request>, j: nat)
    requires IsHeap(p, s) && j < |s|
    ensures Le(p, s[0], s[j])
    decreases j
  {
    if j > 0 {
      HeapRootLeast(p, s, Parent(j));
      CompareTransitive(p, s[0], s[Parent(j)], s[j]);
    }
  }

  lemma HeapRootMinimum(p: Policy, s: seq<Request>)
    requires IsHeap(p, s) && |s| > 0
    ensures forall x :: x in multiset(s) ==> Le(p, s[0], x)
  {
    forall x | x in multiset(s) ensures Le(p, s[0], x) {
      var j :| 0 <= j < |s| && s[j] == x;
      HeapRootLeast(p, s, j);
    }
  }

  /// Swapping an element that is strictly before its parent moves the
  /// sift one level up.
  lemma SiftUpStep(p: Policy, s: seq<Request>, k: nat)
    requires SiftUpInv(p, s, k) && 0 < k
    requires Lt(p, s[k], s[Parent(k)])
    ensures SiftUpInv(p, s[k := s[Parent(k)]][Parent(k) := s[k]], Parent(k))
  {
    var q := Parent(k);
    var t := s[k := s[q]][q := s[k]];
    forall j | 0 < j < |t| && j != q
      ensures Le(p, t[Parent(j)], t[j])
    {
      if j == k {
      } else if Parent(j) == k {
      } else if Parent(j) == q {
        CompareTransitive(p, s[k], s[q], s[j]);
      }
    }
    if 0 < q {
      forall j | 0 < j < |t| && Parent(j) == q
        ensures Le(p, t[Parent(q)], t[j])
      {
        if j != k {
          CompareTransitive(p, s[Parent(q)], s[q], s[j]);
        }
      }
    }
  }

  lemma SiftUpDone(p: Policy, s: seq<Request>, k: nat)
    requires SiftUpInv(p, s, k)
    requires k == 0 || !Lt(p, s[k], s[Parent(k)])
    ensures IsHeap(p, s)
  {
    if k > 0 {
      CompareTotal(p, s[k], s[Parent(k)]);
    }
  }

  /// Swapping `k` with its smaller child `c` moves the sift one level down.
  lemma SiftDownStep(p: Policy, s: seq<Request>, k: nat, c: nat)
    requires SiftDownInv(p, s, k)
    requires (c == Left(k) || c == Right(k)) && c < |s|
    requires Lt(p, s[c], s[k])
    requires Left(k) < |s| ==> Le(p, s[c], s[Left(k)])
    requires Right(k) < |s| ==> Le(p, s[c], s[Right(k)])
    ensures SiftDownInv(p, s[k := s[c]][c := s[k]], c)
  {
    SiftDownStepAbove(p, s, k, c);
    SiftDownStepBelow(p, s, k, c);
  }

  /// After the swap every parent/child pair not hanging below `c` is ordered.
  lemma SiftDownStepAbove(p: Policy, s: seq<Request>, k: nat, c: nat)
    requires SiftDownInv(p, s, k)
    requires (c == Left(k) || c == Right(k)) && c < |s|
    requires Lt(p, s[c], s[k])
    requires Left(k) < |s| ==> Le(p, s[c], s[Left(k)])
    requires Right(k) < |s| ==> Le(p, s[c], s[Right(k)])
    ensures var t := s[k := s[c]][c := s[k]];
      forall j {:trigger t[Parent(j)]} :: 0 < j < |t| && Parent(j) != c ==> Le(p, t[Parent(j)], t[j])
  {
    var t := s[k := s[c]][c := s[k]];
    forall j | 0 < j < |t| && Parent(j) != c
      ensures Le(p, t[Parent(j)], t[j])
    {
      if j == c {
      } else if j == k {
        assert Parent(c) == k;
      } else if Parent(j) == k {
        assert j == Left(k) || j == Right(k);
      }
    }
  }

  /// After the swap the children of `c` are ordered after the element now
  /// above `c`.
  lemma SiftDownStepBelow(p: Policy, s: seq<Request>, k: nat, c: nat)
    requires SiftDownInv(p, s, k)
    requires (c == Left(k) || c == Right(k)) && c < |s|
    ensures var t := s[k := s[c]][c := s[k]];
      forall j :: 0 < j < |t| && Parent(j) == c ==> Le(p, t[Parent(c)], t[j])
  {
  }

  /// What the choice of `smallest` in a downward sift guarantees.
  lemma SmallestChild(p: Policy, s: seq<Request>, k: nat, smallest: nat)
    requires k < |s|
    requires
      var first := if Left(k) < |s| && Lt(p, s[Left(k)], s[k]) then Left(k) else k;
      smallest == if Right(k) < |s| && Lt(p, s[Right(k)], s[first]) then Right(k) else first
    ensures smallest != k ==>
      && (smallest == Left(k) || smallest == Right(k)) && smallest < |s|
      && Lt(p, s[smallest], s[k])
      && (Left(k) < |s| ==> Le(p, s[smallest], s[Left(k)]))
      && (Right(k) < |s| ==> Le(p, s[smallest], s[Right(k)]))
    ensures smallest == k ==>
      && (Left(k) < |s| ==> !Lt(p, s[Left(k)], s[k]))
      && (Right(k) < |s| ==> !Lt(p, s[Right(k)], s[k]))
  {
    var l, r := Left(k), Right(k);
    if l < |s| {
      CompareTotal(p, s[l], s[k]);
      CompareTransitive(p, s[l], s[k], s[l]);
    }
    if r < |s| {
      CompareTotal(p, s[r], s[k]);
      if l < |s| {
        CompareTotal(p, s[r], s[l]);
        CompareTransitive(p, s[r], s[l], s[k]);
        CompareTransitive(p, s[r], s[k], s[l]);
      }
    }
  }

  lemma SiftDownDone(p: Policy, s: seq<Request>, k: nat)
    requires SiftDownInv(p, s, k)
    requires Left(k) < |s| ==> !Lt(p, s[Left(k)], s[k])
    requires Right(k) < |s| ==> !Lt(p, s[Right(k)], s[k])
    ensures IsHeap(p, s)
  {
    forall j | 0 < j < |s| && Parent(j) == k
      ensures Le(p, s[k], s[j])
    {
      assert j == Left(k) || j == Right(k);
      CompareTotal(p, s[j], s[k]);
    }
  }

  /// Exchanging two slots below `n` permutes the first `n` slots and leaves
  /// the rest alone.
  lemma SwapWithinPrefix(s: seq<Request>, i: nat, j: nat, n: nat)
    requires i < n && j < n && n <= |s|
    ensures s[i := s[j]][j := s[i]][..n] == s[..n][i := s[j]][j := s[i]]
    ensures s[i := s[j]][j := s[i]][n..] == s[n..]
    ensures multiset(s[..n][i := s[j]][j := s[i]]) == multiset(s[..n])
  {
  }

  /// Writing a slot below `n` changes the first `n` slots at that slot only.
  lemma WriteWithinPrefix(s: seq<Request>, i: nat, v: Request, n: nat)
    requires i < n <= |s|
    ensures s[i := v][..n] == s[..n][i := v]
  {
  }

  /// One turn of the downward sift on the first `n` slots of `whole`: when
  /// the least of slot `k` and its children is the child `c`, exchanging the
  /// two moves the sift down to `c`.
  lemma SiftDownSwap(p: Policy, whole: seq<Request>, n: nat, k: nat, c: nat)
    requires n <= |whole| && SiftDownInv(p, whole[..n], k)
    requires k < n
    requires
      var first := if Left(k) < n && Lt(p, whole[Left(k)], whole[k]) then Left(k) else k;
      c == (if Right(k) < n && Lt(p, whole[Right(k)], whole[first]) then Right(k) else first)
    requires c != k
    ensures k < c < n
    ensures SiftDownInv(p, whole[k := whole[c]][c := whole[k]][..n], c)
  {
    var s := whole[..n];
    SmallestChild(p, s, k, c);
    SiftDownStep(p, s, k, c);
    SwapWithinPrefix(whole, k, c, n);
  }

  /// Moving the last element into the root removes the root's value.
  lemma MoveLastToRoot(p: Policy, s: seq<Request>)
    requires IsHeap(p, s) && |s| >= 2
    ensures SiftDownInv(p, s[..|s| - 1][0 := s[|s| - 1]], 0)
    ensures multiset(s[..|s| - 1][0 := s[|s| - 1]]) == multiset(s) - multiset{s[0]}
  {
    var n := |s|;
    assert s == [s[0]] + s[1..n - 1] + [s[n - 1]];
    assert s[..n - 1][0 := s[n - 1]] == [s[n - 1]] + s[1..n - 1];
  }

  /// The request buffer of the server: a fixed array of `capacity` slots
  /// of which the first `size` hold a heap under the server's policy.
  class Heap {
    const policy: Policy
    const capacity: nat
    const buffer: array<Request>
    var size: nat

    ghost predicate Valid()
      reads this, buffer
    {
      && buffer.Length == capacity
      && size <= capacity
      && IsHeap(policy, buffer[..size])
    }

    /// The pending requests.
    ghost function Contents(): multiset<Request>
      reads this, buffer
      requires size <= buffer.Length
    {
      multiset(buffer[..size])
    }

    constructor (policy: Policy, capacity: nat)
      ensures Valid() && fresh(buffer)
      ensures this.policy == policy && this.capacity == capacity
      ensures size == 0 && Contents() == multiset{}
    {
      this.policy := policy;
      this.capacity := capacity;
      buffer := new Request[capacity];
      size := 0;
    }

    method Swap(i: nat, j: nat)
      requires i < buffer.Length && j < buffer.Length
      modifies buffer
      ensures buffer[..] == old(buffer[..])[i := old(buffer[j])][j := old(buffer[i])]
      ensures forall k :: 0 <= k < buffer.Length && k != i && k != j ==> buffer[k] == old(buffer[k])
    {
      var temp := buffer[i];
      buffer[i] := buffer[j];
      buffer[j] := temp;
    }

    /// Moves the element at `index` up until its parent is ordered before
    /// it; only slots `0..index` are touched.
    method HeapifyUp(index: nat)
      requires index < buffer.Length
      requires SiftUpInv(policy, buffer[..index + 1], index)
      modifies buffer
      ensures IsHeap(policy, buffer[..index + 1])
      ensures multiset(buffer[..index + 1]) == multiset(old(buffer[..index + 1]))
      ensures buffer[index + 1..] == old(buffer[index + 1..])
    {
      var i: nat := index;
      while i > 0
        invariant i <= index
        invariant SiftUpInv(policy, buffer[..index + 1], i)
        invariant multiset(buffer[..index + 1]) == multiset(old(buffer[..index + 1]))
        invariant buffer[index + 1..] == old(buffer[index + 1..])
        decreases i
      {
        var parent: nat := (i - 1) / 2;
        if Compare(policy, buffer[i], buffer[parent]) < 0 {
          ghost var s, whole := buffer[..index + 1], buffer[..];
          SiftUpStep(policy, s, i);
          Swap(i, parent);
          SwapWithinPrefix(whole, i, parent, index + 1);
          i := parent;
        } else {
          SiftUpDone(policy, buffer[..index + 1], i);
          break;
        }
      }
      if i == 0 {
        SiftUpDone(policy, buffer[..index + 1], i);
      }
    }

    /// Moves the element at `index` down below its smaller child until
    /// both children are ordered after it; only slots below `size` are
    /// touched.
    method HeapifyDown(index: nat)
      requires size <= buffer.Length && index < size
      requires SiftDownInv(policy, buffer[..size], index)
      modifies buffer
      ensures IsHeap(policy, buffer[..size])
      ensures multiset(buffer[..size]) == multiset(old(buffer[..size]))
      ensures forall j :: size <= j < buffer.Length ==> buffer[j] == old(buffer[j])
    {
      var i: nat := index;
      while true
        invariant i < size
        invariant SiftDownInv(policy, buffer[..size], i)
        invariant multiset(buffer[..size]) == multiset(old(buffer[..size]))
        invariant forall j :: size <= j < buffer.Length ==> buffer[j] == old(buffer[j])
        decreases size - i
      {
        ghost var whole := buffer[..];
        var smallest := SiftDownTurn(i);
        if smallest == i {
          break;
        }
        SwapWithinPrefix(whole, i, smallest, size);
        i := smallest;
      }
    }

    /// One iteration of the downward sift at `i`: picks the least of the
    /// slot and its children and, when that is a child, swaps the two.  The
    /// sift either ends with a heap or continues one level down.
    method SiftDownTurn(i: nat) returns (smallest: nat)
      requires size <= buffer.Length && i < size
      requires SiftDownInv(policy, buffer[..size], i)
      modifies buffer
      ensures smallest == i ==> IsHeap(policy, buffer[..size]) && buffer[..] == old(buffer[..])
      ensures smallest != i ==>
        && i < smallest < size
        && SiftDownInv(policy, buffer[..size], smallest)
        && buffer[..] == old(buffer[..])[i := old(buffer[smallest])][smallest := old(buffer[i])]
    {
      smallest := i;
      var left: nat := 2 * i + 1;
      var right: nat := 2 * i + 2;
      if left < size && Compare(policy, buffer[left], buffer[smallest]) < 0 {
        smallest := left;
      }
      if right < size && Compare(policy, buffer[right], buffer[smallest]) < 0 {
        smallest := right;
      }
      if smallest != i {
        ghost var whole := buffer[..];
        SiftDownSwap(policy, whole, size, i, smallest);
        Swap(i, smallest);
        assert buffer[..size] == buffer[..][..size];
      } else {
        SmallestChild(policy, buffer[..size], i, smallest);
        SiftDownDone(policy, buffer[..size], i);
      }
    }

    /// Adds `req`; the server aborts instead when the buffer is full.
    method Insert(req: Request)
      requires Valid() && size < capacity
      modifies this, buffer
      ensures Valid() && size == old(size) + 1
      ensures Contents() == old(Contents()) + multiset{req}
      ensures forall i :: size <= i < capacity ==> buffer[i] == old(buffer[i])
    {
      buffer[size] := req;
      assert buffer[..size] == old(buffer[..size]);
      assert buffer[..size + 1] == old(buffer[..size]) + [req];
      HeapifyUp(size);
      size := size + 1;
    }

    /// Removes and returns a request that is ordered no later than any
    /// other pending one; the server aborts instead when nothing is pending.
    method ExtractMin() returns (min: Request)
      requires Valid() && size > 0
      modifies this, buffer
      ensures Valid() && size == old(size) - 1
      ensures min in old(Contents())
      ensures forall x :: x in old(Contents()) ==> Le(policy, min, x)
      ensures Contents() == old(Contents()) - multiset{min}
      ensures forall i :: size <= i < capacity ==> buffer[i] == old(buffer[i])
    {
      HeapRootMinimum(policy, buffer[..size]);
      min := buffer[0];
      size := size - 1;
      if size > 0 {
        RefillRoot();
      }
    }

    /// The second half of an extraction: the last pending request, at
    /// index `size`, moves into the vacated root and sifts down.
    method RefillRoot()
      requires 0 < size < buffer.Length
      requires IsHeap(policy, buffer[..size + 1])
      modifies buffer
      ensures IsHeap(policy, buffer[..size])
      ensures multiset(buffer[..size]) == multiset(old(buffer[..size + 1])) - multiset{old(buffer[0])}
      ensures forall i :: size <= i < buffer.Length ==> buffer[i] == old(buffer[i])
    {
      ghost var s := buffer[..size + 1];
      ghost var whole := buffer[..];
      buffer[0] := buffer[size];
      assert buffer[..size] == s[..size][0 := s[size]] by {
        assert buffer[..] == whole[0 := whole[size]];
        WriteWithinPrefix(whole, 0, whole[size], size);
        assert whole[..size] == s[..size];
      }
      MoveLastToRoot(policy, s);
      HeapifyDown(0);
    }
  }
}
