/**
 The expiry priority queue: `SecretHeap`, an array-backed binary min-heap of
 secret items ordered by deadline, together with the sift-up / sift-down /
 pop / remove algorithms of Go's `container/heap` package that drive it.

 The Go slice of `*SecretItem` is modelled as a sequence of `Item` values.
 Every item records the slot it occupies (`index`); `Swap`, `Append` and
 `Detach` keep that field up to date exactly as the Go methods do.
 */
module SecretHeap {

  /** A secret as the scheduler sees it: its database id and its deadline. */
  datatype Record = Record(id: int, expiresAt: int)

  /** One heap entry (`SecretItem`): id, deadline and its current slot. */
  datatype Item = Item(id: int, expiresAt: int, index: int) {
    function Rec(): Record { Record(id, expiresAt) }
  }

  /** The parent slot as `container/heap` computes it, `(j - 1) / 2`.
      Go's division truncates toward zero, so the root is its own parent
      (Dafny's Euclidean division would give -1 there). */
  function Parent(j: nat): (p: nat)
    ensures j == 0 ==> p == 0
    ensures j > 0 ==> p < j && (j == 2 * p + 1 || j == 2 * p + 2)
  {
    if j == 0 then 0 else (j - 1) / 2
  }

  /** `Less(i, j)`: the deadline in slot i is strictly before the one in slot j. */
  predicate Less(h: seq<Item>, i: nat, j: nat)
    requires i < |h| && j < |h|
  {
    h[i].expiresAt < h[j].expiresAt
  }

  // ---------------------------------------------------------------- contents

  /** The records held in a heap, slot by slot, ignoring the slot fields. */
  function Records(h: seq<Item>): (r: seq<Record>)
    ensures |r| == |h|
    ensures forall k :: 0 <= k < |h| ==> r[k] == h[k].Rec()
  {
    seq(|h|, k requires 0 <= k < |h| => h[k].Rec())
  }

  /** The multiset of records a heap holds. */
  ghost function Contents(h: seq<Item>): multiset<Record>
  {
    multiset(Records(h))
  }

  /** Every item's `index` field names the slot it is in. */
  ghost predicate Slotted(h: seq<Item>)
  {
    forall k :: 0 <= k < |h| ==> h[k].index == k
  }

  /** Within the prefix of length n, every parent-child edge is ordered,
      except the edge INTO slot u and the edges OUT OF slot d
      (pass -1 to exempt nothing). */
  ghost predicate OrderedBut(h: seq<Item>, n: nat, u: int, d: int)
    requires n <= |h|
  {
    forall k {:trigger Parent(k)} :: 0 < k < n && k != u && Parent(k) != d ==>
      h[Parent(k)].expiresAt <= h[k].expiresAt
  }

  /** The heap property: no child's deadline is before its parent's. */
  ghost predicate IsHeap(h: seq<Item>)
  {
    OrderedBut(h, |h|, -1, -1)
  }

  /** The children of slot x (inside the prefix of length n) are no earlier
      than x's parent: the fact that lets x trade places with either. */
  ghost predicate Bridged(h: seq<Item>, n: nat, x: nat)
    requires n <= |h|
  {
    x > 0 ==>
      forall k :: 0 < k < n && Parent(k) == x ==>
        Parent(x) < |h| && h[Parent(x)].expiresAt <= h[k].expiresAt
  }

  // ------------------------------------------------------ SecretHeap methods

  /** `Swap(i, j)`: exchange two entries and record their new slots. */
  function Swap(h: seq<Item>, i: nat, j: nat): (r: seq<Item>)
    requires i < |h| && j < |h|
    ensures |r| == |h|
    ensures r[i] == h[j].(index := i) && r[j] == h[i].(index := j)
    ensures forall k :: 0 <= k < |h| && k != i && k != j ==> r[k] == h[k]
  {
    h[i := h[j].(index := i)][j := h[i].(index := j)]
  }

  /** The type's `Push`: append the item, stamping it with the new slot. */
  function Append(h: seq<Item>, x: Item): (r: seq<Item>)
    ensures |r| == |h| + 1 && r[..|h|] == h
    ensures r[|h|].Rec() == x.Rec() && r[|h|].index == |h|
  {
    h + [x.(index := |h|)]
  }

  /** The type's `Pop`: detach the last entry and mark it as out of the heap
      with index -1. The source indexes `old[n-1]`, so the heap must be non-empty. */
  function Detach(h: seq<Item>): (r: (seq<Item>, Item))
    requires |h| > 0
    ensures r.0 == h[..|h| - 1]
    ensures r.1.Rec() == h[|h| - 1].Rec() && r.1.index == -1
  {
    (h[..|h| - 1], h[|h| - 1].(index := -1))
  }

  // ------------------------------------------------------ basic lemmas

  lemma SwapContents(h: seq<Item>, i: nat, j: nat)
    requires i < |h| && j < |h|
    ensures Contents(Swap(h, i, j)) == Contents(h)
  {
    var rs := Records(h);
    assert Records(Swap(h, i, j)) == rs[i := rs[j]][j := rs[i]];
  }

  /** Swapping keeps every item's slot field correct. */
  lemma SwapSlotted(h: seq<Item>, i: nat, j: nat)
    requires i < |h| && j < |h|
    requires Slotted(h)
    ensures Slotted(Swap(h, i, j))
  {
  }

  /** On a heap whose slot fields are correct, `Swap(i, j)` undoes itself. */
  lemma SwapInvolution(h: seq<Item>, i: nat, j: nat)
    requires i < |h| && j < |h|
    requires Slotted(h)
    ensures Swap(Swap(h, i, j), i, j) == h
  {
  }

  /** `Pop` undoes `Push` (the detached copy carries index -1). */
  lemma DetachAppend(h: seq<Item>, x: Item)
    ensures Detach(Append(h, x)) == (h, x.(index := -1))
  {
  }

  /** `Push` undoes `Pop` on a heap whose slot fields are correct. */
  lemma AppendDetach(h: seq<Item>)
    requires |h| > 0 && Slotted(h)
    ensures Append(Detach(h).0, Detach(h).1) == h
  {
    assert Append(Detach(h).0, Detach(h).1) == h[..|h| - 1] + [h[|h| - 1]];
  }

  /** Splitting off the last entry splits the contents. */
  lemma ContentsLast(h: seq<Item>)
    requires |h| > 0
    ensures Contents(h) == Contents(h[..|h| - 1]) + multiset{h[|h| - 1].Rec()}
  {
    assert Records(h) == Records(h[..|h| - 1]) + [h[|h| - 1].Rec()];
  }

  /** In a heap the root holds the earliest deadline. */
  lemma {:induction false} RootIsMin(h: seq<Item>, k: nat)
    requires IsHeap(h) && k < |h|
    ensures h[0].expiresAt <= h[k].expiresAt
    decreases k
  {
    if k > 0 {
      RootIsMin(h, Parent(k));
    }
  }

  lemma RootIsMinAll(h: seq<Item>)
    requires IsHeap(h) && |h| > 0
    ensures forall k :: 0 <= k < |h| ==> h[0].expiresAt <= h[k].expiresAt
  {
    forall k | 0 <= k < |h| {
      RootIsMin(h, k);
    }
  }

  // ------------------------------------------------------ sift steps

  /** One step of `up`: swapping j with its (later) parent moves the only
      out-of-order edge one level up. */
  lemma UpStep(h: seq<Item>, n: nat, j: nat)
    requires 0 < j < n <= |h|
    requires OrderedBut(h, n, j, -1) && Bridged(h, n, j)
    requires Less(h, j, Parent(j))
    ensures OrderedBut(Swap(h, Parent(j), j), n, Parent(j), -1)
    ensures Bridged(Swap(h, Parent(j), j), n, Parent(j))
  {
    var p := Parent(j);
    var s := Swap(h, p, j);
    forall k | 0 < k < n && k != p
      ensures s[Parent(k)].expiresAt <= s[k].expiresAt
    {
      if k == j {
      } else if Parent(k) == j {
        assert s[k] == h[k];
      } else if Parent(k) == p {
        assert h[p].expiresAt <= h[k].expiresAt;
      } else {
        assert h[Parent(k)].expiresAt <= h[k].expiresAt;
      }
    }
    if p > 0 {
      forall k | 0 < k < n && Parent(k) == p
        ensures s[Parent(p)].expiresAt <= s[k].expiresAt
      {
        assert h[Parent(p)].expiresAt <= h[p].expiresAt;
        if k != j {
          assert h[p].expiresAt <= h[k].expiresAt;
        }
      }
    }
  }

  /** One step of `down` from slot i (at or below the starting slot i0):
      swapping i with its earliest child j moves the out-of-order edges one
      level down, and once the entry has left i0 the edge into i0 is in order. */
  lemma DownStep(h: seq<Item>, n: nat, i0: nat, i: nat, j: nat)
    requires j < n <= |h| && Parent(j) == i && 0 < j && i0 <= i
    requires OrderedBut(h, n, i0, i) && Bridged(h, n, i)
    requires i > i0 && i0 > 0 ==> h[Parent(i0)].expiresAt <= h[i0].expiresAt
    requires forall c :: 0 < c < n && Parent(c) == i ==> h[j].expiresAt <= h[c].expiresAt
    requires Less(h, j, i)
    ensures OrderedBut(Swap(h, i, j), n, i0, j)
    ensures Bridged(Swap(h, i, j), n, j)
    ensures i0 > 0 ==> Swap(h, i, j)[Parent(i0)].expiresAt <= Swap(h, i, j)[i0].expiresAt
  {
    var s := Swap(h, i, j);
    forall k | 0 < k < n && k != i0 && Parent(k) != j
      ensures s[Parent(k)].expiresAt <= s[k].expiresAt
    {
      if k == j {
      } else if k == i {
        assert s[i] == h[j].(index := i);
        assert Parent(i) != j;
        assert h[Parent(i)].expiresAt <= h[j].expiresAt;
      } else if Parent(k) == i {
        assert s[k] == h[k];
      } else {
        assert s[k] == h[k];
      }
    }
    forall k | 0 < k < n && Parent(k) == j
      ensures s[Parent(j)].expiresAt <= s[k].expiresAt
    {
      assert s[k] == h[k];
      assert h[j].expiresAt <= h[k].expiresAt;
    }
    if i0 > 0 {
      assert Parent(i0) < i0;
      if i == i0 {
        assert h[Parent(i)].expiresAt <= h[j].expiresAt;
      }
    }
  }

  /** After `Swap(i, n)` on a heap, the prefix of length n is a heap except
      around slot i, and i's children are no earlier than i's parent. */
  lemma RemovePrep(h: seq<Item>, i: nat, n: nat)
    requires i < n && n == |h| - 1 && IsHeap(h)
    ensures OrderedBut(Swap(h, i, n), n, i, i) && Bridged(Swap(h, i, n), n, i)
  {
    var t := Swap(h, i, n);
    if i > 0 {
      forall k | 0 < k < n && Parent(k) == i
        ensures t[Parent(i)].expiresAt <= t[k].expiresAt
      {
        assert h[Parent(i)].expiresAt <= h[i].expiresAt;
        assert h[i].expiresAt <= h[k].expiresAt;
      }
    }
  }

  // ------------------------------------------------------ container/heap

  /** `up(h, j)`: move the entry at j toward the root while it is strictly
      earlier than its parent. Only ancestors of j move, so the prefix of
      length n that the caller reasons about is all that changes. */
  method SiftUp(h: seq<Item>, j0: nat, ghost n: nat) returns (r: seq<Item>)
    requires j0 < n <= |h|
    requires OrderedBut(h, n, j0, -1) && Bridged(h, n, j0)
    ensures |r| == |h| && r[n..] == h[n..]
    ensures OrderedBut(r, n, -1, -1)
    ensures Contents(r) == Contents(h)
    ensures Slotted(h) ==> Slotted(r)
  {
    r := h;
    var j: nat := j0;
    while true
      invariant j < n && |r| == |h| && r[n..] == h[n..]
      invariant OrderedBut(r, n, j, -1) && Bridged(r, n, j)
      invariant Contents(r) == Contents(h)
      invariant Slotted(h) ==> Slotted(r)
      decreases j
    {
      var i := Parent(j);
      if i == j || !Less(r, j, i) {
        break;
      }
      UpStep(r, n, j);
      SwapContents(r, i, j);
      if Slotted(h) {
        SwapSlotted(r, i, j);
      }
      r := Swap(r, i, j);
      j := i;
    }
  }

  /** `down(h, i0, n)`: move the entry at i0 away from the root while a child
      is strictly earlier, choosing the right child only when it is strictly
      earlier than the left one. Reports whether the entry moved. */
  method SiftDown(h: seq<Item>, i0: nat, n: nat) returns (r: seq<Item>, moved: bool)
    requires i0 <= n <= |h|
    requires OrderedBut(h, n, i0, i0) && Bridged(h, n, i0)
    ensures |r| == |h| && r[n..] == h[n..]
    ensures Contents(r) == Contents(h)
    ensures Slotted(h) ==> Slotted(r)
    ensures moved ==> OrderedBut(r, n, -1, -1)
    ensures !moved ==> OrderedBut(r, n, i0, -1) && Bridged(r, n, i0)
  {
    r := h;
    var i: nat := i0;
    var done := false;
    while !done
      invariant DownInv(h, r, n, i0, i)
      invariant done ==> DownFinished(r, n, i0, i)
      decreases n - i, !done
    {
      r, i, done := DownOnce(h, r, n, i0, i);
    }
    moved := i > i0;
  }

  /** The slot `down` moves the entry at i to: i itself when i has no
      child in the prefix or no child strictly earlier than it, otherwise
      its earliest child (the left one unless the right one is strictly
      earlier). */
  function Sink(r: seq<Item>, n: nat, i: nat): (j: nat)
    requires n <= |r|
    ensures j == i || (i < j < n && Parent(j) == i)
  {
    var j1 := 2 * i + 1;
    if j1 >= n then i
    else
      var j := if j1 + 1 < n && Less(r, j1 + 1, j1) then j1 + 1 else j1;
      if Less(r, j, i) then j else i
  }

  /** The loop body of `down`: stop at the slot `Sink` leaves the entry in,
      or swap it one level down. */
  method DownOnce(ghost h: seq<Item>, r: seq<Item>, n: nat, ghost i0: nat, i: nat)
    returns (r': seq<Item>, i': nat, stop: bool)
    requires DownInv(h, r, n, i0, i)
    ensures DownInv(h, r', n, i0, i')
    ensures stop ==> i' == i && DownFinished(r', n, i0, i')
    ensures !stop ==> i < i' && i' == Sink(r, n, i) && r' == Swap(r, i, i')
  {
    var j := Sink(r, n, i);
    if j == i {
      SinkStops(h, r, n, i0, i);
      return r, i, true;
    }
    SinkMoves(h, r, n, i0, i, j);
    return Swap(r, i, j), j, false;
  }

  /** Where `Sink` stays put, `down` is finished. */
  lemma SinkStops(h: seq<Item>, r: seq<Item>, n: nat, i0: nat, i: nat)
    requires DownInv(h, r, n, i0, i) && Sink(r, n, i) == i
    ensures DownFinished(r, n, i0, i)
  {
    var j1 := 2 * i + 1;
    if j1 >= n {
      Leaf(r, n, i);
    } else {
      var j := if j1 + 1 < n && Less(r, j1 + 1, j1) then j1 + 1 else j1;
      MinChild(r, n, i, j);
      Settled(r, n, i, j);
    }
    DownExit(h, r, n, i0, i);
  }

  /** Where `Sink` moves on, the loop invariant of `down` holds one level
      down after the swap. */
  lemma SinkMoves(h: seq<Item>, r: seq<Item>, n: nat, i0: nat, i: nat, j: nat)
    requires DownInv(h, r, n, i0, i) && j == Sink(r, n, i) && j != i
    ensures DownInv(h, Swap(r, i, j), n, i0, j)
  {
    MinChild(r, n, i, j);
    DownIter(h, r, n, i0, i, j);
  }

  /** How `down` leaves the prefix once it stops at slot i. */
  ghost predicate DownFinished(r: seq<Item>, n: nat, i0: nat, i: nat)
    requires n <= |r|
  {
    && (i > i0 ==> OrderedBut(r, n, -1, -1))
    && (i == i0 ==> OrderedBut(r, n, i0, -1) && Bridged(r, n, i0))
  }

  /** What `down` keeps true while the entry from i0 sits at slot i. */
  ghost predicate DownInv(h: seq<Item>, r: seq<Item>, n: nat, i0: nat, i: nat)
  {
    && i0 <= i <= n <= |h| && |r| == |h| && r[n..] == h[n..]
    && OrderedBut(r, n, i0, i) && Bridged(r, n, i)
    && (i > i0 && i0 > 0 ==> r[Parent(i0)].expiresAt <= r[i0].expiresAt)
    && (i == i0 ==> Bridged(r, n, i0))
    && Contents(r) == Contents(h) && (Slotted(h) ==> Slotted(r))
  }

  /** `down` stops when i has no child in the prefix or no child strictly
      earlier than i; the edges out of i are then in order. */
  lemma DownExit(h: seq<Item>, r: seq<Item>, n: nat, i0: nat, i: nat)
    requires DownInv(h, r, n, i0, i)
    requires forall c :: 0 < c < n && Parent(c) == i ==> r[i].expiresAt <= r[c].expiresAt
    ensures DownFinished(r, n, i0, i)
  {
    DownDone(r, n, i, i0);
    if i > i0 {
      CloseEdge(r, n, i0);
    }
  }

  /** One iteration of `down`, with the bookkeeping the loop carries. */
  lemma DownIter(h: seq<Item>, r: seq<Item>, n: nat, i0: nat, i: nat, j: nat)
    requires DownInv(h, r, n, i0, i)
    requires j < n && Parent(j) == i && 0 < j
    requires forall c :: 0 < c < n && Parent(c) == i ==> r[j].expiresAt <= r[c].expiresAt
    requires Less(r, j, i)
    ensures DownInv(h, Swap(r, i, j), n, i0, j)
  {
    DownStep(r, n, i0, i, j);
    SwapContents(r, i, j);
    if Slotted(h) {
      SwapSlotted(r, i, j);
    }
    assert Swap(r, i, j)[n..] == r[n..];
  }

  /** A slot with no child inside the prefix is no later than its children. */
  lemma Leaf(h: seq<Item>, n: nat, i: nat)
    requires n <= |h| && 2 * i + 1 >= n
    ensures forall c :: 0 < c < n && Parent(c) == i ==> h[i].expiresAt <= h[c].expiresAt
  {
  }

  /** A slot no later than its earliest child is no later than either. */
  lemma Settled(h: seq<Item>, n: nat, i: nat, j: nat)
    requires n <= |h| && i < n && j < n
    requires forall c :: 0 < c < n && Parent(c) == i ==> h[j].expiresAt <= h[c].expiresAt
    requires !Less(h, j, i)
    ensures forall c :: 0 < c < n && Parent(c) == i ==> h[i].expiresAt <= h[c].expiresAt
  {
  }

  /** The child `down` picks (the left one unless the right one is strictly
      earlier) is no later than any child of i. */
  lemma MinChild(h: seq<Item>, n: nat, i: nat, j: nat)
    requires n <= |h| && 2 * i + 1 < n
    requires j == 2 * i + 1 || (j == 2 * i + 2 && j < n && Less(h, j, j - 1))
    requires j == 2 * i + 1 && 2 * i + 2 < n ==> !Less(h, 2 * i + 2, j)
    ensures 0 < j < n && Parent(j) == i
    ensures forall c :: 0 < c < n && Parent(c) == i ==> h[j].expiresAt <= h[c].expiresAt
  {
  }

  /** An ordered edge into x closes the last gap. */
  lemma CloseEdge(h: seq<Item>, n: nat, x: nat)
    requires n <= |h| && OrderedBut(h, n, x, -1)
    requires 0 < x < n ==> h[Parent(x)].expiresAt <= h[x].expiresAt
    ensures OrderedBut(h, n, -1, -1)
  {
  }

  /** `down` stops when no child of i is strictly earlier than i: the
      edges out of i are then in order as well. */
  lemma DownDone(h: seq<Item>, n: nat, i: nat, u: int)
    requires n <= |h|
    requires OrderedBut(h, n, u, i)
    requires forall c :: 0 < c < n && Parent(c) == i ==> h[i].expiresAt <= h[c].expiresAt
    ensures OrderedBut(h, n, u, -1)
  {
  }

  /** `heap.Push`: append, then sift the new entry up. */
  method Push(h: seq<Item>, x: Item) returns (r: seq<Item>)
    requires IsHeap(h)
    ensures IsHeap(r) && |r| == |h| + 1
    ensures Contents(r) == Contents(h) + multiset{x.Rec()}
    ensures Slotted(h) ==> Slotted(r)
  {
    var t := Append(h, x);
    ContentsLast(t);
    assert t[..|h|] == h;
    r := SiftUp(t, |h|, |t|);
  }

  /** `heap.Pop`: move the last entry to the root, sift it down over the
      shortened prefix, then detach the old root from the end. */
  method PopMin(h: seq<Item>) returns (r: seq<Item>, x: Item)
    requires |h| > 0 && IsHeap(h)
    ensures x.Rec() == h[0].Rec() && x.index == -1
    ensures forall k :: 0 <= k < |h| ==> x.expiresAt <= h[k].expiresAt
    ensures IsHeap(r) && |r| == |h| - 1
    ensures Contents(r) + multiset{x.Rec()} == Contents(h)
    ensures Slotted(h) ==> Slotted(r)
  {
    RootIsMinAll(h);
    var n := |h| - 1;
    var t := Swap(h, 0, n);
    SwapContents(h, 0, n);
    if Slotted(h) {
      SwapSlotted(h, 0, n);
    }
    var moved;
    t, moved := SiftDown(t, 0, n);
    assert t[n] == h[0].(index := n) by {
      assert t[n..][0] == t[n];
    }
    DetachKeeps(h, t);
    r, x := Detach(t).0, Detach(t).1;
  }

  /** `heap.Remove(i)`: move the last entry into slot i, sift it down, and if
      it did not move sift it up; then detach the removed entry from the end. */
  method Remove(h: seq<Item>, i: nat) returns (r: seq<Item>, x: Item)
    requires i < |h| && IsHeap(h)
    ensures x.Rec() == h[i].Rec() && x.index == -1
    ensures IsHeap(r) && |r| == |h| - 1
    ensures Contents(r) + multiset{x.Rec()} == Contents(h)
    ensures Slotted(h) ==> Slotted(r)
  {
    var t := h;
    if i != |h| - 1 {
      t := Reposition(h, i);
    }
    DetachKeeps(h, t);
    r, x := Detach(t).0, Detach(t).1;
  }

  /** The part of `heap.Remove(i)` before the final detach, for a slot i
      other than the last: swap i with the last slot, then `down`, and `up`
      if `down` did not move the entry. */
  method Reposition(h: seq<Item>, i: nat) returns (t: seq<Item>)
    requires i < |h| - 1 && IsHeap(h)
    ensures |t| == |h| && t[|h| - 1] == h[i].(index := |h| - 1)
    ensures OrderedBut(t, |h| - 1, -1, -1)
    ensures Contents(t) == Contents(h)
    ensures Slotted(h) ==> Slotted(t)
  {
    var n := |h| - 1;
    t := Swap(h, i, n);
    SwapContents(h, i, n);
    if Slotted(h) {
      SwapSlotted(h, i, n);
    }
    RemovePrep(h, i, n);
    var moved;
    t, moved := SiftDown(t, i, n);
    if !moved {
      t := SiftUp(t, i, n);
    }
    assert t[n..][0] == t[n];
  }

  /** Detaching the last slot of a sequence whose prefix is a heap leaves a
      heap and takes exactly that entry's record out of the contents. */
  lemma DetachKeeps(h: seq<Item>, t: seq<Item>)
    requires |t| == |h| > 0
    requires OrderedBut(t, |t| - 1, -1, -1)
    requires Contents(t) == Contents(h) && (Slotted(h) ==> Slotted(t))
    ensures IsHeap(Detach(t).0)
    ensures Contents(Detach(t).0) + multiset{Detach(t).1.Rec()} == Contents(h)
    ensures Slotted(h) ==> Slotted(Detach(t).0)
  {
    ContentsLast(t);
    var r := Detach(t).0;
    forall k {:trigger Parent(k)} | 0 < k < |r|
      ensures r[Parent(k)].expiresAt <= r[k].expiresAt
    {
      assert t[Parent(k)].expiresAt <= t[k].expiresAt;
    }
  }
}
