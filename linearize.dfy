/** The three phases of `linearize` on the slot array: stamp each element's rank into `prev`,
    swap every element to the slot of its rank, and relink both chains in index order. */
module Linearization {
  import opened Slots

  /** The phase-two invariant. `pos[r]` is the slot currently holding the element of rank r+1;
      that slot is in use, holds the value of that rank and carries the rank in `prev`. Every slot
      in use carries a rank whose slot it is, and every free slot is poisoned. */
  ghost predicate Ranked<T>(s: seq<Node<T>>, vals: seq<T>, pos: seq<nat>, poison: T)
  {
    |pos| == |vals| && |pos| < |s| && InSlots(pos, |s|) &&
    (forall r {:trigger s[pos[r]]} :: 0 <= r < |pos| ==> !s[pos[r]].isFree && s[pos[r]].value == vals[r] && s[pos[r]].prev == r + 1) &&
    (forall j :: 0 < j < |s| && !s[j].isFree ==> 0 < s[j].prev <= |pos| && pos[s[j].prev - 1] == j) &&
    (forall j :: 0 < j < |s| && s[j].isFree ==> s[j].value == poison)
  }

  /** Every slot before `i` that is in use sits at its own rank. */
  ghost predicate Settled<T>(s: seq<Node<T>>, i: nat)
  {
    forall j :: 0 < j < i && j < |s| && !s[j].isFree ==> s[j].prev == j
  }

  /** A slot that is free or at its own rank extends the settled prefix by one. */
  lemma SettledNext<T>(s: seq<Node<T>>, i: nat)
    requires Settled(s, i) && i < |s| && (s[i].isFree || s[i].prev == i)
    ensures Settled(s, i + 1)
  {
  }

  /** The ranks whose element is not yet at its own slot. */
  ghost function Unsettled(pos: seq<nat>): (u: set<nat>)
  {
    set k | 0 <= k < |pos| && pos[k] != k + 1
  }

  /** Slots 1..n hold the n values in order and are in use; every later slot is free and poisoned. */
  ghost predicate Placed<T>(s: seq<Node<T>>, vals: seq<T>, poison: T)
  {
    |vals| < |s| &&
    (forall r :: 1 <= r <= |vals| ==> !s[r].isFree && s[r].value == vals[r - 1]) &&
    (forall j :: |vals| < j < |s| ==> s[j].isFree && s[j].value == poison)
  }

  /** Slots i and j exchanged whole (what `memswap` does to two distinct slots). */
  function Swapped<T>(s: seq<Node<T>>, i: nat, j: nat): (r: seq<Node<T>>)
    requires i < |s| && j < |s|
    ensures |r| == |s|
  {
    s[i := s[j]][j := s[i]]
  }

  /** Where each rank sits after slot i is swapped with the slot of its rank. */
  ghost function Reranked<T>(s: seq<Node<T>>, pos: seq<nat>, i: nat): (pos': seq<nat>)
    requires i < |s| && 0 < s[i].prev <= |pos| && s[i].prev < |s|
    requires !s[s[i].prev].isFree ==> 0 < s[s[i].prev].prev <= |pos|
  {
    var r := s[i].prev;
    if s[r].isFree then pos[r - 1 := r] else pos[r - 1 := r][s[r].prev - 1 := i]
  }

  /** The slots after the first loop of `linearize` has visited the first k elements of the
      chain: the m-th of them (from 0) carries rank m + 1 in its `prev`. */
  function Stamped<T>(s: seq<Node<T>>, order: seq<nat>, k: nat): (r: seq<Node<T>>)
    requires k <= |order| && InSlots(order, |s|)
    ensures |r| == |s|
    decreases k
  {
    if k == 0 then s
    else
      var t := Stamped(s, order, k - 1);
      t[order[k - 1] := t[order[k - 1]].(prev := k)]
  }

  /** Stamping changes only `prev` fields. */
  lemma {:induction false} StampedKeeps<T>(s: seq<Node<T>>, order: seq<nat>, k: nat, j: nat)
    requires k <= |order| && InSlots(order, |s|) && j < |s|
    ensures Stamped(s, order, k)[j] == s[j].(prev := Stamped(s, order, k)[j].prev)
    decreases k
  {
    if k > 0 {
      StampedKeeps(s, order, k - 1, j);
    }
  }

  /** The m-th element of the chain carries rank m + 1 once visited and its old `prev` before. */
  lemma {:induction false} StampedAt<T>(s: seq<Node<T>>, order: seq<nat>, k: nat, m: nat)
    requires k <= |order| && InSlots(order, |s|) && Distinct(order) && m < |order|
    ensures Stamped(s, order, k)[order[m]].prev == if m < k then m + 1 else s[order[m]].prev
    decreases k
  {
    if k > 0 {
      StampedAt(s, order, k - 1, m);
    }
  }

  /** A slot that is not among the visited elements is untouched. */
  lemma {:induction false} StampedOff<T>(s: seq<Node<T>>, order: seq<nat>, k: nat, j: nat)
    requires k <= |order| && InSlots(order, |s|) && j < |s|
    requires forall m :: 0 <= m < k ==> order[m] != j
    ensures Stamped(s, order, k)[j] == s[j]
    decreases k
  {
    if k > 0 {
      StampedOff(s, order, k - 1, j);
    }
  }

  /** Once the whole chain is visited, each element carries its rank and every other slot is
      as it was. */
  lemma StampedAll<T>(s: seq<Node<T>>, order: seq<nat>)
    requires InSlots(order, |s|) && Distinct(order)
    ensures forall k :: 0 <= k < |order| ==> Stamped(s, order, |order|)[order[k]] == s[order[k]].(prev := k + 1)
    ensures forall j :: 0 <= j < |s| && j !in order ==> Stamped(s, order, |order|)[j] == s[j]
  {
    var s1 := Stamped(s, order, |order|);
    forall k | 0 <= k < |order|
      ensures s1[order[k]] == s[order[k]].(prev := k + 1)
    {
      StampedAt(s, order, |order|, k);
      StampedKeeps(s, order, |order|, order[k]);
    }
    forall j | 0 <= j < |s| && j !in order
      ensures s1[j] == s[j]
    {
      StampedOff(s, order, |order|, j);
    }
  }

  /** Stamping ranks into `prev` along a consistent active chain sets up the invariant of the
      second loop of `linearize`. */
  lemma StampedRanked<T>(s0: seq<Node<T>>, s1: seq<Node<T>>, poison: T, free: nat, order: seq<nat>, fo: seq<nat>)
    requires Layout(s0, poison, free, order, fo) && |s1| == |s0| && |order| + 2 <= |s0|
    requires forall k :: 0 <= k < |order| ==> s1[order[k]] == s0[order[k]].(prev := k + 1)
    requires forall j :: 0 <= j < |s0| && j !in order ==> s1[j] == s0[j]
    ensures Ranked(s1, Values(s0, order), order, poison) && Settled(s1, 1) && s1[0] == s0[0]
  {
    forall j | 0 < j < |s1| && !s1[j].isFree
      ensures 0 < s1[j].prev <= |order| && order[s1[j].prev - 1] == j
    {
      InUseIsActive(s0, poison, free, order, fo, j);
      var k := IndexOf(order, j);
      assert s1[order[k]].prev == k + 1;
    }
    forall j | 0 < j < |s1| && s1[j].isFree
      ensures s1[j].value == poison
    {
      InUseIsActive(s0, poison, free, order, fo, j);
      ChainsDisjoint(s0, poison, free, order, fo, j);
    }
  }

  /** Slot x as seen after slots a and b exchange their contents. */
  function Transposed(x: nat, a: nat, b: nat): (y: nat)
    ensures (x == a <==> y == b) && (x == b <==> y == a)
  {
    if x == a then b else if x == b then a else x
  }

  /** Exchanging two slots keeps the invariant once the position table follows the exchange. */
  lemma SwapRanked<T>(s: seq<Node<T>>, vals: seq<T>, pos: seq<nat>, pos': seq<nat>, poison: T, a: nat, b: nat)
    requires Ranked(s, vals, pos, poison) && 0 < a < |s| && 0 < b < |s|
    requires |pos'| == |pos| && forall k {:trigger pos'[k]} :: 0 <= k < |pos| ==> pos'[k] == Transposed(pos[k], a, b)
    ensures Ranked(Swapped(s, a, b), vals, pos', poison)
  {
    var s' := Swapped(s, a, b);
    SwapRanksFollow(s, vals, pos, pos', poison, a, b);
    SwapSlotsFollow(s, vals, pos, pos', poison, a, b);
    RankedIntro(s', vals, pos', poison);
  }

  /** After the exchange each rank's slot, as the new table gives it, holds what it held before. */
  lemma SwapRanksFollow<T>(s: seq<Node<T>>, vals: seq<T>, pos: seq<nat>, pos': seq<nat>, poison: T, a: nat, b: nat)
    requires Ranked(s, vals, pos, poison) && 0 < a < |s| && 0 < b < |s|
    requires |pos'| == |pos| && forall k {:trigger pos'[k]} :: 0 <= k < |pos| ==> pos'[k] == Transposed(pos[k], a, b)
    ensures forall k {:trigger pos'[k]} :: 0 <= k < |pos'| ==> 0 < pos'[k] < |s| && Swapped(s, a, b)[pos'[k]] == s[pos[k]]
  {
    var s' := Swapped(s, a, b);
    forall k | 0 <= k < |pos'|
      ensures 0 < pos'[k] < |s'| && s'[pos'[k]] == s[pos[k]]
    {
      assert s'[Transposed(pos[k], a, b)] == s[pos[k]];
    }
  }

  /** After the exchange each slot in use is where the new table puts its rank. */
  lemma SwapSlotsFollow<T>(s: seq<Node<T>>, vals: seq<T>, pos: seq<nat>, pos': seq<nat>, poison: T, a: nat, b: nat)
    requires Ranked(s, vals, pos, poison) && 0 < a < |s| && 0 < b < |s|
    requires |pos'| == |pos| && forall k {:trigger pos'[k]} :: 0 <= k < |pos| ==> pos'[k] == Transposed(pos[k], a, b)
    ensures var s' := Swapped(s, a, b);
      forall j {:trigger s'[j]} :: 0 < j < |s'| ==>
        (!s'[j].isFree ==> 0 < s'[j].prev <= |pos'| && pos'[s'[j].prev - 1] == j) &&
        (s'[j].isFree ==> s'[j].value == poison)
  {
    var s' := Swapped(s, a, b);
    forall j | 0 < j < |s'|
      ensures !s'[j].isFree ==> 0 < s'[j].prev <= |pos'| && pos'[s'[j].prev - 1] == j
      ensures s'[j].isFree ==> s'[j].value == poison
    {
      var x := Transposed(j, a, b);
      assert s'[j] == s[x] && 0 < x;
    }
  }

  /** The invariant from its parts. */
  lemma RankedIntro<T>(s: seq<Node<T>>, vals: seq<T>, pos: seq<nat>, poison: T)
    requires |pos| == |vals| && |pos| < |s|
    requires forall k :: 0 <= k < |pos| ==> 0 < pos[k] < |s|
    requires forall k {:trigger s[pos[k]]} :: 0 <= k < |pos| ==> !s[pos[k]].isFree && s[pos[k]].value == vals[k] && s[pos[k]].prev == k + 1
    requires forall j :: 0 < j < |s| && !s[j].isFree ==> 0 < s[j].prev <= |pos| && pos[s[j].prev - 1] == j
    requires forall j :: 0 < j < |s| && s[j].isFree ==> s[j].value == poison
    ensures Ranked(s, vals, pos, poison)
  {
  }

  /** The table `Reranked` builds is the old one with slot i and the slot of its rank exchanged. */
  lemma RerankedTransposes<T>(s: seq<Node<T>>, vals: seq<T>, pos: seq<nat>, poison: T, i: nat)
    requires Ranked(s, vals, pos, poison) && 0 < i < |s| && !s[i].isFree
    ensures 0 < s[i].prev <= |pos| && s[i].prev < |s| && pos[s[i].prev - 1] == i
    ensures !s[s[i].prev].isFree ==> 0 < s[s[i].prev].prev <= |pos|
    ensures |Reranked(s, pos, i)| == |pos|
    ensures forall k :: 0 <= k < |pos| ==> Reranked(s, pos, i)[k] == Transposed(pos[k], i, s[i].prev)
  {
    var r := s[i].prev;
    var pos' := Reranked(s, pos, i);
    forall k | 0 <= k < |pos|
      ensures pos'[k] == Transposed(pos[k], i, r)
    {
      assert s[pos[k]].prev == k + 1;
    }
  }

  /** The slot of the rank of slot i lies past the settled prefix unless it is free. */
  lemma RankSlotAhead<T>(s: seq<Node<T>>, vals: seq<T>, pos: seq<nat>, poison: T, i: nat)
    requires Ranked(s, vals, pos, poison) && Settled(s, i)
    requires 0 < i < |s| && !s[i].isFree && s[i].prev != i
    ensures s[i].prev < |s| && (s[i].prev > i || s[s[i].prev].isFree)
  {
    var r := s[i].prev;
    assert pos[r - 1] == i;
    assert s[r].isFree || s[r].prev != r;
  }

  /** One swap of the inner loop: the element at slot i goes to the slot of its rank, where it
      stays, so the invariant and the settled prefix are kept and one more rank is settled. */
  lemma SwapStep<T>(s: seq<Node<T>>, vals: seq<T>, pos: seq<nat>, poison: T, i: nat)
    requires Ranked(s, vals, pos, poison) && Settled(s, i)
    requires 0 < i < |s| && !s[i].isFree && s[i].prev != i
    ensures 0 < s[i].prev <= |pos| && s[i].prev < |s|
    ensures !s[s[i].prev].isFree ==> 0 < s[s[i].prev].prev <= |pos|
    ensures Ranked(Swapped(s, i, s[i].prev), vals, Reranked(s, pos, i), poison)
    ensures Settled(Swapped(s, i, s[i].prev), i) && Swapped(s, i, s[i].prev)[0] == s[0]
    ensures Unsettled(Reranked(s, pos, i)) < Unsettled(pos)
  {
    var r := s[i].prev;
    RerankedTransposes(s, vals, pos, poison, i);
    var pos' := Reranked(s, pos, i);
    SwapRanked(s, vals, pos, pos', poison, i, r);
    RankSlotAhead(s, vals, pos, poison, i);
    forall k | 0 <= k < |pos| && pos'[k] != k + 1
      ensures pos[k] != k + 1
    {
      assert s[pos[k]].prev == k + 1;
    }
    UnsettledDrops(pos, pos', r - 1);
  }

  /** Settling rank a, while every other rank that was settled stays so, shrinks the unsettled set. */
  lemma UnsettledDrops(pos: seq<nat>, pos': seq<nat>, a: nat)
    requires |pos'| == |pos| && a < |pos| && pos[a] != a + 1 && pos'[a] == a + 1
    requires forall k :: 0 <= k < |pos| && pos'[k] != k + 1 ==> pos[k] != k + 1
    ensures Unsettled(pos') < Unsettled(pos)
  {
    assert a in Unsettled(pos) - Unsettled(pos');
  }

  /** When every slot is settled, the element of rank r sits at slot r and the rest are free. */
  lemma RankedPlaced<T>(s: seq<Node<T>>, vals: seq<T>, pos: seq<nat>, poison: T)
    requires Ranked(s, vals, pos, poison) && Settled(s, |s|)
    ensures Placed(s, vals, poison)
  {
    forall r | 0 <= r < |pos|
      ensures pos[r] == r + 1
    {
      assert s[pos[r]].prev == r + 1;
    }
    forall r | 1 <= r <= |vals|
      ensures !s[r].isFree && s[r].value == vals[r - 1]
    {
      assert pos[r - 1] == r;
    }
    forall j | |vals| < j < |s|
      ensures s[j].isFree
    {
      assert forall k :: 0 <= k < |pos| ==> pos[k] != j;
    }
  }

  /** The head of the active chain that the final relinking should write into the sentinel:
      slot 1 when there is an element, 0 when the list is empty. */
  function FirstSlot(n: nat): (first: nat)
    ensures first == Ahead(Iota(1, n + 1), 0)
  {
    if n == 0 then 0 else 1
  }

  /** The relinking loop of `linearize`: the sentinel points at `first` and at slot n; free
      slots are chained in index order; slots in use are chained 1..n. */
  function Relinked<T>(s: seq<Node<T>>, n: nat, first: nat): (r: seq<Node<T>>)
    requires |s| > 0
    ensures |r| == |s|
  {
    seq(|s|, j requires 0 <= j < |s| =>
      if j == 0 then s[0].(next := first, prev := n)
      else if s[j].isFree then s[j].(next := (j + 1) % |s|, prev := 0)
      else s[j].(next := (j + 1) % (n + 1), prev := j - 1))
  }

  /** After relinking, slots 1..n form the active chain in index order. */
  lemma RelinkedActive<T>(s: seq<Node<T>>, vals: seq<T>, poison: T)
    requires Placed(s, vals, poison) && |vals| + 2 <= |s|
    ensures InSlots(Iota(1, |vals| + 1), |s|) && Distinct(Iota(1, |vals| + 1))
    ensures ActiveLinks(Relinked(s, |vals|, FirstSlot(|vals|)), Iota(1, |vals| + 1))
  {
    var s', order := Relinked(s, |vals|, FirstSlot(|vals|)), Iota(1, |vals| + 1);
    forall k | 0 <= k < |order|
      ensures s'[order[k]].next == Ahead(order, k + 1) && s'[order[k]].prev == Behind(order, k) && !s'[order[k]].isFree
    {
      RelinkedActiveAt(s, vals, poison, k);
    }
    IncreasingDistinct(order);
  }

  /** The element of rank k+1 after relinking links to its neighbours in index order. */
  lemma RelinkedActiveAt<T>(s: seq<Node<T>>, vals: seq<T>, poison: T, k: nat)
    requires Placed(s, vals, poison) && |vals| + 2 <= |s| && k < |vals|
    ensures var s', order := Relinked(s, |vals|, FirstSlot(|vals|)), Iota(1, |vals| + 1);
      s'[k + 1].next == Ahead(order, k + 1) && s'[k + 1].prev == Behind(order, k) && !s'[k + 1].isFree
  {
    var n := |vals|;
    var order := Iota(1, n + 1);
    ModWrap(k + 2, n + 1);
    assert !s[k + 1].isFree;
    if k + 1 < n { assert order[k + 1] == k + 2; }
    if k > 0 { assert order[k - 1] == k; }
  }

  /** Relinking changes no value, so slots 1..n still hold the values in rank order. */
  lemma RelinkedValues<T>(s: seq<Node<T>>, vals: seq<T>, poison: T)
    requires Placed(s, vals, poison) && |vals| + 2 <= |s|
    ensures Values(Relinked(s, |vals|, FirstSlot(|vals|)), Iota(1, |vals| + 1)) == vals
  {
    var s', order := Relinked(s, |vals|, FirstSlot(|vals|)), Iota(1, |vals| + 1);
    forall k | 0 <= k < |vals|
      ensures Values(s', order)[k] == vals[k]
    {
      assert s'[k + 1].value == s[k + 1].value;
    }
  }

  /** Relinking keeps which slots are in use: slots 1..n are in use and slot n + 1 is free. */
  lemma RelinkedInUse<T>(s: seq<Node<T>>, vals: seq<T>, poison: T)
    requires Placed(s, vals, poison) && |vals| + 2 <= |s|
    ensures Relinked(s, |vals|, FirstSlot(|vals|))[|vals| + 1].isFree
    ensures forall j :: 1 <= j <= |vals| ==> !Relinked(s, |vals|, FirstSlot(|vals|))[j].isFree
  {
  }

  /** After relinking, the free slot n+1+k links to the next free slot, or to 0 after the last. */
  lemma RelinkedFreeAt<T>(s: seq<Node<T>>, vals: seq<T>, poison: T, k: nat)
    requires Placed(s, vals, poison) && |vals| + 2 <= |s| && k < |s| - |vals| - 1
    ensures Relinked(s, |vals|, FirstSlot(|vals|))[|vals| + 1 + k]
      == Node(poison, Ahead(Iota(|vals| + 1, |s|), k + 1), 0, true)
  {
    var n := |vals|;
    var fo := Iota(n + 1, |s|);
    assert s[n + 1 + k].isFree && s[n + 1 + k].value == poison;
    ModWrap(n + 2 + k, |s|);
    if k + 1 < |fo| {
      assert fo[k + 1] == n + 2 + k;
    }
  }

  /** After relinking, slots n+1..capacity-1 form the free chain in index order. */
  lemma RelinkedFree<T>(s: seq<Node<T>>, vals: seq<T>, poison: T)
    requires Placed(s, vals, poison) && |vals| + 2 <= |s|
    ensures InSlots(Iota(|vals| + 1, |s|), |s|) && Distinct(Iota(|vals| + 1, |s|))
    ensures FreeLinks(Relinked(s, |vals|, FirstSlot(|vals|)), poison, Iota(|vals| + 1, |s|))
  {
    var n := |vals|;
    var s' := Relinked(s, n, FirstSlot(n));
    var fo := Iota(n + 1, |s|);
    forall k | 0 <= k < |fo|
      ensures s'[fo[k]] == Node(poison, Ahead(fo, k + 1), 0, true)
    {
      RelinkedFreeAt(s, vals, poison, k);
    }
    IncreasingDistinct(fo);
  }

  /** Relinking a placed array gives the linear layout: elements at slots 1..n in rank order,
      free chain n+1, ..., capacity-1, headed by n+1; the values are unchanged. */
  lemma RelinkedLayout<T>(s: seq<Node<T>>, vals: seq<T>, poison: T)
    requires Placed(s, vals, poison) && |vals| + 2 <= |s| && s[0].value == poison && !s[0].isFree
    ensures Layout(Relinked(s, |vals|, FirstSlot(|vals|)), poison, |vals| + 1, Iota(1, |vals| + 1), Iota(|vals| + 1, |s|))
    ensures Values(Relinked(s, |vals|, FirstSlot(|vals|)), Iota(1, |vals| + 1)) == vals
  {
    var n := |vals|;
    var s' := Relinked(s, n, FirstSlot(n));
    var order, fo := Iota(1, n + 1), Iota(n + 1, |s|);
    RelinkedActive(s, vals, poison);
    RelinkedFree(s, vals, poison);
    RelinkedValues(s, vals, poison);
    forall i | 0 < i < |s|
      ensures i in order || i in fo
    {
      if i <= n { assert order[i - 1] == i; } else { assert fo[i - n - 1] == i; }
    }
    if n > 0 { assert order[n - 1] == n; }
    LayoutIntro(s', poison, n + 1, order, fo);
  }
}
