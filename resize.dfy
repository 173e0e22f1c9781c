/** What `resize_list` does to the slot array: growing appends a run of free slots,
    shrinking keeps a prefix and chains the free slots left in it. */
module Resizing {
  import opened Slots

  /** The slots lo..hi-1 as `resize_list` (and `list_ctor`) initialise them: poisoned, free,
      each linked to the next index modulo `hi`, so the last one links to 0. */
  function FreeRun<T>(lo: nat, hi: nat, poison: T): (r: seq<Node<T>>)
    requires lo <= hi
    ensures |r| == hi - lo
    ensures forall k :: 0 <= k < |r| ==> r[k].isFree && r[k].value == poison && r[k].prev == 0
  {
    seq(hi - lo, k requires 0 <= k < hi - lo => Node(poison, (lo + k + 1) % hi, 0, true))
  }

  /** Slot lo+k of a run appended after `s` links to the next slot of the run, or to 0 after the last. */
  lemma FreeRunAt<T>(s: seq<Node<T>>, hi: nat, poison: T, k: nat)
    requires 0 < |s| < hi && k < hi - |s|
    ensures (s + FreeRun(|s|, hi, poison))[|s| + k] == Node(poison, Ahead(Iota(|s|, hi), k + 1), 0, true)
  {
    var fo := Iota(|s|, hi);
    assert (s + FreeRun(|s|, hi, poison))[|s| + k] == FreeRun(|s|, hi, poison)[k];
    ModWrap(|s| + k + 1, hi);
    if |s| + k + 1 < hi {
      assert fo[k + 1] == |s| + k + 1;
    }
  }

  /** A run appended after `s` is a free chain in index order ending at 0. */
  lemma FreeRunLinks<T>(s: seq<Node<T>>, hi: nat, poison: T)
    requires 0 < |s| < hi
    ensures InSlots(Iota(|s|, hi), hi)
    ensures FreeLinks(s + FreeRun(|s|, hi, poison), poison, Iota(|s|, hi))
  {
    var s', fo := s + FreeRun(|s|, hi, poison), Iota(|s|, hi);
    forall k | 0 <= k < |fo|
      ensures s'[fo[k]] == Node(poison, Ahead(fo, k + 1), 0, true)
    {
      FreeRunAt(s, hi, poison, k);
    }
  }

  /** Growing a full array by a run of free slots keeps the active chain and makes the
      run, in index order, the new free chain headed by the old capacity. */
  lemma GrownLayout<T>(s: seq<Node<T>>, poison: T, order: seq<nat>, hi: nat)
    requires Layout(s, poison, 0, order, []) && |s| < hi
    ensures Layout(s + FreeRun(|s|, hi, poison), poison, |s|, order, Iota(|s|, hi))
    ensures Values(s + FreeRun(|s|, hi, poison), order) == Values(s, order)
  {
    var s' := s + FreeRun(|s|, hi, poison);
    var fo := Iota(|s|, hi);
    FreeRunLinks(s, hi, poison);
    forall i, j | 0 <= i < |fo| && 0 <= j < |fo| && i != j
      ensures fo[i] != fo[j]
    {
    }
    forall i | 0 < i < hi
      ensures i in order || i in fo
    {
      if i >= |s| { assert fo[i - |s|] == i; }
    }
    forall k | 0 <= k < |order|
      ensures s'[order[k]] == s[order[k]]
    {
    }
    LayoutIntro(s', poison, |s|, order, fo);
  }

  /** The free slots among lo..t-1, in index order. */
  function FreeFrom<T>(s: seq<Node<T>>, lo: nat, t: nat): (r: seq<nat>)
    requires t <= |s|
    decreases t - lo
  {
    if lo >= t then []
    else if s[lo].isFree then [lo] + FreeFrom(s, lo + 1, t)
    else FreeFrom(s, lo + 1, t)
  }

  /** The rebuilt chain holds only free slots of lo..t-1. */
  lemma {:induction false} FreeFromBounds<T>(s: seq<Node<T>>, lo: nat, t: nat)
    requires t <= |s|
    ensures forall k :: 0 <= k < |FreeFrom(s, lo, t)| ==>
      lo <= FreeFrom(s, lo, t)[k] < t && s[FreeFrom(s, lo, t)[k]].isFree
    decreases t - lo
  {
    if lo < t {
      FreeFromBounds(s, lo + 1, t);
    }
  }

  /** The rebuilt chain names no slot twice. */
  lemma {:induction false} FreeFromDistinct<T>(s: seq<Node<T>>, lo: nat, t: nat)
    requires t <= |s|
    ensures Distinct(FreeFrom(s, lo, t))
    decreases t - lo
  {
    if lo < t {
      var g := FreeFrom(s, lo + 1, t);
      FreeFromDistinct(s, lo + 1, t);
      FreeFromBounds(s, lo + 1, t);
      if s[lo].isFree {
        var r := [lo] + g;
        forall i, j | 0 <= i < |r| && 0 <= j < |r| && i != j
          ensures r[i] != r[j]
        {
          if i > 0 && j > 0 { assert r[i] == g[i - 1] && r[j] == g[j - 1]; }
        }
      }
    }
  }

  /** Every free slot of lo..t-1 is on the rebuilt chain. */
  lemma {:induction false} FreeFromMembers<T>(s: seq<Node<T>>, lo: nat, t: nat, i: nat)
    requires t <= |s| && lo <= i < t && s[i].isFree
    ensures i in FreeFrom(s, lo, t)
    decreases i - lo
  {
    if lo < i {
      FreeFromMembers(s, lo + 1, t, i);
    }
  }

  /** The slot after the k-th free slot on the rebuilt chain heads the chain rebuilt from just after it. */
  lemma {:induction false} FreeFromNext<T>(s: seq<Node<T>>, lo: nat, t: nat, k: nat)
    requires t <= |s| && k < |FreeFrom(s, lo, t)|
    ensures Ahead(FreeFrom(s, lo, t), k + 1) == Ahead(FreeFrom(s, FreeFrom(s, lo, t)[k] + 1, t), 0)
    decreases t - lo
  {
    var g := FreeFrom(s, lo + 1, t);
    if !s[lo].isFree {
      FreeFromNext(s, lo + 1, t, k);
    } else if k > 0 {
      FreeFromNext(s, lo + 1, t, k - 1);
      AheadCons(lo, g, k - 1);
    } else {
      AheadCons(lo, g, 0);
    }
  }

  /** Past the head, a chain with a slot put in front reads as the original one. */
  lemma AheadCons(x: nat, g: seq<nat>, p: nat)
    ensures Ahead([x] + g, p + 1) == Ahead(g, p) && ([x] + g)[0] == x
    ensures p < |g| ==> ([x] + g)[p + 1] == g[p]
  {
  }

  /** With the in-use slots exactly b..e-1, lo..t-1 holds (t - lo) minus the in-use ones free slots. */
  lemma {:induction false} FreeFromLength<T>(s: seq<Node<T>>, lo: nat, t: nat, b: nat, e: nat)
    requires t <= |s| && lo <= t && b <= e <= t
    requires forall j :: lo <= j < t ==> (s[j].isFree <==> !(b <= j < e))
    ensures |FreeFrom(s, lo, t)| == (t - lo) - (if lo <= b then e - b else if lo <= e then e - lo else 0)
    decreases t - lo
  {
    if lo < t {
      FreeFromLength(s, lo + 1, t, b, e);
    }
  }

  /** When lo..m-1 are in use and m is free, the rebuilt chain starts at m. */
  lemma {:induction false} FreeFromHead<T>(s: seq<Node<T>>, lo: nat, m: nat, t: nat)
    requires lo <= m < t <= |s| && s[m].isFree
    requires forall j :: lo <= j < m ==> !s[j].isFree
    ensures FreeFrom(s, lo, t) != [] && FreeFrom(s, lo, t)[0] == m
    decreases m - lo
  {
    if lo < m {
      FreeFromHead(s, lo + 1, m, t);
    }
  }

  /** When slots lo..t-1 are free exactly above `n`, the rebuilt chain is the run of free slots
      from the first of them up to t-1, in index order. */
  lemma {:induction false} FreeFromIota<T>(s: seq<Node<T>>, lo: nat, n: nat, t: nat)
    requires lo <= t <= |s|
    requires forall j :: lo <= j < t ==> (s[j].isFree <==> n < j)
    ensures FreeFrom(s, lo, t) == Iota(if lo <= n then n + 1 else lo, t)
    decreases t - lo
  {
    if lo < t {
      FreeFromIota(s, lo + 1, n, t);
      if n < lo {
        assert Iota(lo, t) == [lo] + Iota(lo + 1, t);
      }
    }
  }

  /** The guard of `try_shrink_list`: only a linear list more than four times larger than it needs
      is shrunk, and never one at the default capacity. */
  predicate ShrinkFires(isLinear: bool, capacity: nat, size: nat): (fires: bool)
    ensures fires ==> isLinear && 7 <= size && DefaultCapacity < (size + 2) * Growth <= capacity / Growth
  {
    isLinear && capacity > DefaultCapacity && (size + 2) * Growth > DefaultCapacity &&
    (size + 2) * Growth * Growth <= capacity
  }

  /** The array `resize_list` should leave when shrinking to `t` slots: the first `t` slots, with
      the free ones among them re-chained in index order. */
  function Shrunk<T>(s: seq<Node<T>>, t: nat, poison: T): (r: seq<Node<T>>)
    requires t <= |s|
    ensures |r| == t
  {
    seq(t, j requires 0 <= j < t =>
      if 0 < j && s[j].isFree then Node(poison, Ahead(FreeFrom(s, j + 1, t), 0), 0, true) else s[j])
  }

  /** The retained slots keep the in-use block, so the rebuilt free chain has the remaining count. */
  lemma ShrunkCount<T>(s: seq<Node<T>>, poison: T, free: nat, order: seq<nat>, fo: seq<nat>, t: nat)
    requires Layout(s, poison, free, order, fo) && Contiguous(order) && order != []
    requires order[0] + |order| <= t <= |s|
    ensures InSlots(order, t) && |order| + |FreeFrom(s, 1, t)| + 1 == t
  {
    var b, e := order[0], order[0] + |order|;
    forall k | 0 <= k < |order| ensures 0 < order[k] < t { assert order[k] == b + k; }
    forall j | 1 <= j < t
      ensures s[j].isFree <==> !(b <= j < e)
    {
      ContiguousMembers(order, j);
      InUseIsActive(s, poison, free, order, fo, j);
    }
    FreeFromLength(s, 1, t, b, e);
  }

  /** In the shrunk array the in-use slots are untouched, so the active chain and its values survive. */
  lemma ShrunkActive<T>(s: seq<Node<T>>, poison: T, free: nat, order: seq<nat>, fo: seq<nat>, t: nat)
    requires Layout(s, poison, free, order, fo) && InSlots(order, t) && 0 < t <= |s|
    ensures ActiveLinks(Shrunk(s, t, poison), order) && Shrunk(s, t, poison)[0] == s[0]
    ensures Values(Shrunk(s, t, poison), order) == Values(s, order)
  {
    var s' := Shrunk(s, t, poison);
    forall k | 0 <= k < |order|
      ensures s'[order[k]] == s[order[k]]
    {
      ChainsDisjoint(s, poison, free, order, fo, order[k]);
    }
  }

  /** The free slots retained below `t` form the free chain of the shrunk array, and every slot
      below `t` is on one of the two chains. */
  lemma ShrunkFree<T>(s: seq<Node<T>>, poison: T, free: nat, order: seq<nat>, fo: seq<nat>, t: nat)
    requires Layout(s, poison, free, order, fo) && 0 < t <= |s|
    ensures InSlots(FreeFrom(s, 1, t), t) && Distinct(FreeFrom(s, 1, t))
    ensures FreeLinks(Shrunk(s, t, poison), poison, FreeFrom(s, 1, t))
    ensures Covered(t, order, FreeFrom(s, 1, t))
  {
    var s', f := Shrunk(s, t, poison), FreeFrom(s, 1, t);
    FreeFromBounds(s, 1, t);
    forall k | 0 <= k < |f|
      ensures s'[f[k]] == Node(poison, Ahead(f, k + 1), 0, true)
    {
      FreeFromNext(s, 1, t, k);
    }
    FreeFromDistinct(s, 1, t);
    forall i | 0 < i < t
      ensures i in order || i in f
    {
      if i !in order {
        InUseIsActive(s, poison, free, order, fo, i);
        FreeFromMembers(s, 1, t, i);
      }
    }
  }

  /** Shrinking a list whose in-use slots form one block below `t` keeps the active chain and
      its values, and the retained free slots form the free chain, with no link past `t`. */
  lemma ShrunkLayout<T>(s: seq<Node<T>>, poison: T, free: nat, order: seq<nat>, fo: seq<nat>, t: nat)
    requires Layout(s, poison, free, order, fo) && Contiguous(order) && order != []
    requires order[0] + |order| <= t <= |s|
    ensures Layout(Shrunk(s, t, poison), poison, Ahead(FreeFrom(s, 1, t), 0), order, FreeFrom(s, 1, t))
    ensures Values(Shrunk(s, t, poison), order) == Values(s, order)
  {
    ShrunkCount(s, poison, free, order, fo, t);
    ShrunkActive(s, poison, free, order, fo, t);
    ShrunkFree(s, poison, free, order, fo, t);
    LayoutIntro(Shrunk(s, t, poison), poison, Ahead(FreeFrom(s, 1, t), 0), order, FreeFrom(s, 1, t));
  }

  /** The capacity `try_shrink_list` should aim for: twice the room the elements need, but never
      so small that it cuts off an element of the contiguous block starting at `begin`. */
  function ShrinkTarget(size: nat, begin: nat): (t: nat)
    ensures t >= (size + 2) * Growth && t > begin + size
    ensures t == (size + 2) * Growth || t == begin + size + 1
  {
    if begin + size + 1 > (size + 2) * Growth then begin + size + 1 else (size + 2) * Growth
  }
}
