/** Slots of the compact list and the representation invariant that ties the
    slot array to the logical list (the consistency `list_check` means to verify). */
module Slots {

  /** One cell of the backing array: a payload, the two neighbour indices and the free flag. */
  datatype Node<T> = Node(value: T, next: nat, prev: nat, isFree: bool)

  datatype Option<T> = None | Some(value: T)

  /** Capacity of a new list, and the factor by which it grows. */
  const DefaultCapacity: nat := 16
  const Growth: nat := 2

  /** The index at position `p` of a chain, or 0 (the sentinel) past its end. */
  function Ahead(xs: seq<nat>, p: nat): (x: nat)
  {
    if p < |xs| then xs[p] else 0
  }

  /** The index just before position `p` of a chain, or 0 (the sentinel) before its start. */
  function Behind(xs: seq<nat>, p: nat): (x: nat)
  {
    if 0 < p <= |xs| then xs[p - 1] else 0
  }

  /** The indices lo, lo+1, ..., hi-1. */
  function Iota(lo: nat, hi: nat): (r: seq<nat>)
    ensures |r| == if lo <= hi then hi - lo else 0
    ensures forall k :: 0 <= k < |r| ==> r[k] == lo + k
  {
    if lo < hi then seq(hi - lo, k => lo + k) else []
  }

  /** The successor index modulo m wraps to 0 only at m. */
  lemma ModWrap(a: nat, m: nat)
    requires 0 < a <= m
    ensures a % m == if a == m then 0 else a
  {
  }

  /** Position of `x` in `xs` (the first one). */
  function IndexOf(xs: seq<nat>, x: nat): (k: nat)
    requires x in xs
    ensures k < |xs| && xs[k] == x
  {
    if xs[0] == x then 0 else 1 + IndexOf(xs[1..], x)
  }

  ghost predicate Distinct(xs: seq<nat>)
  {
    forall i, j :: 0 <= i < |xs| && 0 <= j < |xs| && i != j ==> xs[i] != xs[j]
  }

  /** Every index of the chain names a non-sentinel slot of an array of `n` slots. */
  ghost predicate InSlots(xs: seq<nat>, n: nat)
  {
    forall k :: 0 <= k < |xs| ==> 0 < xs[k] < n
  }

  /** Physical order follows logical order: the k-th element sits k slots after the first. */
  ghost predicate Contiguous(xs: seq<nat>)
  {
    forall k :: 0 <= k < |xs| ==> xs[k] == xs[0] + k
  }

  /** The active chain: each element is in use and links to its logical neighbours. */
  ghost predicate ActiveLinks<T>(s: seq<Node<T>>, order: seq<nat>)
    requires InSlots(order, |s|)
  {
    forall k {:trigger s[order[k]]} :: 0 <= k < |order| ==>
      s[order[k]].next == Ahead(order, k + 1) && s[order[k]].prev == Behind(order, k) && !s[order[k]].isFree
  }

  /** The free chain: each element is free, poisoned, has `prev` 0 and links to the next free slot. */
  ghost predicate FreeLinks<T>(s: seq<Node<T>>, poison: T, fo: seq<nat>)
    requires InSlots(fo, |s|)
  {
    forall k {:trigger s[fo[k]]} :: 0 <= k < |fo| ==> s[fo[k]] == Node(poison, Ahead(fo, k + 1), 0, true)
  }

  /** Every non-sentinel slot is on one of the two chains. */
  ghost predicate Covered(n: nat, order: seq<nat>, fo: seq<nat>)
  {
    forall i :: 0 < i < n ==> i in order || i in fo
  }

  /** The slot array `s` holds the active chain `order` (logical order) and the free chain `fo`
      (allocation order) headed by `free`; slot 0 is the sentinel holding both ends of `order`. */
  ghost predicate Layout<T>(s: seq<Node<T>>, poison: T, free: nat, order: seq<nat>, fo: seq<nat>)
  {
    |s| > 0 && InSlots(order, |s|) && InSlots(fo, |s|) && Distinct(order) && Distinct(fo) &&
    |order| + |fo| + 1 == |s| &&
    s[0] == Node(poison, Ahead(order, 0), Behind(order, |order|), false) &&
    free == Ahead(fo, 0) &&
    ActiveLinks(s, order) && FreeLinks(s, poison, fo) && Covered(|s|, order, fo)
  }

  /** Layout from its parts, for callers that established them one by one. */
  lemma LayoutIntro<T>(s: seq<Node<T>>, poison: T, free: nat, order: seq<nat>, fo: seq<nat>)
    requires |s| > 0 && InSlots(order, |s|) && InSlots(fo, |s|) && Distinct(order) && Distinct(fo)
    requires |order| + |fo| + 1 == |s|
    requires s[0] == Node(poison, Ahead(order, 0), Behind(order, |order|), false)
    requires free == Ahead(fo, 0)
    requires ActiveLinks(s, order) && FreeLinks(s, poison, fo) && Covered(|s|, order, fo)
    ensures Layout(s, poison, free, order, fo)
  {
  }

  /** The payloads of the active chain, in logical order. */
  function Values<T>(s: seq<Node<T>>, order: seq<nat>): (r: seq<T>)
    requires forall k :: 0 <= k < |order| ==> order[k] < |s|
    ensures |r| == |order|
    ensures forall k {:trigger r[k]} :: 0 <= k < |order| ==> r[k] == s[order[k]].value
  {
    seq(|order|, k requires 0 <= k < |order| => s[order[k]].value)
  }

  /** A slot on the active chain is not on the free chain, and the reverse. */
  lemma ChainsDisjoint<T>(s: seq<Node<T>>, poison: T, free: nat, order: seq<nat>, fo: seq<nat>, i: nat)
    requires Layout(s, poison, free, order, fo)
    ensures i in order ==> i !in fo && !s[i].isFree
    ensures i in fo ==> i !in order && s[i] == Node(poison, s[i].next, 0, true)
  {
    if i in order {
      var k := IndexOf(order, i);
      assert !s[order[k]].isFree;
    }
    if i in fo {
      var k := IndexOf(fo, i);
      assert s[fo[k]].isFree;
    }
  }

  /** In a valid layout, a slot in use is exactly a slot on the active chain. */
  lemma {:induction false} InUseIsActive<T>(s: seq<Node<T>>, poison: T, free: nat, order: seq<nat>, fo: seq<nat>, i: nat)
    requires Layout(s, poison, free, order, fo) && 0 < i < |s|
    ensures i in order <==> !s[i].isFree
    ensures i in fo <==> s[i].isFree
  {
    ChainsDisjoint(s, poison, free, order, fo, i);
  }

  /** An increasing chain has no repeated index. */
  lemma IncreasingDistinct(xs: seq<nat>)
    requires forall i, j :: 0 <= i < j < |xs| ==> xs[i] < xs[j]
    ensures Distinct(xs)
  {
    forall i, j | 0 <= i < |xs| && 0 <= j < |xs| && i != j
      ensures xs[i] != xs[j]
    {
      if i < j { assert xs[i] < xs[j]; } else { assert xs[j] < xs[i]; }
    }
  }

  /** The elements of a contiguous chain are the indices first..first+|xs|-1. */
  lemma ContiguousMembers(xs: seq<nat>, i: nat)
    requires Contiguous(xs) && xs != []
    ensures i in xs <==> xs[0] <= i < xs[0] + |xs|
  {
    if xs[0] <= i < xs[0] + |xs| {
      assert xs[i - xs[0]] == i;
    }
  }

  /** In a chain without repeats, the position of the k-th index is k. */
  lemma IndexOfUnique(xs: seq<nat>, k: nat)
    requires Distinct(xs) && k < |xs|
    ensures IndexOf(xs, xs[k]) == k
  {
    var j := IndexOf(xs, xs[k]);
    assert xs[j] == xs[k];
  }
}
