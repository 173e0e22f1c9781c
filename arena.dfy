/** The slot-level effect of inserting and erasing one element, and what it does to the
    two chains (the writes of insert_after, insert_before and erase_element). */
module Arena {
  import opened Slots

  /** Slot `added` takes payload `v` and is spliced between `prv` and `nxt`. */
  function Link<T>(s: seq<Node<T>>, added: nat, prv: nat, nxt: nat, v: T): (r: seq<Node<T>>)
    requires added < |s| && prv < |s| && nxt < |s|
    ensures |r| == |s|
  {
    var s1 := s[added := Node(v, nxt, prv, false)];
    var s2 := s1[prv := s1[prv].(next := added)];
    s2[nxt := s2[nxt].(prev := added)]
  }

  /** The neighbours of slot `it` are linked to each other and `it` is poisoned and pushed on the free chain. */
  function Unlink<T>(s: seq<Node<T>>, it: nat, prv: nat, nxt: nat, free: nat, poison: T): (r: seq<Node<T>>)
    requires it < |s| && prv < |s| && nxt < |s|
    ensures |r| == |s|
  {
    var s1 := s[prv := s[prv].(next := nxt)];
    var s2 := s1[nxt := s1[nxt].(prev := prv)];
    s2[it := Node(poison, free, 0, true)]
  }

  /** The chain with `a` inserted at position `p`. */
  function InsertAt<X>(order: seq<X>, p: nat, a: X): (r: seq<X>)
    requires p <= |order|
    ensures |r| == |order| + 1 && r[p] == a
    ensures forall k {:trigger r[k]} :: 0 <= k < p ==> r[k] == order[k]
    ensures forall k :: p < k < |r| ==> r[k] == order[k - 1]
  {
    seq(|order| + 1, k requires 0 <= k <= |order| => if k < p then order[k] else if k == p then a else order[k - 1])
  }

  /** Inserting at either end is prepending or appending. */
  lemma InsertAtEnds<X>(xs: seq<X>, a: X)
    ensures InsertAt(xs, 0, a) == [a] + xs && InsertAt(xs, |xs|, a) == xs + [a]
  {
    assert InsertAt(xs, 0, a) == [a] + xs;
    assert InsertAt(xs, |xs|, a) == xs + [a];
  }

  /** The chain with position `p` removed. */
  function RemoveAt<X>(order: seq<X>, p: nat): (r: seq<X>)
    requires p < |order|
    ensures |r| == |order| - 1
    ensures forall k {:trigger r[k]} :: 0 <= k < p ==> r[k] == order[k]
    ensures forall k :: p <= k < |r| ==> r[k] == order[k + 1]
  {
    seq(|order| - 1, k requires 0 <= k < |order| - 1 => if k < p then order[k] else order[k + 1])
  }

  /** Removing at either end drops the first or the last item. */
  lemma RemoveAtEnds<X>(xs: seq<X>)
    requires xs != []
    ensures RemoveAt(xs, 0) == xs[1..] && RemoveAt(xs, |xs| - 1) == xs[..|xs| - 1]
  {
    assert RemoveAt(xs, 0) == xs[1..];
    assert RemoveAt(xs, |xs| - 1) == xs[..|xs| - 1];
  }

  lemma InsertAtMembers(order: seq<nat>, p: nat, a: nat, i: nat)
    requires p <= |order|
    ensures i in InsertAt(order, p, a) <==> i == a || i in order
  {
    var r := InsertAt(order, p, a);
    if i in order {
      var k := IndexOf(order, i);
      if k < p { assert r[k] == i; } else { assert r[k + 1] == i; }
    }
    if i in r {
      var k := IndexOf(r, i);
      if k < p { assert order[k] == i; } else if k > p { assert order[k - 1] == i; }
    }
  }

  lemma RemoveAtMembers(order: seq<nat>, p: nat, i: nat)
    requires p < |order| && Distinct(order)
    ensures i in RemoveAt(order, p) <==> i != order[p] && i in order
  {
    var r := RemoveAt(order, p);
    if i in order && i != order[p] {
      var k := IndexOf(order, i);
      if k < p { assert r[k] == i; } else { assert r[k - 1] == i; }
    }
    if i in r {
      var k := IndexOf(r, i);
      if k < p { assert order[k] == i; } else { assert order[k + 1] == i; }
    }
  }

  /** What Link writes: the added slot, the two neighbours, and nothing else. */
  lemma LinkSlots<T>(s: seq<Node<T>>, a: nat, prv: nat, nxt: nat, v: T, j: nat)
    requires a < |s| && prv < |s| && nxt < |s| && j < |s| && a != prv && a != nxt
    ensures Link(s, a, prv, nxt, v)[j] ==
      if j == a then Node(v, nxt, prv, false)
      else if j == prv && j == nxt then s[j].(next := a, prev := a)
      else if j == prv then s[j].(next := a)
      else if j == nxt then s[j].(prev := a)
      else s[j]
  {
  }

  /** The active chain after a splice at position `p`, element by element. */
  lemma LinkActive<T>(s: seq<Node<T>>, order: seq<nat>, p: nat, a: nat, v: T)
    requires InSlots(order, |s|) && Distinct(order) && ActiveLinks(s, order)
    requires 0 < a < |s| && a !in order && p <= |order|
    ensures InSlots(InsertAt(order, p, a), |s|)
    ensures ActiveLinks(Link(s, a, Behind(order, p), Ahead(order, p), v), InsertAt(order, p, a))
  {
    var prv, nxt := Behind(order, p), Ahead(order, p);
    var s' := Link(s, a, prv, nxt, v);
    var o' := InsertAt(order, p, a);
    assert prv != a && nxt != a by {
      if p > 0 { assert order[p - 1] in order; }
      if p < |order| { assert order[p] in order; }
    }
    forall k | 0 <= k < |o'|
      ensures s'[o'[k]].next == Ahead(o', k + 1) && s'[o'[k]].prev == Behind(o', k) && !s'[o'[k]].isFree
    {
      LinkSlots(s, a, prv, nxt, v, o'[k]);
      if k < p {
        assert o'[k] == order[k] && o'[k] != nxt;
        if k + 1 < p { assert o'[k] != prv; }
      } else if k > p {
        assert o'[k] == order[k - 1] && o'[k] != prv;
        if k - 1 > p { assert o'[k] != nxt; }
      }
    }
  }

  lemma InsertAtDistinct(order: seq<nat>, p: nat, a: nat)
    requires Distinct(order) && a !in order && p <= |order|
    ensures Distinct(InsertAt(order, p, a))
  {
    var o' := InsertAt(order, p, a);
    forall i, j | 0 <= i < |o'| && 0 <= j < |o'| && i != j
      ensures o'[i] != o'[j]
    {
      if i != p && j != p {
        var i0 := if i < p then i else i - 1;
        var j0 := if j < p then j else j - 1;
        assert o'[i] == order[i0] && o'[j] == order[j0];
      } else if i == p {
        assert o'[j] in order;
      } else {
        assert o'[i] in order;
      }
    }
  }

  /** The free chain after a splice loses its head and is otherwise untouched. */
  lemma LinkFree<T>(s: seq<Node<T>>, poison: T, fo: seq<nat>, prv: nat, nxt: nat, v: T)
    requires InSlots(fo, |s|) && Distinct(fo) && FreeLinks(s, poison, fo) && fo != []
    requires prv < |s| && nxt < |s| && prv !in fo && nxt !in fo
    ensures InSlots(fo[1..], |s|) && Distinct(fo[1..])
    ensures FreeLinks(Link(s, fo[0], prv, nxt, v), poison, fo[1..])
  {
    var s' := Link(s, fo[0], prv, nxt, v);
    forall k | 0 <= k < |fo| - 1
      ensures s'[fo[1..][k]] == Node(poison, Ahead(fo[1..], k + 1), 0, true)
    {
      var j := fo[k + 1];
      assert j in fo && j != fo[0];
      LinkSlots(s, fo[0], prv, nxt, v, j);
    }
    forall i, j | 0 <= i < |fo| - 1 && 0 <= j < |fo| - 1 && i != j
      ensures fo[1..][i] != fo[1..][j]
    {
      assert fo[i + 1] != fo[j + 1];
    }
  }

  lemma LinkCovered(n: nat, order: seq<nat>, fo: seq<nat>, p: nat)
    requires Covered(n, order, fo) && fo != [] && p <= |order|
    ensures Covered(n, InsertAt(order, p, fo[0]), fo[1..])
  {
    forall i | 0 < i < n
      ensures i in InsertAt(order, p, fo[0]) || i in fo[1..]
    {
      InsertAtMembers(order, p, fo[0], i);
      if i in fo && i != fo[0] {
        var k := IndexOf(fo, i);
        assert fo[1..][k - 1] == i;
      }
    }
  }

  lemma LinkValues<T>(s: seq<Node<T>>, order: seq<nat>, p: nat, a: nat, v: T)
    requires InSlots(order, |s|) && 0 < a < |s| && a !in order && p <= |order|
    ensures InSlots(InsertAt(order, p, a), |s|)
    ensures Values(Link(s, a, Behind(order, p), Ahead(order, p), v), InsertAt(order, p, a))
            == InsertAt(Values(s, order), p, v)
  {
    var prv, nxt := Behind(order, p), Ahead(order, p);
    assert prv != a && nxt != a by {
      if p > 0 { assert order[p - 1] in order; }
      if p < |order| { assert order[p] in order; }
    }
    var s', o' := Link(s, a, prv, nxt, v), InsertAt(order, p, a);
    forall k | 0 <= k < |o'|
      ensures Values(s', o')[k] == InsertAt(Values(s, order), p, v)[k]
    {
      LinkSlots(s, a, prv, nxt, v, o'[k]);
    }
  }

  /** The sentinel keeps pointing at both ends of the chain after a splice. */
  lemma LinkSentinel<T>(s: seq<Node<T>>, poison: T, order: seq<nat>, p: nat, a: nat, v: T)
    requires InSlots(order, |s|) && 0 < a < |s| && a !in order && p <= |order|
    requires s[0] == Node(poison, Ahead(order, 0), Behind(order, |order|), false)
    ensures Link(s, a, Behind(order, p), Ahead(order, p), v)[0]
            == Node(poison, Ahead(InsertAt(order, p, a), 0), Behind(InsertAt(order, p, a), |order| + 1), false)
  {
    var prv, nxt := Behind(order, p), Ahead(order, p);
    assert prv != a && nxt != a by {
      if p > 0 { assert order[p - 1] in order; }
      if p < |order| { assert order[p] in order; }
    }
    LinkSlots(s, a, prv, nxt, v, 0);
    if order != [] {
      assert 0 != order[0] && 0 != order[|order| - 1];
    }
  }

  /** Insertion takes the head of the free chain, puts it at logical position `p`, and
      leaves a consistent layout. */
  lemma LinkLayout<T>(s: seq<Node<T>>, poison: T, order: seq<nat>, fo: seq<nat>, p: nat, v: T)
    requires Layout(s, poison, Ahead(fo, 0), order, fo)
    requires fo != [] && p <= |order|
    ensures Layout(Link(s, fo[0], Behind(order, p), Ahead(order, p), v), poison, Ahead(fo, 1),
                   InsertAt(order, p, fo[0]), fo[1..])
  {
    var a, prv, nxt := fo[0], Behind(order, p), Ahead(order, p);
    var s', o' := Link(s, a, prv, nxt, v), InsertAt(order, p, a);
    assert InSlots(o', |s|) && ActiveLinks(s', o') by {
      ChainsDisjoint(s, poison, Ahead(fo, 0), order, fo, a);
      LinkActive(s, order, p, a, v);
    }
    assert Distinct(o') by {
      ChainsDisjoint(s, poison, Ahead(fo, 0), order, fo, a);
      InsertAtDistinct(order, p, a);
    }
    assert InSlots(fo[1..], |s|) && Distinct(fo[1..]) && FreeLinks(s', poison, fo[1..]) by {
      if p > 0 { ChainsDisjoint(s, poison, Ahead(fo, 0), order, fo, order[p - 1]); }
      if p < |order| { ChainsDisjoint(s, poison, Ahead(fo, 0), order, fo, order[p]); }
      LinkFree(s, poison, fo, prv, nxt, v);
    }
    assert Covered(|s|, o', fo[1..]) by {
      LinkCovered(|s|, order, fo, p);
    }
    assert s'[0] == Node(poison, Ahead(o', 0), Behind(o', |o'|), false) by {
      ChainsDisjoint(s, poison, Ahead(fo, 0), order, fo, a);
      LinkSentinel(s, poison, order, p, a, v);
    }
    LayoutIntro(s', poison, Ahead(fo, 1), o', fo[1..]);
  }

  /** The value sequence after an insertion at position `p` has `v` at `p`. */
  lemma LinkContents<T>(s: seq<Node<T>>, poison: T, order: seq<nat>, fo: seq<nat>, p: nat, v: T)
    requires Layout(s, poison, Ahead(fo, 0), order, fo)
    requires fo != [] && p <= |order|
    ensures Values(Link(s, fo[0], Behind(order, p), Ahead(order, p), v), InsertAt(order, p, fo[0]))
            == InsertAt(Values(s, order), p, v)
  {
    ChainsDisjoint(s, poison, Ahead(fo, 0), order, fo, fo[0]);
    LinkValues(s, order, p, fo[0], v);
  }

  /** What Unlink writes: the two neighbours, the erased slot, and nothing else. */
  lemma UnlinkSlots<T>(s: seq<Node<T>>, it: nat, prv: nat, nxt: nat, free: nat, poison: T, j: nat)
    requires it < |s| && prv < |s| && nxt < |s| && j < |s|
    ensures Unlink(s, it, prv, nxt, free, poison)[j] ==
      if j == it then Node(poison, free, 0, true)
      else if j == prv && j == nxt then s[j].(next := nxt, prev := prv)
      else if j == prv then s[j].(next := nxt)
      else if j == nxt then s[j].(prev := prv)
      else s[j]
  {
  }

  /** The active chain after erasing position `q`, element by element. */
  lemma UnlinkActive<T>(s: seq<Node<T>>, order: seq<nat>, q: nat, free: nat, poison: T)
    requires InSlots(order, |s|) && Distinct(order) && ActiveLinks(s, order) && q < |order|
    ensures InSlots(RemoveAt(order, q), |s|)
    ensures ActiveLinks(Unlink(s, order[q], Behind(order, q), Ahead(order, q + 1), free, poison), RemoveAt(order, q))
  {
    var it, prv, nxt := order[q], Behind(order, q), Ahead(order, q + 1);
    var s' := Unlink(s, it, prv, nxt, free, poison);
    var o' := RemoveAt(order, q);
    forall k | 0 <= k < |o'|
      ensures 0 < o'[k] < |s|
    {
      if k < q { assert o'[k] == order[k]; } else { assert o'[k] == order[k + 1]; }
    }
    forall k | 0 <= k < |o'|
      ensures s'[o'[k]].next == Ahead(o', k + 1) && s'[o'[k]].prev == Behind(o', k) && !s'[o'[k]].isFree
    {
      UnlinkSlots(s, it, prv, nxt, free, poison, o'[k]);
      if k < q {
        assert o'[k] == order[k] && o'[k] != it;
        if k + 1 < q { assert o'[k] != prv; }
        assert o'[k] != nxt;
      } else {
        assert o'[k] == order[k + 1] && o'[k] != it;
        if k > q { assert o'[k] != nxt; }
        assert o'[k] != prv;
      }
    }
  }

  lemma RemoveAtDistinct(order: seq<nat>, q: nat)
    requires Distinct(order) && q < |order|
    ensures Distinct(RemoveAt(order, q))
  {
    var o' := RemoveAt(order, q);
    forall i, j | 0 <= i < |o'| && 0 <= j < |o'| && i != j
      ensures o'[i] != o'[j]
    {
      var i0 := if i < q then i else i + 1;
      var j0 := if j < q then j else j + 1;
      assert o'[i] == order[i0] && o'[j] == order[j0];
    }
  }

  /** The erased slot becomes the head of the free chain; the rest of the chain is untouched. */
  lemma UnlinkFree<T>(s: seq<Node<T>>, poison: T, fo: seq<nat>, it: nat, prv: nat, nxt: nat)
    requires InSlots(fo, |s|) && Distinct(fo) && FreeLinks(s, poison, fo)
    requires 0 < it < |s| && prv < |s| && nxt < |s| && it !in fo && prv !in fo && nxt !in fo
    ensures InSlots([it] + fo, |s|) && Distinct([it] + fo)
    ensures FreeLinks(Unlink(s, it, prv, nxt, Ahead(fo, 0), poison), poison, [it] + fo)
  {
    var s' := Unlink(s, it, prv, nxt, Ahead(fo, 0), poison);
    var fo' := [it] + fo;
    forall k | 0 <= k < |fo'|
      ensures s'[fo'[k]] == Node(poison, Ahead(fo', k + 1), 0, true)
    {
      if k == 0 {
        UnlinkSlots(s, it, prv, nxt, Ahead(fo, 0), poison, it);
      } else {
        var j := fo[k - 1];
        assert j in fo;
        UnlinkSlots(s, it, prv, nxt, Ahead(fo, 0), poison, j);
      }
    }
    forall i, j | 0 <= i < |fo'| && 0 <= j < |fo'| && i != j
      ensures fo'[i] != fo'[j]
    {
      if i > 0 && j > 0 { assert fo[i - 1] != fo[j - 1]; }
      else if i == 0 { assert fo'[j] in fo; }
      else { assert fo'[i] in fo; }
    }
  }

  lemma UnlinkCovered(n: nat, order: seq<nat>, fo: seq<nat>, q: nat)
    requires Covered(n, order, fo) && Distinct(order) && q < |order|
    ensures Covered(n, RemoveAt(order, q), [order[q]] + fo)
  {
    forall i | 0 < i < n
      ensures i in RemoveAt(order, q) || i in [order[q]] + fo
    {
      RemoveAtMembers(order, q, i);
    }
  }

  lemma UnlinkValues<T>(s: seq<Node<T>>, order: seq<nat>, q: nat, free: nat, poison: T)
    requires InSlots(order, |s|) && Distinct(order) && q < |order|
    ensures InSlots(RemoveAt(order, q), |s|)
    ensures Values(Unlink(s, order[q], Behind(order, q), Ahead(order, q + 1), free, poison), RemoveAt(order, q))
            == RemoveAt(Values(s, order), q)
  {
    var it, prv, nxt := order[q], Behind(order, q), Ahead(order, q + 1);
    var s', o' := Unlink(s, it, prv, nxt, free, poison), RemoveAt(order, q);
    forall k | 0 <= k < |o'|
      ensures 0 < o'[k] < |s|
    {
      if k < q { assert o'[k] == order[k]; } else { assert o'[k] == order[k + 1]; }
    }
    forall k | 0 <= k < |o'|
      ensures Values(s', o')[k] == RemoveAt(Values(s, order), q)[k]
    {
      UnlinkSlots(s, it, prv, nxt, free, poison, o'[k]);
      if k < q { assert o'[k] == order[k] && o'[k] != it; }
      else { assert o'[k] == order[k + 1] && o'[k] != it; }
    }
  }

  /** The sentinel follows the new ends of the chain after an erase. */
  lemma UnlinkSentinel<T>(s: seq<Node<T>>, poison: T, order: seq<nat>, q: nat, free: nat)
    requires |s| > 0 && InSlots(order, |s|) && Distinct(order) && q < |order|
    requires s[0] == Node(poison, Ahead(order, 0), Behind(order, |order|), false)
    ensures Unlink(s, order[q], Behind(order, q), Ahead(order, q + 1), free, poison)[0]
            == Node(poison, Ahead(RemoveAt(order, q), 0), Behind(RemoveAt(order, q), |order| - 1), false)
  {
    var it, prv, nxt := order[q], Behind(order, q), Ahead(order, q + 1);
    UnlinkSlots(s, it, prv, nxt, free, poison, 0);
    var o' := RemoveAt(order, q);
    if q > 0 { assert prv == order[q - 1] != 0; }
    if q + 1 < |order| { assert nxt == order[q + 1] != 0; }
    if o' != [] {
      if q == 0 { assert o'[0] == order[1]; } else { assert o'[0] == order[0]; }
      if q == |order| - 1 { assert o'[|o'| - 1] == order[q - 1]; }
      else { assert o'[|o'| - 1] == order[|order| - 1]; }
    }
  }

  /** Erasing position `q` pushes its slot on the free chain and leaves a consistent layout. */
  lemma UnlinkLayout<T>(s: seq<Node<T>>, poison: T, order: seq<nat>, fo: seq<nat>, q: nat)
    requires Layout(s, poison, Ahead(fo, 0), order, fo)
    requires q < |order|
    ensures Layout(Unlink(s, order[q], Behind(order, q), Ahead(order, q + 1), Ahead(fo, 0), poison), poison,
                   order[q], RemoveAt(order, q), [order[q]] + fo)
  {
    var it, prv, nxt := order[q], Behind(order, q), Ahead(order, q + 1);
    var s', o', fo' := Unlink(s, it, prv, nxt, Ahead(fo, 0), poison), RemoveAt(order, q), [it] + fo;
    assert InSlots(o', |s|) && ActiveLinks(s', o') by {
      UnlinkActive(s, order, q, Ahead(fo, 0), poison);
    }
    assert Distinct(o') by {
      RemoveAtDistinct(order, q);
    }
    assert InSlots(fo', |s|) && Distinct(fo') && FreeLinks(s', poison, fo') by {
      ChainsDisjoint(s, poison, Ahead(fo, 0), order, fo, it);
      if q > 0 { ChainsDisjoint(s, poison, Ahead(fo, 0), order, fo, order[q - 1]); }
      if q + 1 < |order| { ChainsDisjoint(s, poison, Ahead(fo, 0), order, fo, order[q + 1]); }
      UnlinkFree(s, poison, fo, it, prv, nxt);
    }
    assert Covered(|s|, o', fo') by {
      UnlinkCovered(|s|, order, fo, q);
    }
    assert s'[0] == Node(poison, Ahead(o', 0), Behind(o', |o'|), false) by {
      UnlinkSentinel(s, poison, order, q, Ahead(fo, 0));
    }
    LayoutIntro(s', poison, it, o', fo');
  }

  /** The value sequence after erasing position `q` lacks exactly that value. */
  lemma UnlinkContents<T>(s: seq<Node<T>>, poison: T, order: seq<nat>, fo: seq<nat>, q: nat)
    requires Layout(s, poison, Ahead(fo, 0), order, fo)
    requires q < |order|
    ensures Values(Unlink(s, order[q], Behind(order, q), Ahead(order, q + 1), Ahead(fo, 0), poison), RemoveAt(order, q))
            == RemoveAt(Values(s, order), q)
  {
    UnlinkValues(s, order, q, Ahead(fo, 0), poison);
  }

  /** An insertion keeps a contiguous chain contiguous when the new slot sits right after its
      predecessor and right before its successor (the condition `insert_after`/`insert_before`
      test); with the sentinel as a neighbour this only happens in front of a chain starting at 2. */
  lemma LinearInsert(order: seq<nat>, p: nat, a: nat)
    requires Contiguous(order) && p <= |order|
    requires Behind(order, p) + 1 == a && a + 1 == Ahead(order, p)
    ensures p == 0 && a == 1
    ensures Contiguous(InsertAt(order, p, a))
  {
    var r := InsertAt(order, p, a);
    forall k | 0 <= k < |r|
      ensures r[k] == r[0] + k
    {
      if k > 0 { assert r[k] == order[k - 1]; }
    }
  }

  /** Erasing an end of a contiguous chain keeps it contiguous. */
  lemma LinearErase(order: seq<nat>, q: nat)
    requires Contiguous(order) && q < |order| && (q == 0 || q == |order| - 1)
    ensures Contiguous(RemoveAt(order, q))
  {
    var r := RemoveAt(order, q);
    forall k | 0 <= k < |r|
      ensures r[k] == r[0] + k
    {
      if q == 0 { assert r[k] == order[k + 1] && r[0] == order[1]; }
    }
  }
}
