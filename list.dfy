/** The doubly linked list of `lib/kernel/list.c`.

    Every `struct list_elem` lives in an `Arena`: node `n` has its `next`
    and `prev` pointers stored at index `n` of the arena's two link arrays,
    and `NIL` is the null pointer.  A `List` owns two sentinel nodes, its
    `head` and its `tail`, and its ghost `elems` are the interior elements
    in order.  `Valid` ties the two: the link arrays realise the chain
    head, elems..., tail.  Several lists may share one arena as long as
    their chains are disjoint; every mutating operation promises that no
    node outside its own chain (and the element it inserts) changes, so the
    other lists stay valid. */
module Lists {
  import opened Links
  import ListOrder

  /** The storage of all list elements. */
  class Arena {
    const next: array<int>
    const prev: array<int>

    constructor (n: nat)
      ensures next.Length == n && prev.Length == n && next != prev
      ensures fresh(next) && fresh(prev)
    {
      next := new int[n](_ => NIL);
      prev := new int[n](_ => NIL);
    }

    /** `a->next = b; b->prev = a;`: the two assignments that close the gap
        left by a removed element or range. */
    method Join(a: int, b: int)
      requires next != prev && 0 <= a < next.Length && 0 <= b < prev.Length
      modifies next, prev
      ensures next[..] == old(next[..])[a := b] && prev[..] == old(prev[..])[b := a]
    {
      next[a] := b;
      prev[b] := a;
    }

    /** The four assignments that link the range `first`...`lst` in front
        of `before`, in the order of `list_insert` and `list_splice`;
        returns the old predecessor of `before`. */
    method Attach(first: int, lst: int, before: int) returns (bp: int)
      requires next != prev && next.Length == prev.Length
      requires 0 <= first < next.Length && 0 <= lst < next.Length && 0 <= before < next.Length
      requires 0 <= prev[before] < next.Length
      modifies next, prev
      ensures bp == old(prev[before])
      ensures next[..] == old(next[..])[lst := before][bp := first]
      ensures prev[..] == old(prev[..])[first := bp][before := lst]
    {
      bp := prev[before];
      prev[first] := bp;
      next[lst] := before;
      next[bp] := first;
      prev[before] := lst;
    }

    /** The six assignments of `list_splice` for a non-empty range
        `first`...`lst`: cut it out between its neighbours `fp` and `ln`,
        then attach it in front of `before`. */
    method Move(first: int, lst: int, before: int) returns (fp: int, ln: int, bp: int)
      requires next != prev && next.Length == prev.Length
      requires 0 <= first < next.Length && 0 <= lst < next.Length && 0 <= before < next.Length
      requires 0 <= prev[first] < next.Length && 0 <= next[lst] < next.Length
      requires 0 <= prev[..][next[lst] := prev[first]][before] < next.Length
      modifies next, prev
      ensures fp == old(prev[first]) && ln == old(next[lst])
      ensures bp == old(prev[..])[ln := fp][before]
      ensures next[..] == old(next[..])[fp := ln][lst := before][bp := first]
      ensures prev[..] == old(prev[..])[ln := fp][first := bp][before := lst]
    {
      fp, ln := prev[first], next[lst];
      Join(fp, ln);
      bp := Attach(first, lst, before);
    }

    /** The four link updates of `list_insert` on the chain `c`: `x` goes
        in front of `before`, at position q. */
    method InsertAt(x: int, before: int, ghost c: seq<int>, ghost q: int)
      requires next != prev && Linked(next[..], prev[..], c)
      requires 1 <= q < |c| && c[q] == before && 0 <= x < next.Length && x !in c
      modifies next, prev
      ensures Linked(next[..], prev[..], c[..q] + [x] + c[q..])
      ensures SameOutside(old(next[..]), old(prev[..]), next[..], prev[..], c + [x])
    {
      InsertLinks(next[..], prev[..], c, x, q);
      var _ := Attach(x, x, before);
    }

    /** The six link updates of `list_splice` on the chain `c`: the range
        [first, lst] at positions f up to l - 1 moves in front of `before`
        at position q. */
    method Relink(before: int, first: int, lst: int, ghost c: seq<int>, ghost q: int, ghost f: int, ghost l: int)
      requires next != prev && Linked(next[..], prev[..], c)
      requires 1 <= q < |c| && c[q] == before
      requires 1 <= f < l < |c| && c[f] == first && c[l - 1] == lst
      requires q < f || l <= q
      modifies next, prev
      ensures Linked(next[..], prev[..], Spliced(c, f, l, q))
      ensures SameOutside(old(next[..]), old(prev[..]), next[..], prev[..], c)
    {
      ghost var nx, pv := next[..], prev[..];
      SpliceReads(nx, pv, c, f, l, q);
      var fp, ln, bp := Move(first, lst, before);
      SpliceLinks(nx, pv, c, f, l, q, fp, first, lst, ln, bp, before);
    }

    /** The six link updates of `list_splice` when the range [first, lst]
        at positions f up to l - 1 of the chain `c` moves in front of
        `before`, at position q of another chain `d`. */
    method Transfer(before: int, first: int, lst: int, ghost c: seq<int>, ghost d: seq<int>,
                    ghost q: int, ghost f: int, ghost l: int)
      requires next != prev && Linked(next[..], prev[..], c) && Linked(next[..], prev[..], d)
      requires Disjoint(c, d)
      requires 1 <= q < |d| && d[q] == before
      requires 1 <= f < l < |c| && c[f] == first && c[l - 1] == lst
      modifies next, prev
      ensures Linked(next[..], prev[..], c[..f] + c[l..])
      ensures Linked(next[..], prev[..], d[..q] + c[f..l] + d[q..])
      ensures SameOutside(old(next[..]), old(prev[..]), next[..], prev[..], c + d)
    {
      TransferLinks(next[..], prev[..], c, d, f, l, q);
      var _, _, _ := Move(first, lst, before);
    }

    /** `swap (&e->prev, &e->next)`. */
    method SwapLinks(e: int)
      requires next != prev && 0 <= e < next.Length && 0 <= e < prev.Length
      modifies next, prev
      ensures next[..] == old(next[..])[e := old(prev[e])]
      ensures prev[..] == old(prev[..])[e := old(next[e])]
    {
      var t := prev[e];
      prev[e] := next[e];
      next[e] := t;
    }

    /** The last two swaps of `list_reverse`: the sentinels' inner links
        `h->next` and `t->prev`, then the outer links of the nodes `a` and
        `b` they now point at. */
    method SwapEnds(h: int, t: int) returns (a: int, b: int)
      requires next != prev && next.Length == prev.Length
      requires 0 <= h < next.Length && 0 <= t < next.Length
      requires 0 <= prev[t] < next.Length && 0 <= next[h] < next.Length
      modifies next, prev
      ensures a == old(prev[t]) && b == old(next[h])
      ensures next[..] == old(next[..])[h := a][b := old(prev[..])[t := b][a]]
      ensures prev[..] == old(prev[..])[t := b][a := old(next[..])[h := a][b]]
    {
      var x := next[h];
      next[h] := prev[t];
      prev[t] := x;
      a, b := next[h], prev[t];
      x := prev[a];
      prev[a] := next[b];
      next[b] := x;
    }
  }

  class List {
    const mem: Arena
    /** The `head` and `tail` sentinels of `struct list`. */
    const head: int
    const tail: int
    ghost var elems: seq<int>

    ghost function Chain(): seq<int>
      reads this
    {
      [head] + elems + [tail]
    }

    ghost predicate Valid()
      reads this, mem.next, mem.prev
    {
      && mem.next != mem.prev
      && Linked(mem.next[..], mem.prev[..], Chain())
    }

    /** The links of every node outside `t` are as they were in `nx`/`pv`. */
    ghost predicate Untouched(nx: seq<int>, pv: seq<int>, t: seq<int>)
      reads mem.next, mem.prev
    {
      SameOutside(nx, pv, mem.next[..], mem.prev[..], t)
    }

    /** What `Valid` says about the link arrays, node by node. */
    lemma Facts()
      requires Valid()
      ensures |Chain()| == |elems| + 2 && Chain()[0] == head && Chain()[|Chain()| - 1] == tail
      ensures forall i :: 0 <= i < |elems| ==> Chain()[i + 1] == elems[i]
      ensures mem.next.Length == mem.prev.Length
      ensures forall i :: 0 <= i < |Chain()| ==> 0 <= Chain()[i] < mem.next.Length
      ensures forall i :: 0 <= i < |Chain()| - 1 ==> mem.next[Chain()[i]] == Chain()[i + 1]
      ensures forall i :: 0 < i < |Chain()| ==> mem.prev[Chain()[i]] == Chain()[i - 1]
      ensures forall i :: 0 <= i < |elems| ==> elems[i] != head && elems[i] != tail
      ensures head != tail
    {
      var c := Chain();
      forall i | 0 <= i < |elems| ensures elems[i] != head && elems[i] != tail {
        assert c[i + 1] == elems[i] && c[0] == head && c[|c| - 1] == tail;
      }
    }

    /** The tail occurs in the chain only at its end. */
    lemma AtTail(i: int)
      requires Valid() && 0 <= i <= |elems|
      ensures Chain()[i + 1] == tail <==> i == |elems|
    {
      var c := Chain();
      assert c[|elems| + 1] == tail;
    }

    /** `list_init`: an empty list made of the two sentinels. */
    constructor (a: Arena, h: int, t: int)
      requires a.next != a.prev && a.next.Length == a.prev.Length
      requires 0 <= h < a.next.Length && 0 <= t < a.next.Length && h != t
      modifies a.next, a.prev
      ensures mem == a && head == h && tail == t
      ensures Valid() && elems == []
      ensures SameOutside(old(a.next[..]), old(a.prev[..]), a.next[..], a.prev[..], [h, t])
    {
      mem := a;
      head := h;
      tail := t;
      elems := [];
      new;
      a.prev[h] := NIL;
      a.next[h] := t;
      a.prev[t] := h;
      a.next[t] := NIL;
    }

    /** `list_begin`: the first element, or the tail when the list is empty. */
    function Begin(): (r: int)
      requires Valid()
      reads this, mem.next, mem.prev
      ensures elems != [] ==> r == elems[0]
      ensures elems == [] ==> r == tail
    {
      Facts();
      mem.next[head]
    }

    /** `list_next`: the element after `e`, the head or an interior element
        found at chain position `i`. */
    function Next(e: int, ghost i: int): (r: int)
      requires Valid()
      requires 0 <= i < |Chain()| - 1 && Chain()[i] == e
      reads this, mem.next, mem.prev
      ensures r == Chain()[i + 1]
    {
      mem.next[e]
    }

    /** `list_rbegin`: the last element, or the head when the list is empty. */
    function Rbegin(): (r: int)
      requires Valid()
      reads this, mem.next, mem.prev
      ensures elems != [] ==> r == elems[|elems| - 1]
      ensures elems == [] ==> r == head
    {
      Facts();
      mem.prev[tail]
    }

    /** `list_prev`: the element before `e`, an interior element or the
        tail found at chain position `i`. */
    function Prev(e: int, ghost i: int): (r: int)
      requires Valid()
      requires 0 < i < |Chain()| && Chain()[i] == e
      reads this, mem.next, mem.prev
      ensures r == Chain()[i - 1]
    {
      mem.prev[e]
    }

    /** `list_front`; the source asserts the list is not empty. */
    function Front(): (r: int)
      requires Valid() && elems != []
      reads this, mem.next, mem.prev
      ensures r == elems[0] && r != head && r != tail
    {
      Facts();
      mem.next[head]
    }

    /** `list_back`; the source asserts the list is not empty. */
    function Back(): (r: int)
      requires Valid() && elems != []
      reads this, mem.next, mem.prev
      ensures r == elems[|elems| - 1] && r != head && r != tail
    {
      Facts();
      mem.prev[tail]
    }

    /** `list_empty`: the first element is the tail. */
    function Empty(): (r: bool)
      requires Valid()
      reads this, mem.next, mem.prev
      ensures r <==> elems == []
    {
      Facts();
      Begin() == tail
    }

    /** `list_size`: walks from the first element to the tail. */
    method Size() returns (n: nat)
      requires Valid()
      ensures n == |elems|
    {
      ghost var c := Chain();
      n := 0;
      var e := Begin();
      while e != tail
        invariant n < |c| - 1 && e == c[n + 1]
        decreases |elems| - n
      {
        e := Next(e, n + 1);
        n := n + 1;
      }
    }

    /** `list_insert`: puts `x` just before `before`, the element at position
        `q` of the chain (an interior element or the tail). */
    method Insert(before: int, x: int, ghost q: int)
      requires Valid()
      requires 1 <= q < |Chain()| && Chain()[q] == before
      requires 0 <= x < mem.next.Length && x !in Chain()
      modifies this, mem.next, mem.prev
      ensures Valid()
      ensures elems == old(elems[..q - 1]) + [x] + old(elems[q - 1..])
      ensures Untouched(old(mem.next[..]), old(mem.prev[..]), old(Chain()) + [x])
    {
      ghost var c := Chain();
      elems := elems[..q - 1] + [x] + elems[q - 1..];
      assert Chain() == c[..q] + [x] + c[q..];
      mem.InsertAt(x, before, c, q);
    }

    /** `list_push_front`. */
    method PushFront(x: int)
      requires Valid()
      requires 0 <= x < mem.next.Length && x !in Chain()
      modifies this, mem.next, mem.prev
      ensures Valid()
      ensures elems == [x] + old(elems)
      ensures Untouched(old(mem.next[..]), old(mem.prev[..]), old(Chain()) + [x])
    {
      Insert(Begin(), x, 1);
    }

    /** `list_push_back`. */
    method PushBack(x: int)
      requires Valid()
      requires 0 <= x < mem.next.Length && x !in Chain()
      modifies this, mem.next, mem.prev
      ensures Valid()
      ensures elems == old(elems) + [x]
      ensures Untouched(old(mem.next[..]), old(mem.prev[..]), old(Chain()) + [x])
    {
      Insert(tail, x, |elems| + 1);
      assert old(elems)[..|old(elems)|] == old(elems);
    }

    /** `list_remove`: unlinks the interior element `e` at chain position `i`
        and returns the element that followed it. */
    method Remove(e: int, ghost i: int) returns (r: int)
      requires Valid()
      requires 1 <= i <= |elems| && Chain()[i] == e
      modifies this, mem.next, mem.prev
      ensures Valid()
      ensures elems == old(elems[..i - 1] + elems[i..])
      ensures r == old(Chain()[i + 1])
      ensures Untouched(old(mem.next[..]), old(mem.prev[..]), old(Chain()))
    {
      ghost var c, nx, pv := Chain(), mem.next[..], mem.prev[..];
      RemoveLinks(nx, pv, c, i);
      mem.Join(mem.prev[e], mem.next[e]);
      r := mem.next[e];
      elems := elems[..i - 1] + elems[i..];
      assert Chain() == c[..i] + c[i + 1..];
    }

    /** `list_pop_front`; the source asserts the list is not empty. */
    method PopFront() returns (r: int)
      requires Valid() && elems != []
      modifies this, mem.next, mem.prev
      ensures Valid()
      ensures r == old(elems[0]) && elems == old(elems[1..])
      ensures Untouched(old(mem.next[..]), old(mem.prev[..]), old(Chain()))
    {
      r := Front();
      var _ := Remove(r, 1);
    }

    /** `list_pop_back`; the source asserts the list is not empty. */
    method PopBack() returns (r: int)
      requires Valid() && elems != []
      modifies this, mem.next, mem.prev
      ensures Valid()
      ensures r == old(elems[|elems| - 1]) && elems == old(elems[..|elems| - 1])
      ensures Untouched(old(mem.next[..]), old(mem.prev[..]), old(Chain()))
    {
      r := Back();
      var _ := Remove(r, |elems|);
      assert old(elems)[|old(elems)|..] == [];
    }
  
    /** `list_splice` within one list: moves the elements at chain positions
        f up to l (from `first` up to, not including, `last`) in front of
        `before`, the element at position q, which lies outside that range. */
    method Splice(before: int, first: int, last: int, ghost q: int, ghost f: int, ghost l: int)
      requires Valid()
      requires 1 <= q < |Chain()| && Chain()[q] == before
      requires 1 <= f <= l < |Chain()| && Chain()[f] == first && Chain()[l] == last
      requires q < f || l <= q
      modifies this, mem.next, mem.prev
      ensures Valid()
      ensures Chain() == Spliced(old(Chain()), f, l, q)
      ensures Untouched(old(mem.next[..]), old(mem.prev[..]), old(Chain()))
    {
      if first == last {
        assert f == l;
        return;
      }
      Facts();
      var lst := Prev(last, l);
      MoveRange(before, first, lst, q, f, l);
    }

    /** `list_splice` between two lists of one arena: moves the elements of
        `src` at chain positions f up to l (from `first` up to, not
        including, `last`) in front of `before`, the element at position q
        of this list. */
    method SpliceFrom(src: List, before: int, first: int, last: int, ghost q: int, ghost f: int, ghost l: int)
      requires Valid() && src.Valid() && src != this && src.mem == mem
      requires forall n :: n in src.Chain() ==> n !in Chain()
      requires 1 <= q < |Chain()| && Chain()[q] == before
      requires 1 <= f <= l < |src.Chain()| && src.Chain()[f] == first && src.Chain()[l] == last
      modifies this, src, mem.next, mem.prev
      ensures Valid() && src.Valid()
      ensures src.elems == old(src.elems[..f - 1] + src.elems[l - 1..])
      ensures elems == old(elems[..q - 1] + src.elems[f - 1..l - 1] + elems[q - 1..])
      ensures Untouched(old(mem.next[..]), old(mem.prev[..]), old(src.Chain() + Chain()))
    {
      if first == last {
        assert f == l by { src.Facts(); }
        assert src.elems[..f - 1] + src.elems[l - 1..] == src.elems;
        assert elems[..q - 1] + src.elems[f - 1..l - 1] + elems[q - 1..] == elems;
        return;
      }
      var lst := src.Prev(last, l);
      MoveRangeFrom(src, before, first, lst, q, f, l);
    }

    /** The relinking of `list_splice` between two lists once the range
        [first, lst] at chain positions f up to l - 1 of `src` is known to
        be non-empty. */
    method MoveRangeFrom(src: List, before: int, first: int, lst: int, ghost q: int, ghost f: int, ghost l: int)
      requires Valid() && src.Valid() && src != this && src.mem == mem
      requires forall n :: n in src.Chain() ==> n !in Chain()
      requires 1 <= q < |Chain()| && Chain()[q] == before
      requires 1 <= f < l < |src.Chain()| && src.Chain()[f] == first && src.Chain()[l - 1] == lst
      modifies this, src, mem.next, mem.prev
      ensures Valid() && src.Valid()
      ensures src.elems == old(src.elems[..f - 1] + src.elems[l - 1..])
      ensures elems == old(elems[..q - 1] + src.elems[f - 1..l - 1] + elems[q - 1..])
      ensures Untouched(old(mem.next[..]), old(mem.prev[..]), old(src.Chain() + Chain()))
    {
      ghost var c, d := src.Chain(), Chain();
      ghost var se, de := src.elems, elems;
      TransferChains(c, d, src.head, se, src.tail, head, de, tail, f, l, q);
      mem.Transfer(before, first, lst, c, d, q, f, l);
      src.elems := se[..f - 1] + se[l - 1..];
      elems := de[..q - 1] + se[f - 1..l - 1] + de[q - 1..];
    }

    /** The relinking of `list_splice` once the range [first, lst] at
        chain positions f up to l - 1 is known to be non-empty. */
    method MoveRange(before: int, first: int, lst: int, ghost q: int, ghost f: int, ghost l: int)
      requires Valid()
      requires 1 <= q < |Chain()| && Chain()[q] == before
      requires 1 <= f < l < |Chain()| && Chain()[f] == first && Chain()[l - 1] == lst
      requires q < f || l <= q
      modifies this, mem.next, mem.prev
      ensures Valid()
      ensures Chain() == Spliced(old(Chain()), f, l, q)
      ensures Untouched(old(mem.next[..]), old(mem.prev[..]), old(Chain()))
    {
      ghost var c := Chain();
      ghost var r := Spliced(c, f, l, q);
      Rewrap(r, head, tail);
      elems := r[1..|r| - 1];
      mem.Relink(before, first, lst, c, q, f, l);
    }

    /** `list_reverse`: swaps the two links of every element, walking along
        the old `next` links (which the swap has moved into `prev`), then
        swaps the links of the sentinels and of the two end elements. */
    method Reverse()
      requires Valid()
      modifies this, mem.next, mem.prev
      ensures Valid()
      ensures elems == ListOrder.Reverse(old(elems))
      ensures Untouched(old(mem.next[..]), old(mem.prev[..]), old(Chain()))
    {
      if !Empty() {
        ghost var c, nx, pv, E := Chain(), mem.next[..], mem.prev[..], elems;
        assert Linked(nx, pv, c);
        var e := Begin();
        ghost var k := 0;
        SwappedNone(nx, pv);
        SwappedNone(pv, nx);
        while e != tail
          invariant 0 <= k <= |E| && e == c[k + 1]
          invariant mem.next[..] == Swapped(nx, pv, E[..k]) && mem.prev[..] == Swapped(pv, nx, E[..k])
          decreases |E| - k
        {
          ReverseStep(nx, pv, head, E, tail, k);
          mem.SwapLinks(e);
          e := mem.prev[e];
          k := k + 1;
        }
        ghost var a0, b0 := ReverseEnds(nx, pv, head, E, tail, k);
        var a, b := mem.SwapEnds(head, tail);
        elems := ListOrder.Reverse(E);
      }
    }
  }

  /** A chain is its first node, its interior and its last node. */
  /** The chains of the two lists after a splice between them, stated on
      their interior sequences. */
  lemma TransferChains(c: seq<int>, d: seq<int>, sh: int, se: seq<int>, st: int,
                       dh: int, de: seq<int>, dt: int, f: int, l: int, q: int)
    requires c == [sh] + se + [st] && d == [dh] + de + [dt]
    requires forall n :: n in c ==> n !in d
    requires 1 <= f < l < |c| && 1 <= q < |d|
    ensures Disjoint(c, d)
    ensures [sh] + (se[..f - 1] + se[l - 1..]) + [st] == c[..f] + c[l..]
    ensures [dh] + (de[..q - 1] + se[f - 1..l - 1] + de[q - 1..]) + [dt] == d[..q] + c[f..l] + d[q..]
  {
    forall i, j | 0 <= i < |c| && 0 <= j < |d| ensures c[i] != d[j] {
      assert c[i] in c;
    }
    assert c[..f] == [sh] + se[..f - 1];
    assert c[l..] == se[l - 1..] + [st];
    assert c[f..l] == se[f - 1..l - 1];
    assert d[..q] == [dh] + de[..q - 1];
    assert d[q..] == de[q - 1..] + [dt];
  }

  lemma Rewrap(r: seq<int>, h: int, t: int)
    requires |r| >= 2 && r[0] == h && r[|r| - 1] == t
    ensures [h] + r[1..|r| - 1] + [t] == r
  {
    assert r == [r[0]] + r[1..|r| - 1] + [r[|r| - 1]];
  }

  /** The links `list_reverse` leaves behind realise the reversed chain. */
  lemma ReversedLinks(nx: seq<int>, pv: seq<int>, c: seq<int>, nx': seq<int>, pv': seq<int>)
    requires Linked(nx, pv, c) && |c| >= 3 && |nx'| == |pv'| == |nx|
    requires pv'[c[0]] == NIL && nx'[c[|c| - 1]] == NIL
    requires nx'[c[0]] == c[|c| - 2] && pv'[c[|c| - 1]] == c[1]
    requires nx'[c[1]] == c[|c| - 1] && pv'[c[|c| - 2]] == c[0]
    requires forall i :: 2 <= i < |c| - 1 ==> nx'[c[i]] == pv[c[i]]
    requires forall i :: 1 <= i < |c| - 2 ==> pv'[c[i]] == nx[c[i]]
    ensures Linked(nx', pv', [c[0]] + ListOrder.Reverse(c[1..|c| - 1]) + [c[|c| - 1]])
  {
    var E := c[1..|c| - 1];
    var n := |E|;
    var r := [c[0]] + ListOrder.Reverse(E) + [c[|c| - 1]];
    assert forall i :: 1 <= i <= n ==> r[i] == c[n - i + 1];
    assert r[0] == c[0] && r[n + 1] == c[n + 1] && |r| == |c|;
    forall i, j | 0 <= i < j < |r| ensures r[i] != r[j] {
      var i', j' := if i == 0 then 0 else if i == n + 1 then n + 1 else n - i + 1,
                    if j == 0 then 0 else if j == n + 1 then n + 1 else n - j + 1;
      assert r[i] == c[i'] && r[j] == c[j'] && i' != j';
    }
    forall i | 0 <= i < |r| ensures 0 <= r[i] < |nx'| {
      var i' := if i == 0 then 0 else if i == n + 1 then n + 1 else n - i + 1;
      assert r[i] == c[i'];
    }
    forall i | 0 <= i < |r| - 1 ensures nx'[r[i]] == r[i + 1] {
      if 1 <= i < n {
        assert r[i] == c[n - i + 1] && pv[c[n - i + 1]] == c[n - i];
      }
    }
    forall i | 0 < i < |r| ensures pv'[r[i]] == r[i - 1] {
      if 2 <= i <= n {
        assert r[i] == c[n - i + 1] && nx[c[n - i + 1]] == c[n - i + 2];
      }
    }
  }

  /** The link array `x`, with the entries of the nodes in `s` taken
      from `y` instead: the arrays `list_reverse`'s loop leaves behind. */
  ghost function Swapped(x: seq<int>, y: seq<int>, s: seq<int>): seq<int>
    requires |x| == |y|
  {
    seq(|x|, n requires 0 <= n < |x| => if n in s then y[n] else x[n])
  }

  lemma SwappedNone(x: seq<int>, y: seq<int>)
    requires |x| == |y|
    ensures Swapped(x, y, []) == x
  {
  }

  /** One turn of `list_reverse`'s loop, at the `k`th element. */
  lemma ReverseStep(nx: seq<int>, pv: seq<int>, h: int, E: seq<int>, t: int, k: int)
    requires Linked(nx, pv, [h] + E + [t]) && 0 <= k <= |E|
    requires ([h] + E + [t])[k + 1] != t
    ensures k < |E| && ([h] + E + [t])[k + 1] == E[k] && 0 <= E[k] < |nx|
    ensures nx[E[k]] == ([h] + E + [t])[k + 2]
    ensures Swapped(nx, pv, E[..k])[E[k]] == nx[E[k]] && Swapped(pv, nx, E[..k])[E[k]] == pv[E[k]]
    ensures Swapped(nx, pv, E[..k + 1]) == Swapped(nx, pv, E[..k])[E[k] := pv[E[k]]]
    ensures Swapped(pv, nx, E[..k + 1]) == Swapped(pv, nx, E[..k])[E[k] := nx[E[k]]]
  {
    var c := [h] + E + [t];
    assert c[|E| + 1] == t;
    assert c[k + 1] == E[k] && c[k + 2] == (E + [t])[k + 1];
    assert E[k] !in E[..k] by {
      forall j | 0 <= j < k ensures E[j] != E[k] {
        assert c[j + 1] == E[j];
      }
    }
    assert E[..k + 1] == E[..k] + [E[k]];
  }

  /** The last two swaps of `list_reverse`, after the loop has exchanged the
      links of every interior node: `a` and `b` are the old last and first
      elements. */
  lemma ReverseEnds(nx: seq<int>, pv: seq<int>, h: int, E: seq<int>, t: int, k: int)
    returns (a: int, b: int)
    requires Linked(nx, pv, [h] + E + [t]) && 1 <= |E| && 0 <= k <= |E|
    requires ([h] + E + [t])[k + 1] == t
    ensures k == |E| && E[..k] == E
    ensures a == Swapped(pv, nx, E)[t] && b == Swapped(nx, pv, E)[h]
    ensures 0 <= a < |nx| && 0 <= b < |nx| && 0 <= h < |nx| && 0 <= t < |nx|
    ensures Linked(Swapped(nx, pv, E)[h := a][b := Swapped(pv, nx, E)[t := b][a]],
                   Swapped(pv, nx, E)[t := b][a := Swapped(nx, pv, E)[h := a][b]],
                   [h] + ListOrder.Reverse(E) + [t])
    ensures SameOutside(nx, pv, Swapped(nx, pv, E)[h := a][b := Swapped(pv, nx, E)[t := b][a]],
                        Swapped(pv, nx, E)[t := b][a := Swapped(nx, pv, E)[h := a][b]], [h] + E + [t])
  {
    var c := [h] + E + [t];
    var n := |E|;
    assert c[n + 1] == t;
    assert forall i :: 0 <= i < n + 1 ==> c[i] != c[n + 1];
    assert E[..k] == E;
    assert c[0] == h && c[n + 1] == t && c[1] == E[0] && c[n] == E[n - 1];
    assert h !in E && t !in E by {
      forall j | 0 <= j < n ensures E[j] != h && E[j] != t {
        assert c[j + 1] == E[j];
      }
    }
    var nx0, pv0 := Swapped(nx, pv, E), Swapped(pv, nx, E);
    a, b := pv0[t], nx0[h];
    assert a == E[n - 1] && b == E[0];
    assert pv0[a] == t && nx0[b] == h;
    forall j | 1 <= j < |c| - 1 ensures nx0[c[j]] == pv[c[j]] && pv0[c[j]] == nx[c[j]] {
      assert c[j] == E[j - 1];
    }
    forall m | 0 <= m < |nx| && m !in c[1..|c| - 1] ensures nx0[m] == nx[m] && pv0[m] == pv[m] {
      assert c[1..|c| - 1] == E;
    }
    assert c[1..|c| - 1] == E;
    ReverseTail(nx, pv, c, nx0, pv0);
  }

  /** The links the last two swaps of `list_reverse` leave behind. */
  lemma ReverseTail(nx: seq<int>, pv: seq<int>, c: seq<int>, nx0: seq<int>, pv0: seq<int>)
    requires Linked(nx, pv, c) && |c| >= 3 && |nx0| == |pv0| == |nx|
    requires forall j :: 1 <= j < |c| - 1 ==> nx0[c[j]] == pv[c[j]] && pv0[c[j]] == nx[c[j]]
    requires forall n :: 0 <= n < |nx| && n !in c[1..|c| - 1] ==> nx0[n] == nx[n] && pv0[n] == pv[n]
    ensures Linked(nx0[c[0] := c[|c| - 2]][c[1] := c[|c| - 1]],
                   pv0[c[|c| - 1] := c[1]][c[|c| - 2] := c[0]],
                   [c[0]] + ListOrder.Reverse(c[1..|c| - 1]) + [c[|c| - 1]])
    ensures SameOutside(nx, pv, nx0[c[0] := c[|c| - 2]][c[1] := c[|c| - 1]],
                        pv0[c[|c| - 1] := c[1]][c[|c| - 2] := c[0]], c)
  {
    var nx', pv' := nx0[c[0] := c[|c| - 2]][c[1] := c[|c| - 1]],
                    pv0[c[|c| - 1] := c[1]][c[|c| - 2] := c[0]];
    assert c[0] !in c[1..|c| - 1] && c[|c| - 1] !in c[1..|c| - 1];
    assert forall j :: 2 <= j < |c| - 1 ==> c[j] != c[1];
    assert forall j :: 1 <= j < |c| - 2 ==> c[j] != c[|c| - 2];
    ReversedLinks(nx, pv, c, nx', pv');
    forall n | 0 <= n < |nx| && n !in c ensures nx'[n] == nx[n] && pv'[n] == pv[n] {
      assert n !in c[1..|c| - 1];
    }
  }
}
