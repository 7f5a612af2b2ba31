/** The order-dependent algorithms of `lib/kernel/list.c`: the run
    helpers `is_sorted`, `find_end_of_run` and `inplace_merge`, the
    natural merge sort `list_sort`, `list_insert_ordered`, `list_unique`,
    `list_max` and `list_min`.  A `list_less_func` is modelled by node keys
    (see `ListOrder`).  Ghost positions index `elems`; position
    `|elems|` stands for the tail. */
module ListAlgorithms {
  import opened Links
  import opened ListOrder
  import opened Lists

  /** A chain is determined by its interior. */
  lemma Unwrap(h: int, t: int, x: seq<int>, y: seq<int>)
    requires [h] + x + [t] == [h] + y + [t]
    ensures x == y
  {
    assert x == ([h] + x + [t])[1..|x| + 1];
    assert y == ([h] + y + [t])[1..|y| + 1];
  }

  /** Moving element j in front of element i < j, as `inplace_merge` does
      through `list_splice`: the interior of the new chain. */
  lemma SpliceOne(h: int, t: int, e: seq<int>, e': seq<int>, i: int, j: int)
    requires 0 <= i < j < |e|
    requires [h] + e' + [t] == Spliced([h] + e + [t], j + 1, j + 2, i + 1)
    ensures e' == e[..i] + [e[j]] + e[i..j] + e[j + 1..]
  {
    var c := [h] + e + [t];
    assert Spliced(c, j + 1, j + 2, i + 1) == c[..i + 1] + c[j + 1..j + 2] + c[i + 1..j + 1] + c[j + 2..];
    assert c[..i + 1] == [h] + e[..i];
    assert c[j + 1..j + 2] == [e[j]];
    assert c[i + 1..j + 1] == e[i..j];
    assert c[j + 2..] == e[j + 1..] + [t];
    Regroup5([h], e[..i], [e[j]], e[i..j], e[j + 1..], [t]);
    Unwrap(h, t, e', e[..i] + [e[j]] + e[i..j] + e[j + 1..]);
  }

  lemma Regroup5(h: seq<int>, a: seq<int>, b: seq<int>, c: seq<int>, d: seq<int>, t: seq<int>)
    ensures (h + a) + b + c + (d + t) == h + (a + b + c + d) + t
  {
  }

  /** After that move, the element that was at position i is one further
      on, and everything after position j is where it was. */
  lemma MovedPositions(h: int, t: int, e: seq<int>, i: int, j: int)
    requires 0 <= i < j < |e|
    ensures ([h] + (e[..i] + [e[j]] + e[i..j] + e[j + 1..]) + [t])[i + 2] == ([h] + e + [t])[i + 1]
    ensures ([h] + (e[..i] + [e[j]] + e[i..j] + e[j + 1..]) + [t])[j + 2] == ([h] + e + [t])[j + 2]
  {
    var m := e[..i] + [e[j]] + e[i..j] + e[j + 1..];
    assert |m| == |e|;
    assert m[i + 1] == e[i];
    assert j + 1 < |e| ==> m[j + 1] == e[j + 1];
  }

  /** `is_sorted`: whether no element of positions [f, g) is `less` than
      its predecessor. */
  method IsSorted(l: List, a: int, b: int, key: int -> int, ghost f: int, ghost g: int) returns (r: bool)
    requires l.Valid()
    requires 0 <= f <= g <= |l.elems| && l.Chain()[f + 1] == a && l.Chain()[g + 1] == b
    ensures r <==> Sorted(key, l.elems[f..g])
  {
    ghost var c, e := l.Chain(), l.elems;
    if a != b {
      var x := l.Next(a, f + 1);
      ghost var i := f + 1;
      while x != b
        invariant f < i <= g && x == c[i + 1]
        invariant NoDescent(key, e[f..i])
        decreases g - i
      {
        var p := l.Prev(x, i + 1);
        assert x == e[i] && p == e[i - 1];
        if Key(key, x) < Key(key, p) {
          DescentUnsorted(key, e, f, g, i);
          return false;
        }
        NoDescentExtend(key, e, f, i);
        x := l.Next(x, i + 1);
        i := i + 1;
      }
    }
    NoDescentIsSorted(key, e[f..g]);
    return true;
  }

  /** `find_end_of_run`: the end of the nondecreasing run that starts at
      position f, stopping at g at the latest; [f, g) is not empty. */
  method FindEndOfRun(l: List, a: int, b: int, key: int -> int, ghost f: int, ghost g: int)
    returns (r: int, ghost h: int)
    requires l.Valid()
    requires 0 <= f < g <= |l.elems| && l.Chain()[f + 1] == a && l.Chain()[g + 1] == b
    ensures f < h <= g && r == l.Chain()[h + 1]
    ensures Sorted(key, l.elems[f..h])
    ensures h < g ==> Key(key, l.elems[h]) < Key(key, l.elems[h - 1])
  {
    ghost var c, e := l.Chain(), l.elems;
    r, h := l.Next(a, f + 1), f + 1;
    while r != b && !(Key(key, r) < Key(key, l.Prev(r, h + 1)))
      invariant f < h <= g && r == c[h + 1]
      invariant NoDescent(key, e[f..h])
      decreases g - h
    {
      assert r == e[h] && c[h] == e[h - 1];
      NoDescentExtend(key, e, f, h);
      r, h := l.Next(r, h + 1), h + 1;
    }
    NoDescentIsSorted(key, e[f..h]);
  }

  /** The list during `inplace_merge`: the untouched prefix p, the merged
      output so far, the rest ra of the left run, the rest rb of the right
      run, the untouched suffix s.  The loop's `a0`, `a1b0` and `b1` are
      the nodes that start ra, rb and s (or the tail, t). */
  lemma MergeFronts(h: int, t: int, p: seq<int>, out: seq<int>, ra: seq<int>, rb: seq<int>, s: seq<int>)
    ensures var c := [h] + (p + out + ra + rb + s) + [t];
      && c[|p| + |out| + 1] == (ra + rb + s + [t])[0]
      && c[|p| + |out| + |ra| + 1] == (rb + s + [t])[0]
      && c[|p| + |out| + |ra| + |rb| + 1] == (s + [t])[0]
    ensures ra != [] ==> (ra + rb + s + [t])[0] == ra[0]
    ensures rb != [] ==> (rb + s + [t])[0] == rb[0]
    ensures ra == [] ==> (ra + rb + s + [t])[0] == (rb + s + [t])[0]
    ensures rb == [] ==> (rb + s + [t])[0] == (s + [t])[0]
  {
    var c := [h] + (p + out + ra + rb + s) + [t];
    assert c == [h] + p + out + (ra + rb + s + [t]);
    assert c == [h] + p + out + ra + (rb + s + [t]);
    assert c == [h] + p + out + ra + rb + (s + [t]);
    if ra == [] { assert ra + rb + s + [t] == rb + s + [t]; }
    if rb == [] { assert rb + s + [t] == s + [t]; }
  }

  /** The first branch of the loop moves the front of ra to the output. */
  lemma MergeLayoutLeft(h: int, t: int, p: seq<int>, out: seq<int>, ra: seq<int>, rb: seq<int>, s: seq<int>)
    requires ra != []
    ensures p + out + ra + rb + s == p + (out + [ra[0]]) + ra[1..] + rb + s
  {
    assert ra == [ra[0]] + ra[1..];
  }

  /** The second branch moves the front of rb in front of ra. */
  lemma MergeLayoutRight(e: seq<int>, i: int, j: int,
                         p: seq<int>, out: seq<int>, ra: seq<int>, rb: seq<int>, s: seq<int>)
    requires ra != [] && rb != []
    requires e == p + out + ra + rb + s && i == |p| + |out| && j == i + |ra|
    ensures 0 <= i < j < |e|
    ensures e[..i] + [e[j]] + e[i..j] + e[j + 1..] == p + (out + [rb[0]]) + ra + rb[1..] + s
  {
    assert e[..i] == p + out;
    assert e[i..j] == ra;
    assert e[j] == rb[0];
    assert e[j + 1..] == rb[1..] + s;
  }

  /** The loop stops once one of the runs is used up: the nodes of a
      chain are distinct. */
  lemma MergeExit(h: int, t: int, p: seq<int>, out: seq<int>, ra: seq<int>, rb: seq<int>, s: seq<int>,
                  x: int, y: int, b1: int)
    requires Distinct([h] + (p + out + ra + rb + s) + [t])
    requires x == (ra + rb + s + [t])[0] && y == (rb + s + [t])[0] && b1 == (s + [t])[0]
    requires x == y || y == b1
    ensures ra == [] || rb == []
  {
    MergeFronts(h, t, p, out, ra, rb, s);
    var c := [h] + (p + out + ra + rb + s) + [t];
    var i, j, k := |p| + |out| + 1, |p| + |out| + |ra| + 1, |p| + |out| + |ra| + |rb| + 1;
    assert c[i] == x && c[j] == y && c[k] == b1;
  }

  /** When one run is used up, merging just appends. */
  lemma MergeRest(key: int -> int, p: seq<int>, out: seq<int>, a: seq<int>, b: seq<int>, s: seq<int>)
    requires a == [] || b == []
    ensures p + out + a + b + s == p + (out + Merge(key, a, b)) + s
  {
    if a == [] { assert a + b == b; } else { assert a + b == a; }
    assert p + out + a + b + s == p + (out + (a + b)) + s;
  }

  /** One step of the merge loop: the front of the right run goes first. */
  lemma MergeTakeRight(key: int -> int, out: seq<int>, a: seq<int>, b: seq<int>)
    requires a != [] && b != [] && Key(key, b[0]) < Key(key, a[0])
    ensures out + Merge(key, a, b) == (out + [b[0]]) + Merge(key, a, b[1..])
  {
    assert Merge(key, a, b) == [b[0]] + Merge(key, a, b[1..]);
  }

  /** One step of the merge loop: the front of the left run goes first. */
  lemma MergeTakeLeft(key: int -> int, out: seq<int>, a: seq<int>, b: seq<int>)
    requires a != [] && b != [] && !(Key(key, b[0]) < Key(key, a[0]))
    ensures out + Merge(key, a, b) == (out + [a[0]]) + Merge(key, a[1..], b)
  {
    assert Merge(key, a, b) == [a[0]] + Merge(key, a[1..], b);
  }

  /** The second branch of the `inplace_merge` loop: advances `y` and
      splices the element it passed over in front of `x`. */
  method MoveBefore(l: List, x: int, y: int, ghost i: int, ghost j: int, ghost e: seq<int>,
                    ghost nx: seq<int>, ghost pv: seq<int>, ghost c: seq<int>) returns (y': int)
    requires l.Valid() && l.elems == e
    requires 0 <= i < j < |e| && l.Chain()[i + 1] == x && l.Chain()[j + 1] == y
    requires l.Untouched(nx, pv, c) && multiset(l.Chain()) == multiset(c)
    modifies l, l.mem.next, l.mem.prev
    ensures l.Valid()
    ensures l.elems == e[..i] + [e[j]] + e[i..j] + e[j + 1..]
    ensures x == l.Chain()[i + 2] && y' == l.Chain()[j + 2]
    ensures l.Untouched(nx, pv, c) && multiset(l.Chain()) == multiset(c)
  {
    y' := l.Next(y, j + 1);
    var p := l.Prev(y', j + 2);
    SpliceOneBefore(l, x, p, y', i, j, e, nx, pv, c);
  }

  /** `list_splice (x, p, y')` where `p` at chain position j + 1 is the
      only element of the range: it moves in front of `x` at position i + 1. */
  method SpliceOneBefore(l: List, x: int, p: int, y': int, ghost i: int, ghost j: int, ghost e: seq<int>,
                         ghost nx: seq<int>, ghost pv: seq<int>, ghost c: seq<int>)
    requires l.Valid() && l.elems == e
    requires 0 <= i < j < |e|
    requires l.Chain()[i + 1] == x && l.Chain()[j + 1] == p && l.Chain()[j + 2] == y'
    requires l.Untouched(nx, pv, c) && multiset(l.Chain()) == multiset(c)
    modifies l, l.mem.next, l.mem.prev
    ensures l.Valid()
    ensures l.elems == e[..i] + [e[j]] + e[i..j] + e[j + 1..]
    ensures x == l.Chain()[i + 2] && y' == l.Chain()[j + 2]
    ensures l.Untouched(nx, pv, c) && multiset(l.Chain()) == multiset(c)
  {
    ghost var nx1, pv1, c1 := l.mem.next[..], l.mem.prev[..], l.Chain();
    l.Splice(x, p, y', i + 1, j + 1, j + 2);
    ghost var c2 := l.Chain();
    Moved(l.head, l.tail, e, l.elems, c1, c2, i, j);
    SameOutsideTrans(nx, pv, nx1, pv1, l.mem.next[..], l.mem.prev[..], c, c1);
  }

  /** Moving the element at position j in front of position i, on the
      elements and on the chain. */
  lemma Moved(h: int, t: int, e: seq<int>, e': seq<int>, c1: seq<int>, c2: seq<int>, i: int, j: int)
    requires 0 <= i < j < |e| && c1 == [h] + e + [t] && c2 == [h] + e' + [t]
    requires c2 == Spliced(c1, j + 1, j + 2, i + 1)
    ensures e' == e[..i] + [e[j]] + e[i..j] + e[j + 1..]
    ensures c2[i + 2] == c1[i + 1] && c2[j + 2] == c1[j + 2]
  {
    SpliceOne(h, t, e, e', i, j);
    MovedPositions(h, t, e, i, j);
  }

  /** One iteration of the `inplace_merge` loop, on the layout
      p + out + ra + rb + s with both runs non-empty: `x` is the front of
      ra and `y` the front of rb.  Unless the front of rb is `less` than
      the front of ra, `x` moves on; otherwise the front of rb is spliced
      in front of `x`. */
  method MergeStep(l: List, x: int, y: int, key: int -> int,
                   ghost p: seq<int>, ghost out: seq<int>, ghost ra: seq<int>, ghost rb: seq<int>,
                   ghost s: seq<int>, ghost nx: seq<int>, ghost pv: seq<int>, ghost c: seq<int>)
    returns (x': int, y': int, ghost out': seq<int>, ghost ra': seq<int>, ghost rb': seq<int>)
    requires l.Valid()
    requires l.elems == p + out + ra + rb + s && ra != [] && rb != []
    requires x == (ra + rb + s + [l.tail])[0] && y == (rb + s + [l.tail])[0]
    requires l.Untouched(nx, pv, c) && multiset(l.Chain()) == multiset(c)
    modifies l, l.mem.next, l.mem.prev
    ensures l.Valid()
    ensures l.elems == p + out' + ra' + rb' + s
    ensures x' == (ra' + rb' + s + [l.tail])[0] && y' == (rb' + s + [l.tail])[0]
    ensures Key(key, rb[0]) < Key(key, ra[0]) ==> out' == out + [rb[0]] && ra' == ra && rb' == rb[1..]
    ensures !(Key(key, rb[0]) < Key(key, ra[0])) ==> out' == out + [ra[0]] && ra' == ra[1..] && rb' == rb
    ensures l.Untouched(nx, pv, c) && multiset(l.Chain()) == multiset(c)
  {
    MergeFronts(l.head, l.tail, p, out, ra, rb, s);
    if !(Key(key, y) < Key(key, x)) {
      x', y', out', ra', rb' := MergeStepLeft(l, x, y, p, out, ra, rb, s, nx, pv, c);
    } else {
      x', y', out', ra', rb' := MergeStepRight(l, x, y, p, out, ra, rb, s, nx, pv, c);
    }
  }

  /** The first branch of the `inplace_merge` loop: `x` moves on. */
  method MergeStepLeft(l: List, x: int, y: int,
                       ghost p: seq<int>, ghost out: seq<int>, ghost ra: seq<int>, ghost rb: seq<int>,
                       ghost s: seq<int>, ghost nx: seq<int>, ghost pv: seq<int>, ghost c: seq<int>)
    returns (x': int, y': int, ghost out': seq<int>, ghost ra': seq<int>, ghost rb': seq<int>)
    requires l.Valid()
    requires l.elems == p + out + ra + rb + s && ra != [] && rb != []
    requires x == ra[0] && y == rb[0]
    requires x == l.Chain()[|p| + |out| + 1]
    requires l.Untouched(nx, pv, c) && multiset(l.Chain()) == multiset(c)
    ensures l.elems == p + out' + ra' + rb' + s
    ensures x' == (ra' + rb' + s + [l.tail])[0] && y' == (rb' + s + [l.tail])[0]
    ensures out' == out + [ra[0]] && ra' == ra[1..] && rb' == rb
  {
    MergeLayoutLeft(l.head, l.tail, p, out, ra, rb, s);
    x', y' := l.Next(x, |p| + |out| + 1), y;
    out', ra', rb' := out + [ra[0]], ra[1..], rb;
    MergeFronts(l.head, l.tail, p, out', ra', rb', s);
  }

  /** The second branch of the `inplace_merge` loop: the front of the
      right run is spliced in front of `x`. */
  method MergeStepRight(l: List, x: int, y: int,
                        ghost p: seq<int>, ghost out: seq<int>, ghost ra: seq<int>, ghost rb: seq<int>,
                        ghost s: seq<int>, ghost nx: seq<int>, ghost pv: seq<int>, ghost c: seq<int>)
    returns (x': int, y': int, ghost out': seq<int>, ghost ra': seq<int>, ghost rb': seq<int>)
    requires l.Valid()
    requires l.elems == p + out + ra + rb + s && ra != [] && rb != []
    requires x == ra[0] && y == rb[0]
    requires x == l.Chain()[|p| + |out| + 1] && y == l.Chain()[|p| + |out| + |ra| + 1]
    requires l.Untouched(nx, pv, c) && multiset(l.Chain()) == multiset(c)
    modifies l, l.mem.next, l.mem.prev
    ensures l.Valid()
    ensures l.elems == p + out' + ra' + rb' + s
    ensures x' == (ra' + rb' + s + [l.tail])[0] && y' == (rb' + s + [l.tail])[0]
    ensures out' == out + [rb[0]] && ra' == ra && rb' == rb[1..]
    ensures l.Untouched(nx, pv, c) && multiset(l.Chain()) == multiset(c)
  {
    ghost var i, j := |p| + |out|, |p| + |out| + |ra|;
    ghost var e := l.elems;
    y' := MoveBefore(l, x, y, i, j, e, nx, pv, c);
    x' := x;
    assert l.elems == e[..i] + [e[j]] + e[i..j] + e[j + 1..];
    MergeLayoutRight(e, i, j, p, out, ra, rb, s);
    out', ra', rb' := out + [rb[0]], ra, rb[1..];
    assert l.elems == p + out' + ra' + rb' + s;
    MergeFronts(l.head, l.tail, p, out', ra', rb', s);
  }

  /** `inplace_merge`: merges the sorted runs at positions [lo, mid) and
      [mid, hi) in place, by moving each element of the right run that is
      `less` than the current left element in front of it. */
  method InplaceMerge(l: List, a0: int, a1b0: int, b1: int, key: int -> int,
                      ghost lo: int, ghost mid: int, ghost hi: int)
    requires l.Valid()
    requires 0 <= lo <= mid <= hi <= |l.elems|
    requires l.Chain()[lo + 1] == a0 && l.Chain()[mid + 1] == a1b0 && l.Chain()[hi + 1] == b1
    requires Sorted(key, l.elems[lo..mid]) && Sorted(key, l.elems[mid..hi])
    modifies l, l.mem.next, l.mem.prev
    ensures l.Valid()
    ensures l.elems == old(l.elems[..lo]) + Merge(key, old(l.elems[lo..mid]), old(l.elems[mid..hi]))
                       + old(l.elems[hi..])
    ensures l.Untouched(old(l.mem.next[..]), old(l.mem.prev[..]), old(l.Chain()))
  {
    ghost var E, A, B := l.elems, l.elems[lo..mid], l.elems[mid..hi];
    ghost var c, nx, pv := l.Chain(), l.mem.next[..], l.mem.prev[..];
    ghost var P, S := E[..lo], E[hi..];
    assert E == P + [] + A + B + S;
    MergeFronts(l.head, l.tail, P, [], A, B, S);
    MergeWalk(l, a0, a1b0, b1, key, P, A, B, S, nx, pv, c);
  }

  /** The loop of `inplace_merge` on the layout P + A + B + S, with `a0`,
      `a1b0` and `b1` at the fronts of A, B and S. */
  method MergeWalk(l: List, a0: int, a1b0: int, b1: int, key: int -> int,
                   ghost P: seq<int>, ghost A: seq<int>, ghost B: seq<int>, ghost S: seq<int>,
                   ghost nx: seq<int>, ghost pv: seq<int>, ghost c: seq<int>)
    requires l.Valid() && l.elems == P + [] + A + B + S
    requires a0 == (A + B + S + [l.tail])[0] && a1b0 == (B + S + [l.tail])[0] && b1 == (S + [l.tail])[0]
    requires l.Untouched(nx, pv, c) && multiset(l.Chain()) == multiset(c)
    modifies l, l.mem.next, l.mem.prev
    ensures l.Valid() && l.elems == P + Merge(key, A, B) + S
    ensures l.Untouched(nx, pv, c) && multiset(l.Chain()) == multiset(c)
  {
    var x, y := a0, a1b0;
    ghost var out, ra, rb := [], A, B;
    while x != y && y != b1
      invariant l.Valid()
      invariant l.elems == P + out + ra + rb + S
      invariant x == (ra + rb + S + [l.tail])[0] && y == (rb + S + [l.tail])[0] && b1 == (S + [l.tail])[0]
      invariant Merge(key, A, B) == out + Merge(key, ra, rb)
      invariant l.Untouched(nx, pv, c) && multiset(l.Chain()) == multiset(c)
      decreases |ra| + |rb|
    {
      MergeFronts(l.head, l.tail, P, out, ra, rb, S);
      if Key(key, rb[0]) < Key(key, ra[0]) {
        MergeTakeRight(key, out, ra, rb);
      } else {
        MergeTakeLeft(key, out, ra, rb);
      }
      x, y, out, ra, rb := MergeStep(l, x, y, key, P, out, ra, rb, S, nx, pv, c);
    }
    MergeExit(l.head, l.tail, P, out, ra, rb, S, x, y, b1);
    MergeRest(key, P, out, ra, rb, S);
  }

  /** The chain after an in-place merge of positions [lo, hi) still has
      the node that was at position hi + 1 there. */
  lemma MergedFrame(h: int, t: int, E: seq<int>, M: seq<int>, lo: int, hi: int)
    requires 0 <= lo <= hi <= |E| && |M| == hi - lo
    ensures ([h] + (E[..lo] + M + E[hi..]) + [t])[hi + 1] == ([h] + E + [t])[hi + 1]
    ensures |E[..lo] + M + E[hi..]| == |E|
  {
    var E' := E[..lo] + M + E[hi..];
    if hi < |E| {
      assert E'[hi] == E[hi];
    }
  }

  /** The sequences around one merge of `list_sort`'s inner loop: the
      interior E is P + A + B + S with A = E[i..mid] and B = E[mid..hi]. */
  lemma MergePassParts(E: seq<int>, i: int, mid: int, hi: int)
    requires 0 <= i < mid < hi <= |E|
    ensures E == E[..i] + E[i..mid] + E[mid..hi] + E[hi..]
    ensures E[i..mid][0] == E[i] && E[i..mid][mid - i - 1] == E[mid - 1]
    ensures E[mid..hi][0] == E[mid] && E[mid..hi][hi - mid - 1] == E[hi - 1]
    ensures i > 0 ==> E[..i][i - 1] == E[i - 1]
    ensures hi < |E| ==> E[hi..][0] == E[hi]
  {
  }

  /** The two runs of one merge, as slices of the interior E. */
  lemma RunsAt(key: int -> int, E: seq<int>, i: int, mid: int, hi: int)
    requires 0 <= i < mid < hi <= |E|
    requires Key(key, E[mid]) < Key(key, E[mid - 1])
    requires hi < |E| ==> Key(key, E[hi]) < Key(key, E[hi - 1])
    ensures var P, A, B, S := E[..i], E[i..mid], E[mid..hi], E[hi..];
      && E == P + A + B + S && |P| == i && A != [] && B != []
      && Key(key, B[0]) < Key(key, A[|A| - 1])
      && (S != [] ==> Key(key, S[0]) < Key(key, B[|B| - 1]))
  {
    MergePassParts(E, i, mid, hi);
  }

  /** Merging keeps every key's subsequence: `inplace_merge` is stable. */
  lemma MergePassFilter(key: int -> int, P: seq<int>, A: seq<int>, B: seq<int>, S: seq<int>)
    requires Sorted(key, A)
    ensures forall k :: Filter(key, k, P + Merge(key, A, B) + S) == Filter(key, k, P + A + B + S)
  {
    forall k ensures Filter(key, k, P + Merge(key, A, B) + S) == Filter(key, k, P + A + B + S) {
      FilterAppend3(key, k, P, Merge(key, A, B), S);
      MergeStable(key, k, A, B);
      FilterAppend3(key, k, P, A + B, S);
      FilterAppend(key, k, A, B);
      Assoc(P, A, B);
    }
  }

  /** What one merge of `list_sort`'s inner loop does to the interior
      sequence P + A + B + S, where A and B are adjacent maximal runs:
      they become Merge(A, B), which removes exactly one descent and keeps
      the descent in front of S. */
  lemma MergePassStep(key: int -> int, P: seq<int>, A: seq<int>, B: seq<int>, S: seq<int>)
    requires A != [] && B != [] && Sorted(key, A) && Sorted(key, B)
    requires Key(key, B[0]) < Key(key, A[|A| - 1])
    requires S != [] ==> Key(key, S[0]) < Key(key, B[|B| - 1])
    requires P != [] ==> Key(key, A[0]) < Key(key, P[|P| - 1])
    ensures Descents(key, P + Merge(key, A, B) + S) + 1 == Descents(key, P + A + B + S)
    ensures Sorted(key, Merge(key, A, B))
    ensures S != [] ==> Key(key, S[0]) < Key(key, Merge(key, A, B)[|A| + |B| - 1])
  {
    MergeDescents(key, P, A, B, S);
    MergeEndsLast(key, A, B);
    MergeSorted(key, A, B);
  }

  lemma MergeEndsLast(key: int -> int, A: seq<int>, B: seq<int>)
    requires A != [] && B != [] && Sorted(key, A) && Sorted(key, B)
    ensures Key(key, B[|B| - 1]) <= Key(key, Merge(key, A, B)[|A| + |B| - 1])
  {
    var m := Merge(key, A, B);
    MergeEnds(key, A, B, m);
    LastAt(m, |A| + |B|);
  }

  lemma LastAt(m: seq<int>, n: int)
    requires |m| == n > 0
    ensures m[n - 1] == m[|m| - 1]
  {
  }

  /** Merging permutes P + A + B + S. */
  lemma MergePassMultiset(key: int -> int, P: seq<int>, A: seq<int>, B: seq<int>, S: seq<int>)
    ensures multiset(P + Merge(key, A, B) + S) == multiset(P + A + B + S)
  {
  }

  /** The part of the invariant of `list_sort`'s inner loop that every
      operation keeps: E is a stable permutation of E0. */
  ghost predicate StablePerm(key: int -> int, E0: seq<int>, E: seq<int>) {
    && |E| == |E0|
    && multiset(E) == multiset(E0)
    && (forall k :: Filter(key, k, E) == Filter(key, k, E0))
  }

  /** The rest of the invariant of the inner loop: position i is reached
      after `runs` merges, each of which removed one descent; the first
      output run is sorted, and a descent precedes position i. */
  ghost predicate PassShape(key: int -> int, E0: seq<int>, E: seq<int>, i: int, runs: nat) {
    && 0 <= i <= |E|
    && Descents(key, E) + runs == Descents(key, E0)
    && (runs == 0 <==> i == 0)
    && (runs == 1 ==> Sorted(key, E[..i]))
    && (0 < i < |E| ==> Key(key, E[i]) < Key(key, E[i - 1]))
  }

  /** A merge of the inner loop keeps `StablePerm` and `PassShape`,
      positions given as slices. */
  lemma PassInvStep(key: int -> int, E0: seq<int>, E: seq<int>, i: int, mid: int, hi: int, runs: nat)
    requires StablePerm(key, E0, E) && PassShape(key, E0, E, i, runs)
    requires i < mid < hi <= |E|
    requires Sorted(key, E[i..mid]) && Sorted(key, E[mid..hi])
    requires Key(key, E[mid]) < Key(key, E[mid - 1])
    requires hi < |E| ==> Key(key, E[hi]) < Key(key, E[hi - 1])
    ensures StablePerm(key, E0, E[..i] + Merge(key, E[i..mid], E[mid..hi]) + E[hi..])
    ensures PassShape(key, E0, E[..i] + Merge(key, E[i..mid], E[mid..hi]) + E[hi..], hi, runs + 1)
  {
    PermStep(key, E0, E, i, mid, hi);
    ShapeStep(key, E0, E, i, mid, hi, runs);
  }

  lemma PermStep(key: int -> int, E0: seq<int>, E: seq<int>, i: int, mid: int, hi: int)
    requires StablePerm(key, E0, E)
    requires 0 <= i < mid < hi <= |E|
    requires Sorted(key, E[i..mid])
    ensures StablePerm(key, E0, E[..i] + Merge(key, E[i..mid], E[mid..hi]) + E[hi..])
  {
    MergePassParts(E, i, mid, hi);
    PermMerge(key, E0, E[..i], E[i..mid], E[mid..hi], E[hi..]);
  }

  lemma ShapeStep(key: int -> int, E0: seq<int>, E: seq<int>, i: int, mid: int, hi: int, runs: nat)
    requires PassShape(key, E0, E, i, runs)
    requires 0 <= i < mid < hi <= |E|
    requires Sorted(key, E[i..mid]) && Sorted(key, E[mid..hi])
    requires Key(key, E[mid]) < Key(key, E[mid - 1])
    requires hi < |E| ==> Key(key, E[hi]) < Key(key, E[hi - 1])
    ensures PassShape(key, E0, E[..i] + Merge(key, E[i..mid], E[mid..hi]) + E[hi..], hi, runs + 1)
  {
    var P, A, B, S := E[..i], E[i..mid], E[mid..hi], E[hi..];
    ShapeSplit(key, E0, E, i, mid, hi, runs);
    ShapeMerge(key, E0, P, A, B, S, runs);
    ghost var E' := P + Merge(key, A, B) + S;
    ShapeAt(key, E0, E', E', |P| + |A| + |B|, hi, runs + 1);
  }

  /** `PassShape` and the two descents, read on the four slices. */
  lemma ShapeSplit(key: int -> int, E0: seq<int>, E: seq<int>, i: int, mid: int, hi: int, runs: nat)
    requires PassShape(key, E0, E, i, runs)
    requires 0 <= i < mid < hi <= |E|
    requires Key(key, E[mid]) < Key(key, E[mid - 1])
    requires hi < |E| ==> Key(key, E[hi]) < Key(key, E[hi - 1])
    ensures var P, A, B, S := E[..i], E[i..mid], E[mid..hi], E[hi..];
      && PassShape(key, E0, P + A + B + S, |P|, runs) && |P| + |A| + |B| == hi && A != [] && B != []
      && Key(key, B[0]) < Key(key, A[|A| - 1])
      && (S != [] ==> Key(key, S[0]) < Key(key, B[|B| - 1]))
  {
    var P, A, B, S := E[..i], E[i..mid], E[mid..hi], E[hi..];
    RunsAt(key, E, i, mid, hi);
    ShapeAt(key, E0, E, P + A + B + S, i, |P|, runs);
  }

  /** Merging keeps a stable permutation. */
  lemma PermMerge(key: int -> int, E0: seq<int>, P: seq<int>, A: seq<int>, B: seq<int>, S: seq<int>)
    requires StablePerm(key, E0, P + A + B + S) && Sorted(key, A)
    ensures StablePerm(key, E0, P + Merge(key, A, B) + S)
  {
    MergePassMultiset(key, P, A, B, S);
    MergePassFilter(key, P, A, B, S);
  }

  /** Merging two adjacent maximal runs keeps `PassShape` one merge on. */
  lemma ShapeMerge(key: int -> int, E0: seq<int>, P: seq<int>, A: seq<int>, B: seq<int>, S: seq<int>, runs: nat)
    requires PassShape(key, E0, P + A + B + S, |P|, runs)
    requires A != [] && B != [] && Sorted(key, A) && Sorted(key, B)
    requires Key(key, B[0]) < Key(key, A[|A| - 1])
    requires S != [] ==> Key(key, S[0]) < Key(key, B[|B| - 1])
    ensures PassShape(key, E0, P + Merge(key, A, B) + S, |P| + |A| + |B|, runs + 1)
  {
    var M := Merge(key, A, B);
    var E' := P + M + S;
    FrontDescent(key, P, A, B, S);
    assert Descents(key, E') + runs + 1 == Descents(key, E0) && Sorted(key, M)
        && (S != [] ==> Key(key, S[0]) < Key(key, M[|A| + |B| - 1])) by {
      MergePassStep(key, P, A, B, S);
    }
    assert runs + 1 == 1 ==> Sorted(key, E'[..|P| + |A| + |B|]) by {
      ConcatAt(P, M, S);
    }
    assert 0 < |P| + |A| + |B| < |E'| ==>
        Key(key, E'[|P| + |A| + |B|]) < Key(key, E'[|P| + |A| + |B| - 1]) by {
      ConcatAt(P, M, S);
    }
  }

  /** `PassShape` at a position given by two equal expressions. */
  lemma ShapeAt(key: int -> int, E0: seq<int>, E: seq<int>, E': seq<int>, i: int, j: int, runs: nat)
    requires E == E' && i == j && PassShape(key, E0, E, i, runs)
    ensures PassShape(key, E0, E', j, runs)
  {
  }

  /** The descent in front of position |P| of P + A + B + S. */
  lemma FrontDescent(key: int -> int, P: seq<int>, A: seq<int>, B: seq<int>, S: seq<int>)
    requires A != [] && (0 < |P| < |P + A + B + S| ==> Key(key, (P + A + B + S)[|P|]) < Key(key, (P + A + B + S)[|P| - 1]))
    ensures P != [] ==> Key(key, A[0]) < Key(key, P[|P| - 1])
  {
    var E := P + A + B + S;
    if P != [] {
      assert E[|P|] == A[0] && E[|P| - 1] == P[|P| - 1];
    }
  }

  /** Where the middle part of P + M + S sits. */
  lemma ConcatAt(P: seq<int>, M: seq<int>, S: seq<int>)
    requires M != []
    ensures (P + M + S)[|P| .. |P| + |M|] == M
    ensures (P + M + S)[|P| + |M| - 1] == M[|M| - 1]
    ensures S != [] ==> (P + M + S)[|P| + |M|] == S[0]
  {
  }

  /** The body of `list_sort`'s inner loop once a first run [i, mid) has
      been found and it does not reach the tail: finds the second run
      [mid, hi) and merges the two in place. */
  method MergeRunPair(l: List, a0: int, a1b0: int, key: int -> int, ghost E0: seq<int>,
                      ghost i: int, ghost mid: int, ghost runs: nat,
                      ghost nx0: seq<int>, ghost pv0: seq<int>, ghost c0: seq<int>)
    returns (b1: int, ghost hi: int)
    requires l.Valid() && StablePerm(key, E0, l.elems) && PassShape(key, E0, l.elems, i, runs)
    requires 0 <= i < mid < |l.elems| && l.Chain()[i + 1] == a0 && l.Chain()[mid + 1] == a1b0
    requires Sorted(key, l.elems[i..mid]) && Key(key, l.elems[mid]) < Key(key, l.elems[mid - 1])
    requires l.Untouched(nx0, pv0, c0) && multiset(l.Chain()) == multiset(c0)
    modifies l, l.mem.next, l.mem.prev
    ensures l.Valid() && StablePerm(key, E0, l.elems) && PassShape(key, E0, l.elems, hi, runs + 1)
    ensures mid < hi <= |l.elems| && b1 == l.Chain()[hi + 1]
    ensures l.Untouched(nx0, pv0, c0) && multiset(l.Chain()) == multiset(c0)
  {
    ghost var n := |l.elems|;
    b1, hi := FindEndOfRun(l, a1b0, l.tail, key, mid, n);
    MergeRuns(l, a0, a1b0, b1, key, E0, i, mid, hi, runs, nx0, pv0, c0);
  }

  /** The merge of two adjacent maximal runs [i, mid) and [mid, hi). */
  method MergeRuns(l: List, a0: int, a1b0: int, b1: int, key: int -> int, ghost E0: seq<int>,
                   ghost i: int, ghost mid: int, ghost hi: int, ghost runs: nat,
                   ghost nx0: seq<int>, ghost pv0: seq<int>, ghost c0: seq<int>)
    requires l.Valid() && StablePerm(key, E0, l.elems) && PassShape(key, E0, l.elems, i, runs)
    requires 0 <= i < mid < hi <= |l.elems|
    requires l.Chain()[i + 1] == a0 && l.Chain()[mid + 1] == a1b0 && l.Chain()[hi + 1] == b1
    requires Sorted(key, l.elems[i..mid]) && Key(key, l.elems[mid]) < Key(key, l.elems[mid - 1])
    requires Sorted(key, l.elems[mid..hi])
    requires hi < |l.elems| ==> Key(key, l.elems[hi]) < Key(key, l.elems[hi - 1])
    requires l.Untouched(nx0, pv0, c0) && multiset(l.Chain()) == multiset(c0)
    modifies l, l.mem.next, l.mem.prev
    ensures l.Valid() && StablePerm(key, E0, l.elems) && PassShape(key, E0, l.elems, hi, runs + 1)
    ensures |l.elems| == |old(l.elems)| && b1 == l.Chain()[hi + 1]
    ensures l.Untouched(nx0, pv0, c0) && multiset(l.Chain()) == multiset(c0)
  {
    ghost var E, nx1, pv1, c1 := l.elems, l.mem.next[..], l.mem.prev[..], l.Chain();
    PassInvStep(key, E0, E, i, mid, hi, runs);
    InplaceMerge(l, a0, a1b0, b1, key, i, mid, hi);
    MergedFrame(l.head, l.tail, E, Merge(key, E[i..mid], E[mid..hi]), i, hi);
    SameOutsideTrans(nx0, pv0, nx1, pv1, l.mem.next[..], l.mem.prev[..], c0, c1);
    ChainMultiset(l.head, l.tail, E, l.elems);
  }

  /** One pass of `list_sort`'s outer loop: walks the list merging each
      pair of adjacent maximal runs, and returns the number of output runs. */
  method SortPass(l: List, key: int -> int) returns (runs: nat)
    requires l.Valid()
    modifies l, l.mem.next, l.mem.prev
    ensures l.Valid()
    ensures multiset(l.elems) == multiset(old(l.elems))
    ensures forall k :: Filter(key, k, l.elems) == Filter(key, k, old(l.elems))
    ensures l.Untouched(old(l.mem.next[..]), old(l.mem.prev[..]), old(l.Chain()))
    ensures multiset(l.Chain()) == multiset(old(l.Chain()))
    ensures runs <= 1 ==> Sorted(key, l.elems)
    ensures runs > 1 ==> Descents(key, l.elems) < Descents(key, old(l.elems))
  {
    ghost var E0, c0, nx0, pv0 := l.elems, l.Chain(), l.mem.next[..], l.mem.prev[..];
    ghost var n := |l.elems|;
    ghost var i := 0;
    runs := 0;
    var a0 := l.Begin();
    while a0 != l.tail
      invariant l.Valid() && StablePerm(key, E0, l.elems) && PassShape(key, E0, l.elems, i, runs)
      invariant a0 == l.Chain()[i + 1]
      invariant l.Untouched(nx0, pv0, c0) && multiset(l.Chain()) == multiset(c0)
      decreases n - i
    {
      l.AtTail(i);
      var a1b0, mid := FindEndOfRun(l, a0, l.tail, key, i, n);
      l.AtTail(mid);
      if a1b0 == l.tail {
        PassLastRun(key, E0, l.elems, i, runs);
        runs := runs + 1;
        return;
      }
      var b1, hi := MergeRunPair(l, a0, a1b0, key, E0, i, mid, runs, nx0, pv0, c0);
      a0 := b1;
      i, runs := hi, runs + 1;
    }
    l.AtTail(i);
    PassEnd(key, E0, l.elems, i, runs);
  }

  /** The pass reached the tail with the last run merged. */
  lemma PassEnd(key: int -> int, E0: seq<int>, E: seq<int>, i: int, runs: nat)
    requires PassShape(key, E0, E, i, runs) && i == |E|
    ensures runs <= 1 ==> Sorted(key, E)
    ensures runs > 1 ==> Descents(key, E) < Descents(key, E0)
  {
    assert E[..i] == E;
  }

  /** The first run found at position i reaches the tail: the pass stops
      with one more output run and no further merge. */
  lemma PassLastRun(key: int -> int, E0: seq<int>, E: seq<int>, i: int, runs: nat)
    requires PassShape(key, E0, E, i, runs) && i < |E| && Sorted(key, E[i..|E|])
    ensures runs + 1 <= 1 ==> Sorted(key, E)
    ensures runs + 1 > 1 ==> Descents(key, E) < Descents(key, E0)
  {
    assert E[i..|E|] == E[i..];
    assert i == 0 ==> E[i..] == E;
  }

  /** Chains with the same sentinels and permuted interiors are permutations. */
  lemma ChainMultiset(h: int, t: int, E: seq<int>, E': seq<int>)
    requires multiset(E') == multiset(E)
    ensures multiset([h] + E' + [t]) == multiset([h] + E + [t])
  {
  }

  /** `list_sort`: repeats passes until a pass outputs at most one run;
      the result is sorted, a permutation of the input, and stable: for
      every key, the nodes with that key keep their relative order.  The
      closing `is_sorted` assertion of the source holds. */
  method Sort(l: List, key: int -> int)
    requires l.Valid()
    modifies l, l.mem.next, l.mem.prev
    ensures l.Valid()
    ensures Sorted(key, l.elems)
    ensures multiset(l.elems) == multiset(old(l.elems))
    ensures forall k :: Filter(key, k, l.elems) == Filter(key, k, old(l.elems))
    ensures l.Untouched(old(l.mem.next[..]), old(l.mem.prev[..]), old(l.Chain()))
  {
    ghost var E0, c0, nx0, pv0 := l.elems, l.Chain(), l.mem.next[..], l.mem.prev[..];
    var runs := SortPass(l, key);
    while runs > 1
      invariant l.Valid()
      invariant runs <= 1 ==> Sorted(key, l.elems)
      invariant multiset(l.elems) == multiset(E0)
      invariant forall k :: Filter(key, k, l.elems) == Filter(key, k, E0)
      invariant l.Untouched(nx0, pv0, c0) && multiset(l.Chain()) == multiset(c0)
      decreases if runs > 1 then Descents(key, l.elems) + 1 else 0
    {
      ghost var nx1, pv1, c1 := l.mem.next[..], l.mem.prev[..], l.Chain();
      runs := SortPass(l, key);
      SameOutsideTrans(nx0, pv0, nx1, pv1, l.mem.next[..], l.mem.prev[..], c0, c1);
    }
    l.Facts();
    var ok := IsSorted(l, l.Begin(), l.tail, key, 0, |l.elems|);
    assert l.elems[0..|l.elems|] == l.elems;
    assert ok;
  }

  /** `list_insert_ordered`: scans from the front for the first element
      `e` with less(x, e) and inserts `x` before it, or at the back when
      there is none.  The source does not check that the list is sorted;
      on a sorted list `InsertSorted` and `InsertStable` apply. */
  method InsertOrdered(l: List, x: int, key: int -> int)
    requires l.Valid()
    requires 0 <= x < l.mem.next.Length && x !in l.Chain()
    modifies l, l.mem.next, l.mem.prev
    ensures l.Valid()
    ensures var r := InsertPos(key, old(l.elems), x);
      l.elems == old(l.elems)[..r] + [x] + old(l.elems)[r..]
    ensures l.Untouched(old(l.mem.next[..]), old(l.mem.prev[..]), old(l.Chain()) + [x])
  {
    ghost var E := l.elems;
    var e := l.Begin();
    ghost var j := 0;
    while e != l.tail
      invariant l.Valid() && l.elems == E
      invariant l.mem.next[..] == old(l.mem.next[..]) && l.mem.prev[..] == old(l.mem.prev[..])
      invariant 0 <= j <= |E| && e == l.Chain()[j + 1]
      invariant forall t :: 0 <= t < j ==> Key(key, E[t]) <= Key(key, x)
      decreases |E| - j
    {
      l.AtTail(j);
      if Key(key, x) < Key(key, e) {
        break;
      }
      e := l.Next(e, j + 1);
      j := j + 1;
    }
    l.AtTail(j);
    InsertPosIs(key, E, x, j);
    l.Insert(e, x, j + 1);
  }

  /** The two lists `list_unique` works on share one arena, and their
      chains have no node in common. */
  ghost predicate Apart(l: List, d: List)
    reads l, d, l.mem.next, l.mem.prev
  {
    && d != l && d.mem == l.mem && d.Valid()
    && forall n :: n in l.Chain() ==> n !in d.Chain()
  }

  /** Removing a node from `l` leaves the other list `d` valid and apart. */
  lemma ApartAfterRemove(l: List, d: List, nx: seq<int>, pv: seq<int>, c: seq<int>, dc: seq<int>)
    requires l.Valid() && d.mem == l.mem && d != l && d.Chain() == dc
    requires Linked(nx, pv, dc) && l.Untouched(nx, pv, c)
    requires forall n :: n in l.Chain() ==> n in c
    requires forall n :: n in c ==> n !in dc
    ensures Apart(l, d)
  {
    DisjointFrom(dc, c);
    LinkedAway(nx, pv, l.mem.next[..], l.mem.prev[..], dc, c);
  }

  lemma DisjointFrom(a: seq<int>, b: seq<int>)
    requires forall n :: n in b ==> n !in a
    ensures Disjoint(a, b)
  {
    forall i, j | 0 <= i < |a| && 0 <= j < |b| ensures a[i] != b[j] {
      assert b[j] in b;
    }
  }

  lemma DroppedIn(c: seq<int>, i: int, t: seq<int>)
    requires 0 <= i < |c| && forall n :: n in c ==> n in t
    ensures forall n :: n in c[..i] + c[i + 1..] ==> n in t
  {
    forall n | n in c[..i] + c[i + 1..] ensures n in t {
      if n in c[..i] {
        var k :| 0 <= k < i && c[..i][k] == n;
        assert c[k] in c;
      } else {
        var k :| 0 <= k < |c| - i - 1 && c[i + 1..][k] == n;
        assert c[i + 1 + k] in c;
      }
    }
  }

  /** The node `list_unique` removes goes to the back of `d`: `l`
      stays valid and apart. */
  method MoveToDuplicates(l: List, d: List, x: int, ghost c: seq<int>)
    requires l.Valid() && Apart(l, d) && 0 <= x < l.mem.next.Length
    requires x in c && x !in l.Chain() && forall n :: n in l.Chain() ==> n in c
    requires forall n :: n in c ==> n !in d.Chain()
    modifies d, l.mem.next, l.mem.prev
    ensures l.Valid() && Apart(l, d) && l.elems == old(l.elems)
    ensures d.elems == old(d.elems) + [x]
    ensures d.Untouched(old(l.mem.next[..]), old(l.mem.prev[..]), old(d.Chain()) + [x])
  {
    ghost var nx, pv, lc, dc := l.mem.next[..], l.mem.prev[..], l.Chain(), d.Chain();
    assert x !in dc;
    d.PushBack(x);
    assert forall n :: n in d.Chain() ==> n in dc || n == x;
    DisjointFrom(lc, dc + [x]);
    LinkedAway(nx, pv, l.mem.next[..], l.mem.prev[..], lc, dc + [x]);
  }

  /** What stays true across `list_unique`: both lists valid and apart,
      and every link outside the nodes `t` they started with unchanged. */
  ghost predicate WithinNodes(l: List, dups: List?, nx0: seq<int>, pv0: seq<int>, t: seq<int>)
    reads l, dups, l.mem.next, l.mem.prev
  {
    && l.Valid()
    && (forall n :: n in l.Chain() ==> n in t)
    && (dups != null ==> Apart(l, dups) && forall n :: n in dups.Chain() ==> n in t)
    && SameOutside(nx0, pv0, l.mem.next[..], l.mem.prev[..], t)
  }

  /** The removing branch of `list_unique`: the element at chain position
      `i` leaves `l` and, when `dups` is not null, joins its back. */
  method DropDuplicate(l: List, dups: List?, x: int, ghost i: int,
                       ghost nx0: seq<int>, ghost pv0: seq<int>, ghost t: seq<int>)
    requires WithinNodes(l, dups, nx0, pv0, t)
    requires 1 <= i <= |l.elems| && l.Chain()[i] == x
    modifies l, dups, l.mem.next, l.mem.prev
    ensures WithinNodes(l, dups, nx0, pv0, t)
    ensures l.elems == old(l.elems[..i - 1] + l.elems[i..])
    ensures dups != null ==> dups.elems == old(dups.elems) + [x]
  {
    ghost var nx1, pv1, c1 := l.mem.next[..], l.mem.prev[..], l.Chain();
    ghost var dc := if dups != null then dups.Chain() else [];
    RemoveWithin(l, x, i, nx0, pv0, t);
    if dups != null {
      PassOn(l, dups, x, nx0, pv0, t, nx1, pv1, c1, dc);
    }
  }

  /** `list_remove` of the element at chain position i, which keeps every
      node of `l` among the nodes `t` and every link outside `t` as it was. */
  method RemoveWithin(l: List, x: int, ghost i: int, ghost nx0: seq<int>, ghost pv0: seq<int>, ghost t: seq<int>)
    requires l.Valid() && (forall n :: n in l.Chain() ==> n in t)
    requires SameOutside(nx0, pv0, l.mem.next[..], l.mem.prev[..], t)
    requires 1 <= i <= |l.elems| && l.Chain()[i] == x
    modifies l, l.mem.next, l.mem.prev
    ensures l.Valid() && l.elems == old(l.elems[..i - 1] + l.elems[i..])
    ensures forall n :: n in l.Chain() ==> n in t
    ensures SameOutside(nx0, pv0, l.mem.next[..], l.mem.prev[..], t)
    ensures l.Untouched(old(l.mem.next[..]), old(l.mem.prev[..]), old(l.Chain()))
    ensures x in old(l.Chain()) && x !in l.Chain() && 0 <= x < l.mem.next.Length && x in t
    ensures forall n :: n in l.Chain() ==> n in old(l.Chain())
  {
    ghost var nx1, pv1, c1 := l.mem.next[..], l.mem.prev[..], l.Chain();
    assert Linked(nx1, pv1, c1) && x == c1[i];
    var _ := l.Remove(x, i);
    assert l.Chain() == c1[..i] + c1[i + 1..];
    DroppedIn(c1, i, t);
    DroppedIn(c1, i, c1);
    DistinctDropped(c1, i);
    SameOutsideSub(nx0, pv0, nx1, pv1, l.mem.next[..], l.mem.prev[..], t, c1);
  }

  /** The node just removed from `l` joins the back of `dups`. */
  method PassOn(l: List, dups: List, x: int, ghost nx0: seq<int>, ghost pv0: seq<int>, ghost t: seq<int>,
                ghost nx1: seq<int>, ghost pv1: seq<int>, ghost c1: seq<int>, ghost dc: seq<int>)
    requires l.Valid() && dups.mem == l.mem && dups != l && dups.Chain() == dc
    requires Linked(nx1, pv1, dc) && l.Untouched(nx1, pv1, c1)
    requires forall n :: n in l.Chain() ==> n in c1
    requires forall n :: n in c1 ==> n !in dc
    requires x in c1 && x !in l.Chain() && 0 <= x < l.mem.next.Length
    requires forall n :: n in l.Chain() ==> n in t
    requires forall n :: n in dc ==> n in t
    requires x in t && SameOutside(nx0, pv0, l.mem.next[..], l.mem.prev[..], t)
    modifies dups, l.mem.next, l.mem.prev
    ensures WithinNodes(l, dups, nx0, pv0, t) && l.elems == old(l.elems)
    ensures dups.elems == old(dups.elems) + [x]
  {
    ApartAfterRemove(l, dups, nx1, pv1, c1, dc);
    ghost var nx2, pv2 := l.mem.next[..], l.mem.prev[..];
    MoveToDuplicates(l, dups, x, c1);
    SameOutsideSub(nx0, pv0, nx2, pv2, l.mem.next[..], l.mem.prev[..], t, dc + [x]);
  }

  lemma DistinctDropped(c: seq<int>, i: int)
    requires 0 <= i < |c| && Distinct(c)
    ensures c[i] !in c[..i] + c[i + 1..]
  {
  }

  /** The state `list_unique` keeps after visiting the first `m` of the
      original elements `E`: the survivors of `E[..m]` followed by the rest,
      `elem` the last survivor and `next` the element after it, and the
      removed ones at the back of `dups`. */
  ghost predicate UniqueInv(l: List, dups: List?, key: int -> int, elem: int, next: int,
                            E: seq<int>, m: int, D0: seq<int>,
                            nx0: seq<int>, pv0: seq<int>, t0: seq<int>)
    reads l, dups, l.mem.next, l.mem.prev
  {
    && WithinNodes(l, dups, nx0, pv0, t0) && 1 <= m <= |E|
    && l.elems == ListOrder.Unique(key, E[..m]) + E[m..]
    && elem == l.Chain()[|ListOrder.Unique(key, E[..m])|]
    && next == l.Chain()[|ListOrder.Unique(key, E[..m])| + 1]
    && (dups != null ==> dups.elems == D0 + Dups(key, E[..m]))
  }

  /** One iteration of `list_unique`: `next` is compared with the last
      survivor `elem` and either dropped or kept. */
  method UniqueVisit(l: List, dups: List?, key: int -> int, elem: int, next: int,
                     ghost E: seq<int>, ghost m: int, ghost D0: seq<int>,
                     ghost nx0: seq<int>, ghost pv0: seq<int>, ghost t0: seq<int>)
      returns (elem': int, next': int)
    requires UniqueInv(l, dups, key, elem, next, E, m, D0, nx0, pv0, t0)
    requires next != l.tail
    modifies l, dups, l.mem.next, l.mem.prev
    ensures m < |E| && UniqueInv(l, dups, key, elem', next', E, m + 1, D0, nx0, pv0, t0)
  {
    VisitFacts(l, dups, key, elem, next, E, m, D0, nx0, pv0, t0);
    if !(Key(key, elem) < Key(key, next)) && !(Key(key, next) < Key(key, elem)) {
      elem', next' := UniqueDrop(l, dups, key, elem, next, E, m, D0, nx0, pv0, t0);
    } else {
      elem', next' := UniqueKeep(l, dups, key, elem, next, E, m, D0, nx0, pv0, t0);
    }
  }

  /** What the visit of `next` learns: it is `E[m]`, and whether it
      survives depends only on its key against that of `elem`. */
  lemma VisitFacts(l: List, dups: List?, key: int -> int, elem: int, next: int,
                   E: seq<int>, m: int, D0: seq<int>, nx0: seq<int>, pv0: seq<int>, t0: seq<int>)
    requires UniqueInv(l, dups, key, elem, next, E, m, D0, nx0, pv0, t0)
    requires next != l.tail
    ensures m < |E| && next == E[m] && E[m..] == [next] + E[m + 1..]
    ensures Key(key, elem) == Key(key, next) ==>
      ListOrder.Unique(key, E[..m + 1]) == ListOrder.Unique(key, E[..m])
      && Dups(key, E[..m + 1]) == Dups(key, E[..m]) + [next]
    ensures Key(key, elem) != Key(key, next) ==>
      ListOrder.Unique(key, E[..m + 1]) == ListOrder.Unique(key, E[..m]) + [next]
      && Dups(key, E[..m + 1]) == Dups(key, E[..m])
  {
    ghost var u := ListOrder.Unique(key, E[..m]);
    l.AtTail(|u|);
    UniqueStep(key, E, m);
    assert elem == u[|u| - 1];
  }

  /** The dropping branch of one visit: `next` equals `elem` in key. */
  method UniqueDrop(l: List, dups: List?, key: int -> int, elem: int, next: int,
                    ghost E: seq<int>, ghost m: int, ghost D0: seq<int>,
                    ghost nx0: seq<int>, ghost pv0: seq<int>, ghost t0: seq<int>)
      returns (elem': int, next': int)
    requires UniqueInv(l, dups, key, elem, next, E, m, D0, nx0, pv0, t0)
    requires m < |E| && next == E[m] && E[m..] == [next] + E[m + 1..]
    requires ListOrder.Unique(key, E[..m + 1]) == ListOrder.Unique(key, E[..m])
    requires Dups(key, E[..m + 1]) == Dups(key, E[..m]) + [next]
    modifies l, dups, l.mem.next, l.mem.prev
    ensures elem' == elem && UniqueInv(l, dups, key, elem', next', E, m + 1, D0, nx0, pv0, t0)
  {
    ghost var u, rest := ListOrder.Unique(key, E[..m]), E[m + 1..];
    ChainAt(l, u, [next] + rest);
    assert l.elems[..|u|] == u && l.elems[|u| + 1..] == rest;
    DropDuplicate(l, dups, next, |u| + 1, nx0, pv0, t0);
    ChainAt(l, u, rest);
    assert dups != null ==> dups.elems == D0 + Dups(key, E[..m + 1]);
    elem' := elem;
    next' := l.Next(elem', |u|);
  }

  /** Chain positions around the boundary of `l.elems == u + rest`. */
  lemma ChainAt(l: List, u: seq<int>, rest: seq<int>)
    requires l.elems == u + rest
    ensures |l.Chain()| == |u| + |rest| + 2
    ensures u != [] ==> l.Chain()[|u|] == u[|u| - 1]
    ensures rest != [] ==> l.Chain()[|u| + 1] == rest[0]
  {
  }

  /** The keeping branch of one visit: `next` becomes the last survivor. */
  method UniqueKeep(l: List, dups: List?, key: int -> int, elem: int, next: int,
                    ghost E: seq<int>, ghost m: int, ghost D0: seq<int>,
                    ghost nx0: seq<int>, ghost pv0: seq<int>, ghost t0: seq<int>)
      returns (elem': int, next': int)
    requires UniqueInv(l, dups, key, elem, next, E, m, D0, nx0, pv0, t0)
    requires m < |E| && next == E[m] && E[m..] == [next] + E[m + 1..]
    requires ListOrder.Unique(key, E[..m + 1]) == ListOrder.Unique(key, E[..m]) + [next]
    requires Dups(key, E[..m + 1]) == Dups(key, E[..m])
    ensures elem' == next && UniqueInv(l, dups, key, elem', next', E, m + 1, D0, nx0, pv0, t0)
  {
    ghost var u := ListOrder.Unique(key, E[..m]);
    assert l.elems == (u + [next]) + E[m + 1..];
    elem' := next;
    next' := l.Next(elem', |u| + 1);
  }

  /** `list_unique`: walks the list keeping, of each group of adjacent
      elements equal under `less`, the first one; the others are removed
      and, when `dups` is not null, appended to it in the order met. */
  method Unique(l: List, dups: List?, key: int -> int)
    requires l.Valid()
    requires dups != null ==> Apart(l, dups)
    modifies l, dups, l.mem.next, l.mem.prev
    ensures l.Valid() && l.elems == ListOrder.Unique(key, old(l.elems))
    ensures dups != null ==> Apart(l, dups) && dups.elems == old(dups.elems) + Dups(key, old(l.elems))
    ensures dups == null ==> l.Untouched(old(l.mem.next[..]), old(l.mem.prev[..]), old(l.Chain()))
    ensures dups != null ==>
      l.Untouched(old(l.mem.next[..]), old(l.mem.prev[..]), old(l.Chain()) + old(dups.Chain()))
  {
    ghost var E, nx0, pv0 := l.elems, l.mem.next[..], l.mem.prev[..];
    ghost var t0 := l.Chain() + if dups != null then dups.Chain() else [];
    ghost var D0 := if dups != null then dups.elems else [];
    assert t0 == old(l.Chain()) + (if dups != null then old(dups.Chain()) else []);
    assert WithinNodes(l, dups, nx0, pv0, t0);
    if l.Empty() {
      assert l.Chain() + [] == l.Chain();
      return;
    }
    var elem := l.Begin();
    var next := l.Next(elem, 1);
    UniqueFirst(l, dups, key, elem, next, E, D0, nx0, pv0, t0);
    elem, next := UniqueWalk(l, dups, key, elem, next, E, D0, nx0, pv0, t0);
    UniqueLast(l, dups, key, elem, next, E, |E|, D0, nx0, pv0, t0);
  }

  /** The loop of `list_unique`, from the first element to the end. */
  method UniqueWalk(l: List, dups: List?, key: int -> int, elem: int, next: int,
                    ghost E: seq<int>, ghost D0: seq<int>,
                    ghost nx0: seq<int>, ghost pv0: seq<int>, ghost t0: seq<int>)
      returns (elem': int, next': int)
    requires UniqueInv(l, dups, key, elem, next, E, 1, D0, nx0, pv0, t0)
    modifies l, dups, l.mem.next, l.mem.prev
    ensures UniqueInv(l, dups, key, elem', next', E, |E|, D0, nx0, pv0, t0) && next' == l.tail
  {
    elem', next' := elem, next;
    ghost var m := 1;
    while next' != l.tail
      invariant UniqueInv(l, dups, key, elem', next', E, m, D0, nx0, pv0, t0)
      decreases |E| - m
    {
      elem', next' := UniqueVisit(l, dups, key, elem', next', E, m, D0, nx0, pv0, t0);
      m := m + 1;
    }
    l.AtTail(|ListOrder.Unique(key, E[..m])|);
  }

  lemma UniqueFirst(l: List, dups: List?, key: int -> int, elem: int, next: int,
                    E: seq<int>, D0: seq<int>, nx0: seq<int>, pv0: seq<int>, t0: seq<int>)
    requires WithinNodes(l, dups, nx0, pv0, t0) && l.elems == E != []
    requires elem == l.Chain()[1] && next == l.Chain()[2]
    requires dups != null ==> dups.elems == D0
    ensures UniqueInv(l, dups, key, elem, next, E, 1, D0, nx0, pv0, t0)
  {
    assert E[..1] == [E[0]];
  }

  lemma UniqueLast(l: List, dups: List?, key: int -> int, elem: int, next: int,
                   E: seq<int>, m: int, D0: seq<int>, nx0: seq<int>, pv0: seq<int>, t0: seq<int>)
    requires UniqueInv(l, dups, key, elem, next, E, m, D0, nx0, pv0, t0) && next == l.tail
    ensures l.Valid() && l.elems == ListOrder.Unique(key, E)
    ensures dups != null ==> Apart(l, dups) && dups.elems == D0 + Dups(key, E)
    ensures SameOutside(nx0, pv0, l.mem.next[..], l.mem.prev[..], t0)
  {
    l.AtTail(|ListOrder.Unique(key, E[..m])|);
    assert E[..m] == E;
  }

  /** `list_max`: the tail of an empty list, otherwise the first element
      of largest key; a later element replaces the candidate only when the
      candidate is strictly less. */
  method Max(l: List, key: int -> int) returns (r: int)
    requires l.Valid()
    ensures l.elems == [] ==> r == l.tail
    ensures l.elems != [] ==> exists i :: FirstMax(key, l.elems, i) && l.elems[i] == r
  {
    r := l.Begin();
    if r != l.tail {
      l.AtTail(0);
      var e := l.Next(r, 1);
      ghost var j, mi := 1, 0;
      while e != l.tail
        invariant 1 <= j <= |l.elems| && e == l.Chain()[j + 1]
        invariant 0 <= mi < j && r == l.elems[mi]
        invariant forall t :: 0 <= t < mi ==> Key(key, l.elems[t]) < Key(key, r)
        invariant forall t :: 0 <= t < j ==> Key(key, l.elems[t]) <= Key(key, r)
        decreases |l.elems| - j
      {
        l.AtTail(j);
        if Key(key, r) < Key(key, e) {
          r, mi := e, j;
        }
        e := l.Next(e, j + 1);
        j := j + 1;
      }
      l.AtTail(j);
      assert FirstMax(key, l.elems, mi);
    }
  }

  /** `list_min`: the tail of an empty list, otherwise the first element
      of smallest key. */
  method Min(l: List, key: int -> int) returns (r: int)
    requires l.Valid()
    ensures l.elems == [] ==> r == l.tail
    ensures l.elems != [] ==> exists i :: FirstMin(key, l.elems, i) && l.elems[i] == r
  {
    r := l.Begin();
    if r != l.tail {
      l.AtTail(0);
      var e := l.Next(r, 1);
      ghost var j, mi := 1, 0;
      while e != l.tail
        invariant 1 <= j <= |l.elems| && e == l.Chain()[j + 1]
        invariant 0 <= mi < j && r == l.elems[mi]
        invariant forall t :: 0 <= t < mi ==> Key(key, r) < Key(key, l.elems[t])
        invariant forall t :: 0 <= t < j ==> Key(key, r) <= Key(key, l.elems[t])
        decreases |l.elems| - j
      {
        l.AtTail(j);
        if Key(key, e) < Key(key, r) {
          r, mi := e, j;
        }
        e := l.Next(e, j + 1);
        j := j + 1;
      }
      l.AtTail(j);
      assert FirstMin(key, l.elems, mi);
    }
  }
}
