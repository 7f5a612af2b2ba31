/** Order-related specifications for the list operations that take a
    `list_less_func`.

    The comparator is modelled as a strict order on per-node integer keys:
    `less (a, b)` is `Key(key, a) < Key(key, b)`, which is true iff a < b
    and false when a >= b, as the `list_less_func` contract asks.  Two
    nodes are "equal" under `less` when neither is less than the other,
    i.e. when their keys coincide.  Node identities are distinct, so they
    serve as the secondary tag that makes stability observable: a stable
    operation keeps, for every key value k, the subsequence of nodes whose
    key is k unchanged (`Filter`). */
module ListOrder {

  /** The value the comparator looks at in node `n`. */
  function Key(key: int -> int, n: int): int {
    key(n)
  }

  /** Nondecreasing under `less`. */
  ghost predicate Sorted(key: int -> int, s: seq<int>) {
    forall i, j :: 0 <= i < j < |s| ==> Key(key, s[i]) <= Key(key, s[j])
  }

  /** No element is `less` than its predecessor: what `is_sorted` checks. */
  ghost predicate NoDescent(key: int -> int, s: seq<int>) {
    forall i :: 0 < i < |s| ==> !(Key(key, s[i]) < Key(key, s[i - 1]))
  }

  lemma {:induction false} NoDescentIsSorted(key: int -> int, s: seq<int>)
    ensures NoDescent(key, s) <==> Sorted(key, s)
  {
    if NoDescent(key, s) && |s| > 1 {
      NoDescentIsSorted(key, s[1..]);
      assert NoDescent(key, s[1..]) by {
        forall i | 0 < i < |s| - 1 ensures !(Key(key, s[1..][i]) < Key(key, s[1..][i - 1])) {
          assert s[1..][i] == s[i + 1] && s[1..][i - 1] == s[i];
        }
      }
      forall i, j | 0 <= i < j < |s| ensures Key(key, s[i]) <= Key(key, s[j]) {
        if i > 0 {
          assert s[i] == s[1..][i - 1] && s[j] == s[1..][j - 1];
        } else if j > 1 {
          assert s[1] == s[1..][0] && s[j] == s[1..][j - 1];
        }
      }
    }
  }

  /** A descent at position i makes every range around it unsorted. */
  lemma DescentUnsorted(key: int -> int, s: seq<int>, f: int, g: int, i: int)
    requires 0 <= f < i < g <= |s| && Key(key, s[i]) < Key(key, s[i - 1])
    ensures !Sorted(key, s[f..g])
  {
    assert s[f..g][i - f] == s[i] && s[f..g][i - f - 1] == s[i - 1];
  }

  lemma NoDescentExtend(key: int -> int, s: seq<int>, f: int, i: int)
    requires 0 <= f < i < |s|
    requires NoDescent(key, s[f..i]) && !(Key(key, s[i]) < Key(key, s[i - 1]))
    ensures NoDescent(key, s[f..i + 1])
  {
    var t, u := s[f..i + 1], s[f..i];
    forall k | 0 < k < |t| ensures !(Key(key, t[k]) < Key(key, t[k - 1])) {
      if k < |u| {
        assert t[k] == u[k] && t[k - 1] == u[k - 1];
      }
    }
  }

  /** The nodes of `s` whose key is `k`, in order. */
  function Filter(key: int -> int, k: int, s: seq<int>): seq<int> {
    if s == [] then []
    else (if Key(key, s[0]) == k then [s[0]] else []) + Filter(key, k, s[1..])
  }

  lemma {:induction false} FilterAppend(key: int -> int, k: int, a: seq<int>, b: seq<int>)
    ensures Filter(key, k, a + b) == Filter(key, k, a) + Filter(key, k, b)
  {
    if a != [] {
      var h := if Key(key, a[0]) == k then [a[0]] else [];
      assert (a + b)[0] == a[0];
      assert (a + b)[1..] == a[1..] + b;
      FilterAppend(key, k, a[1..], b);
      calc {
        Filter(key, k, a + b);
        h + Filter(key, k, a[1..] + b);
        h + (Filter(key, k, a[1..]) + Filter(key, k, b));
        (h + Filter(key, k, a[1..])) + Filter(key, k, b);
      }
    } else {
      assert a + b == b;
    }
  }

  lemma {:induction false} FilterNone(key: int -> int, k: int, s: seq<int>)
    requires forall i :: 0 <= i < |s| ==> Key(key, s[i]) != k
    ensures Filter(key, k, s) == []
  {
    if s != [] {
      FilterNone(key, k, s[1..]);
    }
  }

  /** `Filter` of a three-way concatenation, the shape every relinking
      step leaves behind. */
  lemma FilterAppend3(key: int -> int, k: int, a: seq<int>, b: seq<int>, c: seq<int>)
    ensures Filter(key, k, a + b + c) == Filter(key, k, a) + Filter(key, k, b) + Filter(key, k, c)
  {
    FilterAppend(key, k, a + b, c);
    FilterAppend(key, k, a, b);
  }

  /** Stable two-way merge, as `inplace_merge` performs it: an element of
      the right run goes first only when it is strictly `less` than the
      current element of the left run. */
  function Merge(key: int -> int, a: seq<int>, b: seq<int>): (m: seq<int>)
    ensures |m| == |a| + |b|
    ensures multiset(m) == multiset(a) + multiset(b)
    decreases |a| + |b|
  {
    if a == [] then b
    else if b == [] then a
    else if Key(key, b[0]) < Key(key, a[0]) then
      assert b == [b[0]] + b[1..];
      [b[0]] + Merge(key, a, b[1..])
    else
      assert a == [a[0]] + a[1..];
      [a[0]] + Merge(key, a[1..], b)
  }

  lemma SortedTail(key: int -> int, s: seq<int>)
    requires Sorted(key, s) && s != []
    ensures Sorted(key, s[1..])
    ensures forall x :: x in multiset(s[1..]) ==> Key(key, s[0]) <= Key(key, x)
  {
    forall x | x in multiset(s[1..]) ensures Key(key, s[0]) <= Key(key, x) {
      var j :| 0 <= j < |s[1..]| && s[1..][j] == x;
      assert s[1..][j] == s[j + 1];
    }
  }

  lemma SortedCons(key: int -> int, x: int, s: seq<int>)
    requires Sorted(key, s)
    requires forall y :: y in multiset(s) ==> Key(key, x) <= Key(key, y)
    ensures Sorted(key, [x] + s)
  {
    var r := [x] + s;
    forall i, j | 0 <= i < j < |r| ensures Key(key, r[i]) <= Key(key, r[j]) {
      assert r[j] == s[j - 1];
      assert s[j - 1] in multiset(s);
      if i > 0 { assert r[i] == s[i - 1]; }
    }
  }

  /** Merging two sorted runs gives a sorted run. */
  lemma {:induction false} MergeSorted(key: int -> int, a: seq<int>, b: seq<int>)
    requires Sorted(key, a) && Sorted(key, b)
    ensures Sorted(key, Merge(key, a, b))
    decreases |a| + |b|
  {
    if a != [] && b != [] {
      SortedTail(key, a);
      SortedTail(key, b);
      if Key(key, b[0]) < Key(key, a[0]) {
        MergeSorted(key, a, b[1..]);
        var m := Merge(key, a, b[1..]);
        forall y | y in multiset(m) ensures Key(key, b[0]) <= Key(key, y) {
          if y in multiset(a) {
            var j :| 0 <= j < |a| && a[j] == y;
            assert j == 0 || Key(key, a[0]) <= Key(key, a[j]);
          }
        }
        SortedCons(key, b[0], m);
      } else {
        MergeSorted(key, a[1..], b);
        var m := Merge(key, a[1..], b);
        forall y | y in multiset(m) ensures Key(key, a[0]) <= Key(key, y) {
          if y in multiset(b) {
            var j :| 0 <= j < |b| && b[j] == y;
            assert j == 0 || Key(key, b[0]) <= Key(key, b[j]);
          }
        }
        SortedCons(key, a[0], m);
      }
    }
  }

  lemma FilterCons(key: int -> int, k: int, x: int, s: seq<int>)
    ensures Filter(key, k, [x] + s) == (if Key(key, x) == k then [x] else []) + Filter(key, k, s)
  {
    assert ([x] + s)[0] == x && ([x] + s)[1..] == s;
  }

  /** Stability of the merge: for every key value, the nodes with that key
      come out in left-run order followed by right-run order. */
  lemma {:induction false} MergeStable(key: int -> int, k: int, a: seq<int>, b: seq<int>)
    requires Sorted(key, a)
    ensures Filter(key, k, Merge(key, a, b)) == Filter(key, k, a) + Filter(key, k, b)
    decreases |a| + |b|
  {
    if a == [] {
      assert Filter(key, k, a) + Filter(key, k, b) == Filter(key, k, b);
    } else if b == [] {
      assert Filter(key, k, a) + Filter(key, k, b) == Filter(key, k, a);
    } else if Key(key, b[0]) < Key(key, a[0]) {
      MergeStable(key, k, a, b[1..]);
      MergeStableRight(key, k, a, b);
    } else {
      SortedTail(key, a);
      MergeStable(key, k, a[1..], b);
      MergeStableLeft(key, k, a, b);
    }
  }

  /** The step of `MergeStable` where the front of the right run goes
      first: no node of the left run can share its key. */
  lemma MergeStableRight(key: int -> int, k: int, a: seq<int>, b: seq<int>)
    requires a != [] && b != [] && Sorted(key, a) && Key(key, b[0]) < Key(key, a[0])
    requires Filter(key, k, Merge(key, a, b[1..])) == Filter(key, k, a) + Filter(key, k, b[1..])
    ensures Filter(key, k, Merge(key, a, b)) == Filter(key, k, a) + Filter(key, k, b)
  {
    var m := Merge(key, a, b[1..]);
    assert Merge(key, a, b) == [b[0]] + m;
    FilterCons(key, k, b[0], m);
    assert b == [b[0]] + b[1..];
    FilterCons(key, k, b[0], b[1..]);
    if Key(key, b[0]) == k {
      KeyAbsent(key, k, a);
      HitFirst(b[0], Filter(key, k, a), Filter(key, k, b[1..]));
    } else {
      EmptyLeft(Filter(key, k, m));
      EmptyLeft(Filter(key, k, b[1..]));
    }
  }

  /** Sequence algebra for the step above when the moved node has key `k`. */
  lemma HitFirst(x: int, fa: seq<int>, fb: seq<int>)
    requires fa == []
    ensures [x] + (fa + fb) == fa + ([x] + fb)
  {
  }

  /** A sorted run whose first key is above `k` holds no node with key `k`. */
  lemma KeyAbsent(key: int -> int, k: int, a: seq<int>)
    requires a != [] && Sorted(key, a) && k < Key(key, a[0])
    ensures Filter(key, k, a) == []
  {
    forall i | 0 <= i < |a| ensures Key(key, a[i]) != k {
      assert i == 0 || Key(key, a[0]) <= Key(key, a[i]);
    }
    FilterNone(key, k, a);
  }

  lemma EmptyLeft(s: seq<int>)
    ensures [] + s == s
  {
  }

  /** The step of `MergeStable` where the front of the left run goes first. */
  lemma MergeStableLeft(key: int -> int, k: int, a: seq<int>, b: seq<int>)
    requires a != [] && b != [] && !(Key(key, b[0]) < Key(key, a[0]))
    requires Filter(key, k, Merge(key, a[1..], b)) == Filter(key, k, a[1..]) + Filter(key, k, b)
    ensures Filter(key, k, Merge(key, a, b)) == Filter(key, k, a) + Filter(key, k, b)
  {
    var m := Merge(key, a[1..], b);
    var h := if Key(key, a[0]) == k then [a[0]] else [];
    assert Filter(key, k, Merge(key, a, b)) == h + Filter(key, k, m) by {
      assert Merge(key, a, b) == [a[0]] + m;
      FilterCons(key, k, a[0], m);
    }
    assert Filter(key, k, a) == h + Filter(key, k, a[1..]);
    Assoc(h, Filter(key, k, a[1..]), Filter(key, k, b));
  }

  /** Sorted, and every node of `b` is in it: the last node has the
      largest key; symmetrically for the first. */
  lemma SortedEnds(key: int -> int, m: seq<int>, x: int)
    requires Sorted(key, m) && x in multiset(m)
    ensures Key(key, m[0]) <= Key(key, x) <= Key(key, m[|m| - 1])
  {
    var j :| 0 <= j < |m| && m[j] == x;
  }

  /** Number of places where an element is `less` than its predecessor. */
  function Descents(key: int -> int, s: seq<int>): nat {
    if |s| < 2 then 0
    else (if Key(key, s[1]) < Key(key, s[0]) then 1 else 0) + Descents(key, s[1..])
  }

  lemma {:induction false} DescentsAppend(key: int -> int, a: seq<int>, b: seq<int>)
    requires a != [] && b != []
    ensures Descents(key, a + b)
         == Descents(key, a) + Descents(key, b)
            + (if Key(key, b[0]) < Key(key, a[|a| - 1]) then 1 else 0)
  {
    if |a| > 1 {
      assert (a + b)[1..] == a[1..] + b;
      DescentsAppend(key, a[1..], b);
    } else {
      assert a + b == [a[0]] + b;
    }
  }

  lemma {:induction false} SortedNoDescents(key: int -> int, s: seq<int>)
    requires Sorted(key, s)
    ensures Descents(key, s) == 0
  {
    if |s| >= 2 {
      SortedTail(key, s);
      SortedNoDescents(key, s[1..]);
    }
  }

  /** Descents of a three-part sequence with a non-empty middle part. */
  lemma Descents3(key: int -> int, p: seq<int>, x: seq<int>, s: seq<int>)
    requires x != []
    ensures Descents(key, p + x + s)
         == Descents(key, p) + Descents(key, x) + Descents(key, s)
            + (if p != [] && Key(key, x[0]) < Key(key, p[|p| - 1]) then 1 else 0)
            + (if s != [] && Key(key, s[0]) < Key(key, x[|x| - 1]) then 1 else 0)
  {
    if s == [] {
      assert p + x + s == p + x;
      if p == [] {
        assert p + x == x;
      } else {
        DescentsAppend(key, p, x);
      }
    } else {
      var xs := x + s;
      DescentsAppend(key, x, s);
      assert p + x + s == p + xs;
      if p == [] {
        assert p + xs == xs;
      } else {
        assert xs[0] == x[0];
        DescentsAppend(key, p, xs);
      }
    }
  }

  /** The merged run has no descent, starts no higher than the left run
      and ends no lower than the right run. */
  lemma MergeEnds(key: int -> int, a: seq<int>, b: seq<int>, m: seq<int>)
    requires a != [] && b != [] && Sorted(key, a) && Sorted(key, b)
    requires m == Merge(key, a, b)
    ensures m != [] && Descents(key, m) == 0
    ensures Key(key, m[0]) <= Key(key, a[0]) && Key(key, b[|b| - 1]) <= Key(key, m[|m| - 1])
  {
    MergeSorted(key, a, b);
    SortedNoDescents(key, m);
    assert a[0] in multiset(a);
    assert b[|b| - 1] in multiset(b);
    SortedEnds(key, m, a[0]);
    SortedEnds(key, m, b[|b| - 1]);
  }

  /** Two adjacent sorted runs with a descent between them. */
  lemma TwoRuns(key: int -> int, a: seq<int>, b: seq<int>)
    requires a != [] && b != [] && Sorted(key, a) && Sorted(key, b)
    requires Key(key, b[0]) < Key(key, a[|a| - 1])
    ensures Descents(key, a + b) == 1
    ensures (a + b)[0] == a[0] && (a + b)[|a + b| - 1] == b[|b| - 1]
  {
    SortedNoDescents(key, a);
    SortedNoDescents(key, b);
    DescentsAppend(key, a, b);
  }

  /** One merge step of `list_sort` removes exactly one descent, provided
      the merged runs are maximal on the right (S starts with a descent)
      and the left neighbour P already ends with one. */
  lemma MergeDescents(key: int -> int, p: seq<int>, a: seq<int>, b: seq<int>, s: seq<int>)
    requires a != [] && b != [] && Sorted(key, a) && Sorted(key, b)
    requires Key(key, b[0]) < Key(key, a[|a| - 1])
    requires p != [] ==> Key(key, a[0]) < Key(key, p[|p| - 1])
    requires s != [] ==> Key(key, s[0]) < Key(key, b[|b| - 1])
    ensures Descents(key, p + Merge(key, a, b) + s) + 1 == Descents(key, p + a + b + s)
  {
    var m, d := Merge(key, a, b), Descents(key, p) + Descents(key, s)
                + (if p != [] then 1 else 0) + (if s != [] then 1 else 0);
    assert Descents(key, p + m + s) == d by {
      MergeEnds(key, a, b, m);
      MergeSide(key, p, m, a, b, s);
    }
    assert Descents(key, p + a + b + s) == d + 1 by {
      TwoRuns(key, a, b);
      RunsSide(key, p, a, b, s);
    }
  }

  /** Descents around a merged run whose ends sit inside those of `a` and `b`. */
  lemma MergeSide(key: int -> int, p: seq<int>, m: seq<int>, a: seq<int>, b: seq<int>, s: seq<int>)
    requires a != [] && b != [] && m != [] && Descents(key, m) == 0
    requires Key(key, m[0]) <= Key(key, a[0]) && Key(key, b[|b| - 1]) <= Key(key, m[|m| - 1])
    requires p != [] ==> Key(key, a[0]) < Key(key, p[|p| - 1])
    requires s != [] ==> Key(key, s[0]) < Key(key, b[|b| - 1])
    ensures Descents(key, p + m + s) == Descents(key, p) + Descents(key, s)
            + (if p != [] then 1 else 0) + (if s != [] then 1 else 0)
  {
    Descents3(key, p, m, s);
  }

  /** Descents around two adjacent runs with exactly one descent between them. */
  lemma RunsSide(key: int -> int, p: seq<int>, a: seq<int>, b: seq<int>, s: seq<int>)
    requires a != [] && b != [] && Descents(key, a + b) == 1
    requires p != [] ==> Key(key, a[0]) < Key(key, p[|p| - 1])
    requires s != [] ==> Key(key, s[0]) < Key(key, b[|b| - 1])
    ensures Descents(key, p + a + b + s) == Descents(key, p) + Descents(key, s) + 1
            + (if p != [] then 1 else 0) + (if s != [] then 1 else 0)
  {
    var ab := a + b;
    assert ab[0] == a[0] && ab[|ab| - 1] == b[|b| - 1];
    Descents3(key, p, ab, s);
    Assoc(p, a, b);
  }

  /** Associativity of concatenation, stated once so that larger proofs
      need not rediscover it. */
  lemma Assoc(p: seq<int>, a: seq<int>, b: seq<int>)
    ensures p + a + b == p + (a + b)
  {
  }

  /** Position at which `list_insert_ordered` inserts `x`: before the first
      element `e` with less(x, e), or at the end. */
  function InsertPos(key: int -> int, s: seq<int>, x: int): (r: nat)
    ensures r <= |s|
    ensures forall i :: 0 <= i < r ==> Key(key, s[i]) <= Key(key, x)
    ensures r < |s| ==> Key(key, x) < Key(key, s[r])
  {
    if s == [] then 0
    else if Key(key, x) < Key(key, s[0]) then 0
    else 1 + InsertPos(key, s[1..], x)
  }

  /** `InsertPos` is the only position with every earlier element not
      greater than `x` and the element there, if any, greater. */
  lemma {:induction false} InsertPosIs(key: int -> int, s: seq<int>, x: int, j: int)
    requires 0 <= j <= |s|
    requires forall t :: 0 <= t < j ==> Key(key, s[t]) <= Key(key, x)
    requires j < |s| ==> Key(key, x) < Key(key, s[j])
    ensures InsertPos(key, s, x) == j
  {
    if j > 0 {
      assert Key(key, s[0]) <= Key(key, x);
      forall t | 0 <= t < j - 1 ensures Key(key, s[1..][t]) <= Key(key, x) {
        assert s[1..][t] == s[t + 1];
      }
      InsertPosIs(key, s[1..], x, j - 1);
    }
  }

  /** Inserting at `InsertPos` keeps a sorted sequence sorted ... */
  lemma InsertSorted(key: int -> int, s: seq<int>, x: int)
    requires Sorted(key, s)
    ensures var r := InsertPos(key, s, x); Sorted(key, s[..r] + [x] + s[r..])
  {
    var r := InsertPos(key, s, x);
    var t := s[..r] + [x] + s[r..];
    forall i, j | 0 <= i < j < |t| ensures Key(key, t[i]) <= Key(key, t[j]) {
      if j < r { assert t[i] == s[i] && t[j] == s[j]; }
      else if j == r { assert t[i] == s[i]; }
      else if i < r { assert t[i] == s[i] && t[j] == s[j - 1]; }
      else if i == r { assert t[j] == s[j - 1] && (j - 1 == r || Key(key, s[r]) <= Key(key, s[j - 1])); }
      else { assert t[i] == s[i - 1] && t[j] == s[j - 1]; }
    }
  }

  /** ... and puts `x` after every existing element with an equal key. */
  lemma InsertStable(key: int -> int, k: int, s: seq<int>, x: int)
    requires Sorted(key, s)
    ensures var r := InsertPos(key, s, x);
      Filter(key, k, s[..r] + [x] + s[r..])
        == Filter(key, k, s) + (if Key(key, x) == k then [x] else [])
  {
    var r := InsertPos(key, s, x);
    FilterAppend3(key, k, s[..r], [x], s[r..]);
    FilterAppend(key, k, s[..r], s[r..]);
    assert s[..r] + s[r..] == s;
    if Key(key, x) == k {
      KeyAbsentFrom(key, k, s, r);
      TailEmpty(Filter(key, k, s[..r]), [x], Filter(key, k, s[r..]));
    } else {
      assert Filter(key, k, [x]) == [];
      TailEmpty(Filter(key, k, s[..r]), Filter(key, k, s[r..]), []);
    }
  }

  /** In a sorted sequence whose element at r, if any, is above `k`, no
      element from r on has key `k`. */
  lemma KeyAbsentFrom(key: int -> int, k: int, s: seq<int>, r: int)
    requires Sorted(key, s) && 0 <= r <= |s| && (r < |s| ==> k < Key(key, s[r]))
    ensures Filter(key, k, s[r..]) == []
  {
    if r < |s| {
      assert s[r..][0] == s[r];
      KeyAbsent(key, k, s[r..]);
    } else {
      assert s[r..] == [];
    }
  }

  lemma TailEmpty(a: seq<int>, b: seq<int>, c: seq<int>)
    ensures c == [] ==> a + b + c == (a + c) + b
    ensures b == [] ==> a + b + c == a + c + b
  {
  }

  /** Elements `list_unique` keeps: the first of each run of adjacent
      elements that are equal under `less`.  Defined from the right end,
      the way the scan of `list_unique` grows its output. */
  function Unique(key: int -> int, s: seq<int>): (u: seq<int>)
    ensures s == [] <==> u == []
    ensures s != [] ==> u[0] == s[0] && Key(key, u[|u| - 1]) == Key(key, s[|s| - 1])
    decreases |s|
  {
    if |s| <= 1 then s
    else if Key(key, s[|s| - 1]) == Key(key, s[|s| - 2]) then Unique(key, s[..|s| - 1])
    else Unique(key, s[..|s| - 1]) + [s[|s| - 1]]
  }

  /** Elements `list_unique` removes, in encounter order. */
  function Dups(key: int -> int, s: seq<int>): seq<int>
    decreases |s|
  {
    if |s| <= 1 then []
    else if Key(key, s[|s| - 1]) == Key(key, s[|s| - 2]) then Dups(key, s[..|s| - 1]) + [s[|s| - 1]]
    else Dups(key, s[..|s| - 1])
  }

  ghost predicate NoAdjacentEqual(key: int -> int, u: seq<int>) {
    forall i :: 0 < i < |u| ==> Key(key, u[i - 1]) != Key(key, u[i])
  }

  /** No two adjacent survivors are equal under `less`. */
  lemma {:induction false} UniqueNoAdjacentEqual(key: int -> int, s: seq<int>)
    ensures NoAdjacentEqual(key, Unique(key, s))
  {
    if |s| > 1 {
      var s' := s[..|s| - 1];
      UniqueNoAdjacentEqual(key, s');
      var u', u := Unique(key, s'), Unique(key, s);
      if Key(key, s[|s| - 1]) != Key(key, s[|s| - 2]) {
        assert u == u' + [s[|s| - 1]];
        assert Key(key, u'[|u'| - 1]) == Key(key, s'[|s'| - 1]) == Key(key, s[|s| - 2]);
        forall i | 0 < i < |u| ensures Key(key, u[i - 1]) != Key(key, u[i]) {
          if i < |u| - 1 {
            assert u[i - 1] == u'[i - 1] && u[i] == u'[i];
          } else {
            assert u[i - 1] == u'[|u'| - 1];
          }
        }
      } else {
        assert u == u';
      }
    }
  }

  /** Survivors and duplicates together are exactly the input. */
  lemma {:induction false} UniquePartition(key: int -> int, s: seq<int>)
    ensures multiset(Unique(key, s)) + multiset(Dups(key, s)) == multiset(s)
  {
    if |s| > 1 {
      var s', x := s[..|s| - 1], s[|s| - 1];
      UniquePartition(key, s');
      assert s == s' + [x];
      assert multiset(s) == multiset(s') + multiset{x};
      if Key(key, x) == Key(key, s[|s| - 2]) {
        assert Dups(key, s) == Dups(key, s') + [x];
        assert multiset(Dups(key, s)) == multiset(Dups(key, s')) + multiset{x};
      } else {
        assert Unique(key, s) == Unique(key, s') + [x];
        assert multiset(Unique(key, s)) == multiset(Unique(key, s')) + multiset{x};
      }
    }
  }

  /** Strictly increasing keys: no two elements equal under `less`. */
  ghost predicate Increasing(key: int -> int, u: seq<int>) {
    forall i, j :: 0 <= i < j < |u| ==> Key(key, u[i]) < Key(key, u[j])
  }

  /** On a sorted input the survivors are strictly increasing. */
  lemma {:induction false} UniqueOfSorted(key: int -> int, s: seq<int>)
    requires Sorted(key, s)
    ensures Increasing(key, Unique(key, s))
  {
    if |s| > 1 {
      var s', x := s[..|s| - 1], s[|s| - 1];
      assert Sorted(key, s');
      UniqueOfSorted(key, s');
      var u' := Unique(key, s');
      var u := Unique(key, s);
      if Key(key, x) == Key(key, s[|s| - 2]) {
        assert u == u';
      } else {
        assert u == u' + [x];
        var last := |u'| - 1;
        assert Key(key, u'[last]) == Key(key, s'[|s'| - 1]);
        assert Key(key, u'[last]) < Key(key, x);
        forall i, j | 0 <= i < j < |u| ensures Key(key, u[i]) < Key(key, u[j]) {
          assert u[i] == u'[i];
          if j == |u| - 1 {
            if i < last {
              assert Key(key, u'[i]) < Key(key, u'[last]);
            }
          } else {
            assert u[j] == u'[j];
          }
        }
      }
    }
  }

  /** Some element of `u` has key value `k`. */
  ghost predicate HasKey(key: int -> int, u: seq<int>, k: int) {
    exists j :: 0 <= j < |u| && Key(key, u[j]) == k
  }

  /** Every key value of the input survives `list_unique`. */
  lemma {:induction false} UniqueKeepsKeys(key: int -> int, s: seq<int>)
    ensures forall i :: 0 <= i < |s| ==> HasKey(key, Unique(key, s), Key(key, s[i]))
  {
    var u := Unique(key, s);
    if |s| > 1 {
      var s' := s[..|s| - 1];
      UniqueKeepsKeys(key, s');
      var u' := Unique(key, s');
      assert u == u' || u == u' + [s[|s| - 1]];
      forall i | 0 <= i < |s| ensures HasKey(key, u, Key(key, s[i])) {
        if i < |s| - 1 {
          assert s[i] == s'[i];
          var j :| 0 <= j < |u'| && Key(key, u'[j]) == Key(key, s'[i]);
          assert u[j] == u'[j];
        } else {
          assert Key(key, u[|u| - 1]) == Key(key, s[i]);
        }
      }
    } else {
      assert u == s;
      forall i | 0 <= i < |s| ensures HasKey(key, u, Key(key, s[i])) {
        assert Key(key, u[i]) == Key(key, s[i]);
      }
    }
  }

  /** The survivors of `list_unique` are elements of its input. */
  lemma {:induction false} UniqueWithin(key: int -> int, s: seq<int>)
    ensures forall y :: y in Unique(key, s) ==> y in s
  {
    if |s| > 1 {
      var s' := s[..|s| - 1];
      UniqueWithin(key, s');
      assert forall y :: y in s' ==> y in s;
    }
  }

  /** Of each group of adjacent equal elements, `list_unique` keeps the
      first and only the first: an element survives exactly when it starts
      the list or differs from its predecessor. */
  lemma {:induction false} UniqueKeepsFirst(key: int -> int, s: seq<int>)
    requires forall i, j :: 0 <= i < j < |s| ==> s[i] != s[j]
    ensures forall i :: 0 <= i < |s| ==>
      (s[i] in Unique(key, s) <==> i == 0 || Key(key, s[i - 1]) != Key(key, s[i]))
  {
    if |s| > 1 {
      var n := |s|;
      var s' := s[..n - 1];
      var u' := Unique(key, s');
      UniqueKeepsFirst(key, s');
      UniqueWithin(key, s');
      assert s[n - 1] !in s' by {
        forall j | 0 <= j < n - 1 ensures s'[j] != s[n - 1] {
          assert s'[j] == s[j];
        }
      }
      forall i | 0 <= i < n
        ensures s[i] in Unique(key, s) <==> i == 0 || Key(key, s[i - 1]) != Key(key, s[i])
      {
        if i < n - 1 {
          assert s'[i] == s[i];
          if i > 0 {
            assert s'[i - 1] == s[i - 1];
          }
        }
      }
    } else if |s| == 1 {
      assert Unique(key, s) == s;
    }
  }

  /** One step of the scan of `list_unique` over s[..m + 1]: the new
      element E[m] is dropped, and recorded as a duplicate, exactly when it
      is equal to the last survivor. */
  lemma UniqueStep(key: int -> int, s: seq<int>, m: int)
    requires 1 <= m < |s|
    ensures Unique(key, s[..m]) != []
    ensures var u := Unique(key, s[..m]);
      if Key(key, u[|u| - 1]) == Key(key, s[m]) then
        Unique(key, s[..m + 1]) == u && Dups(key, s[..m + 1]) == Dups(key, s[..m]) + [s[m]]
      else
        Unique(key, s[..m + 1]) == u + [s[m]] && Dups(key, s[..m + 1]) == Dups(key, s[..m])
  {
    var t := s[..m + 1];
    assert t[..|t| - 1] == s[..m];
    assert t[|t| - 1] == s[m] && t[|t| - 2] == s[m - 1];
    assert s[..m][m - 1] == s[m - 1];
  }

  /** s[i] is a maximum of s, and the first one: every earlier element is
      strictly less, every element at most equal. */
  ghost predicate FirstMax(key: int -> int, s: seq<int>, i: int) {
    && 0 <= i < |s|
    && (forall t :: 0 <= t < i ==> Key(key, s[t]) < Key(key, s[i]))
    && (forall t :: 0 <= t < |s| ==> Key(key, s[t]) <= Key(key, s[i]))
  }

  /** s[i] is a minimum of s, and the first one. */
  ghost predicate FirstMin(key: int -> int, s: seq<int>, i: int) {
    && 0 <= i < |s|
    && (forall t :: 0 <= t < i ==> Key(key, s[i]) < Key(key, s[t]))
    && (forall t :: 0 <= t < |s| ==> Key(key, s[i]) <= Key(key, s[t]))
  }

  /** Ties are broken towards the front: there is only one first maximum. */
  lemma FirstMaxUnique(key: int -> int, s: seq<int>, i: int, j: int)
    requires FirstMax(key, s, i) && FirstMax(key, s, j)
    ensures i == j
  {
    var a, b := Key(key, s[i]), Key(key, s[j]);
  }

  /** Likewise for the first minimum. */
  lemma FirstMinUnique(key: int -> int, s: seq<int>, i: int, j: int)
    requires FirstMin(key, s, i) && FirstMin(key, s, j)
    ensures i == j
  {
    var a, b := Key(key, s[i]), Key(key, s[j]);
  }

  /** `list_min` is `list_max` under the reversed comparator. */
  lemma FirstMinIsMaxOfNegated(key: int -> int, s: seq<int>, i: int)
    ensures FirstMin(key, s, i) <==> FirstMax(n => -key(n), s, i)
  {
  }

  /** In a sorted sequence the first maximum is the first element whose key
      equals the last element's key, not the last element itself. */
  lemma SortedFirstMax(key: int -> int, s: seq<int>, i: int)
    requires Sorted(key, s) && 0 <= i < |s|
    requires Key(key, s[i]) == Key(key, s[|s| - 1])
    requires i == 0 || Key(key, s[i - 1]) < Key(key, s[i])
    ensures FirstMax(key, s, i)
  {
  }

  /** Reversal of a sequence, the abstract effect of `list_reverse`. */
  function Reverse(s: seq<int>): (r: seq<int>)
    ensures |r| == |s|
    ensures forall i :: 0 <= i < |s| ==> r[i] == s[|s| - 1 - i]
  {
    if s == [] then [] else Reverse(s[1..]) + [s[0]]
  }
}
