/** Pointer structure of the intrusive doubly linked list, stated on
    snapshots of the `next` and `prev` link arrays.

    A list is described by its chain: the head sentinel, the interior
    elements in order, and the tail sentinel.  `Linked` says that the two
    link arrays realise exactly that chain, with the null `prev` of the
    head and the null `next` of the tail.  The lemmas below describe the
    two relinking steps every mutating list operation is made of: cutting
    a range out of a chain, and pasting a detached range back in. */
module Links {

  /** The null link (`NULL` in the source). */
  const NIL: int := -1

  ghost predicate InBounds(c: seq<int>, n: int) {
    forall i :: 0 <= i < |c| ==> 0 <= c[i] < n
  }

  ghost predicate Distinct(c: seq<int>) {
    forall i, j :: 0 <= i < j < |c| ==> c[i] != c[j]
  }

  /** Consecutive nodes of `c` point at each other in both directions. */
  ghost predicate SegLinked(nx: seq<int>, pv: seq<int>, c: seq<int>)
    requires InBounds(c, |nx|) && |pv| == |nx|
  {
    && (forall i :: 0 <= i < |c| - 1 ==> nx[c[i]] == c[i + 1])
    && (forall i :: 0 < i < |c| ==> pv[c[i]] == c[i - 1])
  }

  /** The link arrays realise the chain `c` = head, interior..., tail. */
  ghost predicate Linked(nx: seq<int>, pv: seq<int>, c: seq<int>) {
    && |nx| == |pv|
    && |c| >= 2
    && InBounds(c, |nx|)
    && Distinct(c)
    && SegLinked(nx, pv, c)
    && pv[c[0]] == NIL
    && nx[c[|c| - 1]] == NIL
  }

  /** Two pairs of link arrays agree on every node of `c`. */
  ghost predicate SameOn(nx: seq<int>, pv: seq<int>, nx': seq<int>, pv': seq<int>, c: seq<int>)
    requires |nx| == |pv| == |nx'| == |pv'| && InBounds(c, |nx|)
  {
    forall i :: 0 <= i < |c| ==> nx'[c[i]] == nx[c[i]] && pv'[c[i]] == pv[c[i]]
  }

  /** Only the links of the nodes in `c` matter to `Linked`. */
  lemma LinkedFrame(nx: seq<int>, pv: seq<int>, nx': seq<int>, pv': seq<int>, c: seq<int>)
    requires Linked(nx, pv, c)
    requires |nx'| == |pv'| == |nx|
    requires SameOn(nx, pv, nx', pv', c)
    ensures Linked(nx', pv', c)
  {
    assert nx'[c[|c| - 1]] == nx[c[|c| - 1]];
    assert pv'[c[0]] == pv[c[0]];
    forall i | 0 <= i < |c| - 1
      ensures nx'[c[i]] == c[i + 1]
    {
    }
    forall i | 0 < i < |c|
      ensures pv'[c[i]] == c[i - 1]
    {
    }
  }

  /** Cutting the non-empty interior range c[f..l) out of a chain (the first
      two assignments of `list_splice`, and the whole of `list_remove`)
      leaves the rest of the chain linked and the range linked internally. */
  lemma Cut(nx: seq<int>, pv: seq<int>, c: seq<int>, f: int, l: int)
    requires Linked(nx, pv, c)
    requires 1 <= f < l <= |c| - 1
    ensures var nx', pv' := nx[c[f - 1] := c[l]], pv[c[l] := c[f - 1]];
      && Linked(nx', pv', c[..f] + c[l..])
      && SegLinked(nx', pv', c[f..l])
  {
    var nx', pv' := nx[c[f - 1] := c[l]], pv[c[l] := c[f - 1]];
    var r := c[..f] + c[l..];
    CutShape(c, f, l);
    CutNext(nx, pv, c, f, l);
    CutPrev(nx, pv, c, f, l);
    CutRange(nx, pv, c, f, l);
    assert r[0] == c[0] && c[0] != c[l];
    assert r[|r| - 1] == c[|c| - 1] && c[|c| - 1] != c[f - 1];
  }

  lemma CutShape(c: seq<int>, f: int, l: int)
    requires Distinct(c)
    requires 0 <= f <= l <= |c|
    ensures Distinct(c[..f] + c[l..])
    ensures forall n :: InBounds(c, n) ==> InBounds(c[..f] + c[l..], n) && InBounds(c[f..l], n)
    ensures Distinct(c[f..l])
  {
    var r := c[..f] + c[l..];
    forall i, j | 0 <= i < j < |r| ensures r[i] != r[j] {
      var i0 := if i < f then i else i + (l - f);
      var j0 := if j < f then j else j + (l - f);
      assert r[i] == c[i0] && r[j] == c[j0] && i0 < j0;
    }
    var s := c[f..l];
    forall i, j | 0 <= i < j < |s| ensures s[i] != s[j] {
      assert s[i] == c[f + i] && s[j] == c[f + j];
    }
  }

  lemma CutNext(nx: seq<int>, pv: seq<int>, c: seq<int>, f: int, l: int)
    requires Linked(nx, pv, c)
    requires 1 <= f < l <= |c| - 1
    ensures var nx', r := nx[c[f - 1] := c[l]], c[..f] + c[l..];
      forall i :: 0 <= i < |r| - 1 ==> nx'[r[i]] == r[i + 1]
  {
    var nx', r := nx[c[f - 1] := c[l]], c[..f] + c[l..];
    forall i | 0 <= i < |r| - 1
      ensures nx'[r[i]] == r[i + 1]
    {
      if i < f - 1 {
        assert r[i] == c[i] && r[i + 1] == c[i + 1] && c[i] != c[f - 1];
      } else if i == f - 1 {
        assert r[i] == c[f - 1] && r[i + 1] == c[l];
      } else {
        var i0 := i + (l - f);
        assert r[i] == c[i0] && r[i + 1] == c[i0 + 1] && c[i0] != c[f - 1];
      }
    }
  }

  lemma CutPrev(nx: seq<int>, pv: seq<int>, c: seq<int>, f: int, l: int)
    requires Linked(nx, pv, c)
    requires 1 <= f < l <= |c| - 1
    ensures var pv', r := pv[c[l] := c[f - 1]], c[..f] + c[l..];
      forall i :: 0 < i < |r| ==> pv'[r[i]] == r[i - 1]
  {
    var pv', r := pv[c[l] := c[f - 1]], c[..f] + c[l..];
    forall i | 0 < i < |r|
      ensures pv'[r[i]] == r[i - 1]
    {
      if i < f {
        assert r[i] == c[i] && r[i - 1] == c[i - 1] && c[i] != c[l];
      } else if i == f {
        assert r[i] == c[l] && r[i - 1] == c[f - 1];
      } else {
        var i0 := i + (l - f);
        assert r[i] == c[i0] && r[i - 1] == c[i0 - 1] && c[i0] != c[l];
      }
    }
  }

  lemma CutRange(nx: seq<int>, pv: seq<int>, c: seq<int>, f: int, l: int)
    requires Linked(nx, pv, c)
    requires 1 <= f < l <= |c| - 1
    ensures var nx', pv', s := nx[c[f - 1] := c[l]], pv[c[l] := c[f - 1]], c[f..l];
      && (forall i :: 0 <= i < |s| - 1 ==> nx'[s[i]] == s[i + 1])
      && (forall i :: 0 < i < |s| ==> pv'[s[i]] == s[i - 1])
  {
    var nx', pv', s := nx[c[f - 1] := c[l]], pv[c[l] := c[f - 1]], c[f..l];
    forall i | 0 <= i < |s| - 1
      ensures nx'[s[i]] == s[i + 1]
    {
      assert s[i] == c[f + i] && s[i + 1] == c[f + i + 1] && c[f + i] != c[f - 1];
    }
    forall i | 0 < i < |s|
      ensures pv'[s[i]] == s[i - 1]
    {
      assert s[i] == c[f + i] && s[i - 1] == c[f + i - 1] && c[f + i] != c[l];
    }
  }

  /** Pasting a detached, internally linked range `s` just before c[q] (the
      last four assignments of `list_splice`, and all of `list_insert`)
      yields the chain with `s` in place. */
  lemma Paste(nx: seq<int>, pv: seq<int>, c: seq<int>, s: seq<int>, q: int)
    requires Linked(nx, pv, c)
    requires 1 <= q <= |c| - 1
    requires |s| >= 1 && InBounds(s, |nx|) && Distinct(s) && SegLinked(nx, pv, s)
    requires Disjoint(s, c)
    ensures var nx', pv' := nx[s[|s| - 1] := c[q]][c[q - 1] := s[0]],
                            pv[s[0] := c[q - 1]][c[q] := s[|s| - 1]];
      Linked(nx', pv', c[..q] + s + c[q..])
  {
    var r := c[..q] + s + c[q..];
    PasteShape(c, s, q, |nx|);
    PasteNext(nx, pv, c, s, q);
    PastePrev(nx, pv, c, s, q);
    assert r[0] == c[0] && c[0] != c[q] && c[0] != s[0];
    assert r[|r| - 1] == c[|c| - 1] && c[|c| - 1] != c[q - 1] && c[|c| - 1] != s[|s| - 1];
  }

  ghost predicate Disjoint(s: seq<int>, c: seq<int>) {
    forall i, j :: 0 <= i < |s| && 0 <= j < |c| ==> s[i] != c[j]
  }

  lemma PasteShape(c: seq<int>, s: seq<int>, q: int, n: int)
    requires 0 <= q <= |c|
    requires Distinct(c) && Distinct(s) && Disjoint(s, c)
    requires InBounds(c, n) && InBounds(s, n)
    ensures Distinct(c[..q] + s + c[q..]) && InBounds(c[..q] + s + c[q..], n)
  {
    var r := c[..q] + s + c[q..];
    var k := |s|;
    forall i | 0 <= i < |r| ensures 0 <= r[i] < n {
      if i < q { assert r[i] == c[i]; }
      else if i < q + k { assert r[i] == s[i - q]; }
      else { assert r[i] == c[i - k]; }
    }
    forall i, j | 0 <= i < j < |r| ensures r[i] != r[j] {
      if j < q { assert r[i] == c[i] && r[j] == c[j]; }
      else if j < q + k {
        if i < q { assert r[i] == c[i] && r[j] == s[j - q]; }
        else { assert r[i] == s[i - q] && r[j] == s[j - q]; }
      } else {
        if i < q { assert r[i] == c[i] && r[j] == c[j - k]; }
        else if i < q + k { assert r[i] == s[i - q] && r[j] == c[j - k]; }
        else { assert r[i] == c[i - k] && r[j] == c[j - k]; }
      }
    }
  }

  lemma PasteNext(nx: seq<int>, pv: seq<int>, c: seq<int>, s: seq<int>, q: int)
    requires Linked(nx, pv, c)
    requires 1 <= q <= |c| - 1
    requires |s| >= 1 && InBounds(s, |nx|) && Distinct(s) && SegLinked(nx, pv, s)
    requires Disjoint(s, c)
    ensures var nx', r := nx[s[|s| - 1] := c[q]][c[q - 1] := s[0]], c[..q] + s + c[q..];
      forall i :: 0 <= i < |r| - 1 ==> nx'[r[i]] == r[i + 1]
  {
    var nx', r := nx[s[|s| - 1] := c[q]][c[q - 1] := s[0]], c[..q] + s + c[q..];
    var k := |s|;
    forall i | 0 <= i < |r| - 1
      ensures nx'[r[i]] == r[i + 1]
    {
      if i < q - 1 {
        assert r[i] == c[i] && r[i + 1] == c[i + 1] && c[i] != c[q - 1];
        assert c[i] != s[k - 1];
      } else if i == q - 1 {
        assert r[i] == c[q - 1] && r[i + 1] == s[0];
      } else if i < q + k - 1 {
        assert r[i] == s[i - q] && r[i + 1] == s[i - q + 1];
        assert s[i - q] != s[k - 1] && s[i - q] != c[q - 1];
      } else if i == q + k - 1 {
        assert r[i] == s[k - 1] && r[i + 1] == c[q];
        assert s[k - 1] != c[q - 1];
      } else {
        assert r[i] == c[i - k] && r[i + 1] == c[i - k + 1];
        assert c[i - k] != c[q - 1] && c[i - k] != s[k - 1];
      }
    }
  }

  lemma PastePrev(nx: seq<int>, pv: seq<int>, c: seq<int>, s: seq<int>, q: int)
    requires Linked(nx, pv, c)
    requires 1 <= q <= |c| - 1
    requires |s| >= 1 && InBounds(s, |nx|) && Distinct(s) && SegLinked(nx, pv, s)
    requires Disjoint(s, c)
    ensures var pv', r := pv[s[0] := c[q - 1]][c[q] := s[|s| - 1]], c[..q] + s + c[q..];
      forall i :: 0 < i < |r| ==> pv'[r[i]] == r[i - 1]
  {
    var pv', r := pv[s[0] := c[q - 1]][c[q] := s[|s| - 1]], c[..q] + s + c[q..];
    var k := |s|;
    forall i | 0 < i < |r|
      ensures pv'[r[i]] == r[i - 1]
    {
      if i < q {
        assert r[i] == c[i] && r[i - 1] == c[i - 1] && c[i] != c[q];
        assert c[i] != s[0];
      } else if i == q {
        assert r[i] == s[0] && r[i - 1] == c[q - 1];
        assert s[0] != c[q];
      } else if i < q + k {
        assert r[i] == s[i - q] && r[i - 1] == s[i - q - 1];
        assert s[i - q] != s[0] && s[i - q] != c[q];
      } else if i == q + k {
        assert r[i] == c[q] && r[i - 1] == s[k - 1];
      } else {
        assert r[i] == c[i - k] && r[i - 1] == c[i - k - 1];
        assert c[i - k] != c[q] && c[i - k] != s[0];
      }
    }
  }

  /** The link arrays agree everywhere except possibly on the nodes of `t`. */
  ghost predicate SameOutside(nx: seq<int>, pv: seq<int>, nx': seq<int>, pv': seq<int>, t: seq<int>) {
    && |nx'| == |nx| && |pv'| == |pv|
    && forall n :: 0 <= n < |nx| && n < |pv| && n !in t ==> nx'[n] == nx[n] && pv'[n] == pv[n]
  }

  /** A chain none of whose nodes was touched stays linked: another list
      sharing the same nodes' storage is unaffected by an operation. */
  lemma LinkedAway(nx: seq<int>, pv: seq<int>, nx': seq<int>, pv': seq<int>, c: seq<int>, t: seq<int>)
    requires Linked(nx, pv, c)
    requires SameOutside(nx, pv, nx', pv', t)
    requires Disjoint(c, t)
    ensures Linked(nx', pv', c)
  {
    forall i | 0 <= i < |c|
      ensures nx'[c[i]] == nx[c[i]] && pv'[c[i]] == pv[c[i]]
    {
    }
    LinkedFrame(nx, pv, nx', pv', c);
  }

  /** The link updates of `list_insert`: `x` goes in before chain position `q`. */
  lemma InsertLinks(nx: seq<int>, pv: seq<int>, c: seq<int>, x: int, q: int)
    requires Linked(nx, pv, c)
    requires 1 <= q < |c| && 0 <= x < |nx| && x !in c
    ensures pv[c[q]] == c[q - 1] && 0 <= c[q - 1] < |nx| && 0 <= c[q] < |nx|
    ensures var nx', pv' := nx[x := c[q]][c[q - 1] := x], pv[x := c[q - 1]][c[q] := x];
      && Linked(nx', pv', c[..q] + [x] + c[q..])
      && SameOutside(nx, pv, nx', pv', c + [x])
  {
    Paste(nx, pv, c, [x], q);
  }

  /** The link updates of `list_remove`: the interior node at chain
      position `i` is bypassed. */
  lemma RemoveLinks(nx: seq<int>, pv: seq<int>, c: seq<int>, i: int)
    requires Linked(nx, pv, c)
    requires 1 <= i < |c| - 1
    ensures nx[c[i]] == c[i + 1] && pv[c[i]] == c[i - 1]
    ensures 0 <= c[i] < |nx| && 0 <= c[i - 1] < |nx| && 0 <= c[i + 1] < |nx|
    ensures var nx', pv' := nx[c[i - 1] := c[i + 1]], pv[c[i + 1] := c[i - 1]];
      && Linked(nx', pv', c[..i] + c[i + 1..])
      && SameOutside(nx, pv, nx', pv', c)
  {
    Cut(nx, pv, c, i, i + 1);
  }

  /** Exchanging two adjacent blocks c[i..j) and c[j..k) keeps the length,
      the nodes, and any end outside the blocks. */
  lemma SwapBlocks(c: seq<int>, i: int, j: int, k: int)
    requires 0 <= i <= j <= k <= |c|
    ensures |c[..i] + c[j..k] + c[i..j] + c[k..]| == |c|
    ensures multiset(c[..i] + c[j..k] + c[i..j] + c[k..]) == multiset(c)
    ensures 0 < i ==> (c[..i] + c[j..k] + c[i..j] + c[k..])[0] == c[0]
    ensures k < |c| ==> (c[..i] + c[j..k] + c[i..j] + c[k..])[|c| - 1] == c[|c| - 1]
  {
    assert c == c[..i] + c[i..j] + c[j..k] + c[k..];
  }

  /** The chain after `list_splice` moves the range c[f..l) in front of
      c[q], where c[q] lies outside the range. */
  ghost function Spliced(c: seq<int>, f: int, l: int, q: int): (r: seq<int>)
    requires 1 <= f <= l < |c| && 1 <= q < |c| && (q < f || l <= q)
    ensures |r| == |c| && multiset(r) == multiset(c)
    ensures r[0] == c[0] && r[|r| - 1] == c[|c| - 1]
  {
    if f == l then c
    else if q < f then
      SwapBlocks(c, q, f, l);
      c[..q] + c[f..l] + c[q..f] + c[l..]
    else
      SwapBlocks(c, f, l, q);
      c[..f] + c[l..q] + c[f..l] + c[q..]
  }

  /** The chain arithmetic of `list_splice`: cutting c[f..l) out, which
      leaves `cp`, and pasting it back before c[q], found at position `qp`
      of `cp`, yields `Spliced`. */
  lemma SpliceChain(c: seq<int>, f: int, l: int, q: int, cp: seq<int>, qp: int)
    requires Distinct(c)
    requires 1 <= f < l < |c| && 1 <= q < |c| && (q < f || l <= q)
    requires cp == c[..f] + c[l..] && qp == if q < f then q else q - (l - f)
    ensures 1 <= qp < |cp|
    ensures cp[qp] == c[q]
    ensures cp[qp - 1] == (if q == l then c[f - 1] else c[q - 1])
    ensures Disjoint(c[f..l], cp)
    ensures cp[..qp] + c[f..l] + cp[qp..] == Spliced(c, f, l, q)
  {
    var s := c[f..l];
    forall i, j | 0 <= i < |s| && 0 <= j < |cp| ensures s[i] != cp[j] {
      assert s[i] == c[f + i];
      if j < f { assert cp[j] == c[j]; } else { assert cp[j] == c[j + (l - f)]; }
    }
    assert cp[qp] == c[q];
    if q < f {
      assert cp[..qp] == c[..q];
      assert cp[qp..] == c[q..f] + c[l..];
    } else {
      assert cp[..qp] == c[..f] + c[l..q];
      assert cp[qp..] == c[q..];
    }
  }

  /** The links `list_splice` reads before and while it relinks. */
  lemma SpliceReads(nx: seq<int>, pv: seq<int>, c: seq<int>, f: int, l: int, q: int)
    requires Linked(nx, pv, c)
    requires 1 <= f < l < |c| && 1 <= q < |c| && (q < f || l <= q)
    ensures InBounds(c, |nx|)
    ensures pv[c[l]] == c[l - 1] && pv[c[f]] == c[f - 1] && nx[c[l - 1]] == c[l]
    ensures c[f - 1] != c[l] && c[f] != c[l] && c[l - 1] != c[l] && c[f - 1] != c[f]
    ensures q != l ==> pv[c[q]] == c[q - 1] && c[q] != c[l] && c[q] != c[f]
  {
  }

  /** The six link updates of `list_splice` on a non-empty range, in the
      order the source performs them, named by the nodes involved: `fp`
      and `ln` around the range [first, lst], `before` and its
      predecessor `bp` once the range is cut out. */
  lemma SpliceLinks(nx: seq<int>, pv: seq<int>, c: seq<int>, f: int, l: int, q: int,
                    fp: int, first: int, lst: int, ln: int, bp: int, before: int)
    requires Linked(nx, pv, c)
    requires 1 <= f < l < |c| && 1 <= q < |c| && (q < f || l <= q)
    requires fp == c[f - 1] && first == c[f] && lst == c[l - 1] && ln == c[l] && before == c[q]
    requires bp == if q == l then c[f - 1] else c[q - 1]
    ensures Linked(nx[fp := ln][lst := before][bp := first], pv[ln := fp][first := bp][before := lst],
                   Spliced(c, f, l, q))
    ensures SameOutside(nx, pv, nx[fp := ln][lst := before][bp := first],
                        pv[ln := fp][first := bp][before := lst], c)
  {
    SpliceLinked(nx, pv, c, f, l, q, bp, before);
    assert bp in c && before in c && fp in c && first in c && lst in c && ln in c;
    UpdatesInside(nx, pv, c, fp, lst, bp, ln, first, before, ln, before, first, fp, bp, lst);
  }

  /** The first half of `SpliceLinks`: the relinked chain. */
  lemma SpliceLinked(nx: seq<int>, pv: seq<int>, c: seq<int>, f: int, l: int, q: int,
                     bp: int, before: int)
    requires Linked(nx, pv, c)
    requires 1 <= f < l < |c| && 1 <= q < |c| && (q < f || l <= q)
    requires before == c[q] && bp == if q == l then c[f - 1] else c[q - 1]
    ensures Linked(nx[c[f - 1] := c[l]][c[l - 1] := before][bp := c[f]],
                   pv[c[l] := c[f - 1]][c[f] := bp][before := c[l - 1]],
                   Spliced(c, f, l, q))
  {
    var cp, qp := c[..f] + c[l..], if q < f then q else q - (l - f);
    SpliceChain(c, f, l, q, cp, qp);
    SplicePaste(nx, pv, c, f, l, cp, qp, bp, before);
  }

  /** Cutting c[f..l) out, leaving `cp`, and pasting it back in before
      cp[qp], whose predecessor is `bp`. */
  lemma SplicePaste(nx: seq<int>, pv: seq<int>, c: seq<int>, f: int, l: int,
                    cp: seq<int>, qp: int, bp: int, before: int)
    requires Linked(nx, pv, c)
    requires 1 <= f < l < |c| && cp == c[..f] + c[l..]
    requires 1 <= qp < |cp| && bp == cp[qp - 1] && before == cp[qp]
    requires Disjoint(c[f..l], cp)
    ensures Linked(nx[c[f - 1] := c[l]][c[l - 1] := before][bp := c[f]],
                   pv[c[l] := c[f - 1]][c[f] := bp][before := c[l - 1]],
                   cp[..qp] + c[f..l] + cp[qp..])
  {
    var s := c[f..l];
    var nx1, pv1 := nx[c[f - 1] := c[l]], pv[c[l] := c[f - 1]];
    Cut(nx, pv, c, f, l);
    CutShape(c, f, l);
    Paste(nx1, pv1, cp, s, qp);
    assert s[0] == c[f] && s[|s| - 1] == c[l - 1];
  }

  /** Three `next` and three `prev` updates at nodes of `c` leave every other
      node alone. */
  lemma UpdatesInside(nx: seq<int>, pv: seq<int>, c: seq<int>,
                      a1: int, a2: int, a3: int, b1: int, b2: int, b3: int,
                      v1: int, v2: int, v3: int, w1: int, w2: int, w3: int)
    requires |nx| == |pv|
    requires 0 <= a1 < |nx| && 0 <= a2 < |nx| && 0 <= a3 < |nx|
    requires 0 <= b1 < |nx| && 0 <= b2 < |nx| && 0 <= b3 < |nx|
    requires a1 in c && a2 in c && a3 in c && b1 in c && b2 in c && b3 in c
    ensures SameOutside(nx, pv, nx[a1 := v1][a2 := v2][a3 := v3], pv[b1 := w1][b2 := w2][b3 := w3], c)
  {
  }

  /** Untouched-outside is transitive across operations that keep the
      chain's nodes. */
  lemma SameOutsideTrans(nx0: seq<int>, pv0: seq<int>, nx1: seq<int>, pv1: seq<int>,
                         nx2: seq<int>, pv2: seq<int>, t0: seq<int>, t1: seq<int>)
    requires SameOutside(nx0, pv0, nx1, pv1, t0)
    requires SameOutside(nx1, pv1, nx2, pv2, t1)
    requires multiset(t1) == multiset(t0)
    ensures SameOutside(nx0, pv0, nx2, pv2, t0)
  {
    forall n | 0 <= n < |nx0| && n < |pv0| && n !in t0
      ensures nx2[n] == nx0[n] && pv2[n] == pv0[n]
    {
      assert n !in multiset(t0);
    }
  }

  /** Untouched-outside carries over to a later operation that touched
      only nodes the first one was allowed to touch. */
  lemma SameOutsideSub(nx0: seq<int>, pv0: seq<int>, nx1: seq<int>, pv1: seq<int>,
                       nx2: seq<int>, pv2: seq<int>, t0: seq<int>, t1: seq<int>)
    requires SameOutside(nx0, pv0, nx1, pv1, t0)
    requires SameOutside(nx1, pv1, nx2, pv2, t1)
    requires forall n :: n in t1 ==> n in t0
    ensures SameOutside(nx0, pv0, nx2, pv2, t0)
  {
  }

  /** The six link updates of `list_splice` when the range c[f..l) of one
      chain `c` moves in front of position q of another, disjoint chain
      `d`: the two chains become c without the range and d with the range
      in place, and no node outside either chain changes. */
  lemma TransferLinks(nx: seq<int>, pv: seq<int>, c: seq<int>, d: seq<int>, f: int, l: int, q: int)
    requires Linked(nx, pv, c) && Linked(nx, pv, d) && Disjoint(c, d)
    requires 1 <= f < l < |c| && 1 <= q < |d|
    ensures InBounds(c, |nx|) && InBounds(d, |nx|)
    ensures pv[c[f]] == c[f - 1] && nx[c[l - 1]] == c[l] && pv[c[l] := c[f - 1]][d[q]] == d[q - 1]
    ensures var nx', pv' := nx[c[f - 1] := c[l]][c[l - 1] := d[q]][d[q - 1] := c[f]],
                            pv[c[l] := c[f - 1]][c[f] := d[q - 1]][d[q] := c[l - 1]];
      && Linked(nx', pv', c[..f] + c[l..])
      && Linked(nx', pv', d[..q] + c[f..l] + d[q..])
      && SameOutside(nx, pv, nx', pv', c + d)
  {
    var s, rest := c[f..l], c[..f] + c[l..];
    var nx1, pv1 := nx[c[f - 1] := c[l]], pv[c[l] := c[f - 1]];
    TransferCut(nx, pv, c, d, f, l);
    Paste(nx1, pv1, d, s, q);
    assert s[0] == c[f] && s[|s| - 1] == c[l - 1];
    var nx2, pv2 := nx1[c[l - 1] := d[q]][d[q - 1] := c[f]], pv1[c[f] := d[q - 1]][d[q] := c[l - 1]];
    assert SameOutside(nx1, pv1, nx2, pv2, s + d);
    RestApart(c, d, f, l);
    LinkedAway(nx1, pv1, nx2, pv2, rest, s + d);
  }

  /** The first two updates of a splice between two chains: cutting the
      range c[f..l) out of `c` leaves the other chain `d` linked, and the
      range ready to be pasted into it. */
  lemma TransferCut(nx: seq<int>, pv: seq<int>, c: seq<int>, d: seq<int>, f: int, l: int)
    requires Linked(nx, pv, c) && Linked(nx, pv, d) && Disjoint(c, d)
    requires 1 <= f < l < |c|
    ensures var nx1, pv1, s := nx[c[f - 1] := c[l]], pv[c[l] := c[f - 1]], c[f..l];
      && Linked(nx1, pv1, c[..f] + c[l..]) && Linked(nx1, pv1, d)
      && |s| >= 1 && InBounds(s, |nx1|) && Distinct(s) && SegLinked(nx1, pv1, s)
      && Disjoint(s, d)
      && SameOutside(nx, pv, nx1, pv1, c)
  {
    var s := c[f..l];
    var nx1, pv1 := nx[c[f - 1] := c[l]], pv[c[l] := c[f - 1]];
    Cut(nx, pv, c, f, l);
    CutShape(c, f, l);
    assert SameOutside(nx, pv, nx1, pv1, c);
    LinkedAway(nx, pv, nx1, pv1, d, c);
    forall i, j | 0 <= i < |s| && 0 <= j < |d| ensures s[i] != d[j] {
      assert s[i] == c[f + i];
    }
  }

  /** What is left of `c` after cutting c[f..l) shares no node with the
      range or with the disjoint chain `d`. */
  lemma RestApart(c: seq<int>, d: seq<int>, f: int, l: int)
    requires Distinct(c) && Disjoint(c, d) && 0 <= f <= l <= |c|
    ensures Disjoint(c[..f] + c[l..], c[f..l] + d)
  {
    var rest, t := c[..f] + c[l..], c[f..l] + d;
    forall i, j | 0 <= i < |rest| && 0 <= j < |t| ensures rest[i] != t[j] {
      var i0 := if i < f then i else i + (l - f);
      assert rest[i] == c[i0];
      if j < l - f {
        assert t[j] == c[f + j];
      } else {
        assert t[j] == d[j - (l - f)];
      }
    }
  }
}
