/** The tallest-first order in which the sheet receives its images: a stable
    sort by height, descending, done in place on the caller's list. */
module Sorting {
  import opened Images

  /** Every image is at least as tall as every image after it. */
  predicate TallestFirstOrder(s: seq<Image>) {
    forall i, j :: 0 <= i < j < |s| ==> s[i].h >= s[j].h
  }

  /** The images of s whose height is k, in the order they have in s. */
  function OfHeight(s: seq<Image>, k: int): seq<Image> {
    if s == [] then []
    else OfHeight(s[..|s| - 1], k) + (if s[|s| - 1].h == k then [s[|s| - 1]] else [])
  }

  /** Insert x into r behind every image at least as tall as x, which is where
      a stable sort puts the later of two images of equal height. */
  function Insert(x: Image, r: seq<Image>): (t: seq<Image>)
    ensures |t| == |r| + 1
    decreases |r|
  {
    if r == [] || r[|r| - 1].h >= x.h then r + [x]
    else Insert(x, r[..|r| - 1]) + [r[|r| - 1]]
  }

  /** The stable tallest-first order of s, built by inserting each image, from
      the first to the last, into the order of those before it. */
  function TallestFirst(s: seq<Image>): (t: seq<Image>)
    ensures |t| == |s|
  {
    if s == [] then [] else Insert(s[|s| - 1], TallestFirst(s[..|s| - 1]))
  }

  lemma {:induction false} InsertKeepsOrder(x: Image, r: seq<Image>)
    requires TallestFirstOrder(r)
    ensures TallestFirstOrder(Insert(x, r))
    decreases |r|
  {
    if r == [] || r[|r| - 1].h >= x.h {
    } else {
      var front := r[..|r| - 1];
      InsertKeepsOrder(x, front);
      InsertMembers(x, front);
      var t := Insert(x, front);
      assert Insert(x, r) == t + [r[|r| - 1]];
      forall i | 0 <= i < |t| ensures t[i].h >= r[|r| - 1].h {
        assert t[i] in multiset(front) + multiset{x};
        if t[i] != x {
          var j :| 0 <= j < |front| && front[j] == t[i];
        }
      }
    }
  }

  lemma {:induction false} InsertMembers(x: Image, r: seq<Image>)
    ensures multiset(Insert(x, r)) == multiset(r) + multiset{x}
    decreases |r|
  {
    if r == [] || r[|r| - 1].h >= x.h {
    } else {
      var front := r[..|r| - 1];
      InsertMembers(x, front);
      assert r == front + [r[|r| - 1]];
    }
  }

  /** Inserting x adds x, and only x, at the end of its own height class. */
  lemma {:induction false} InsertOfHeight(x: Image, r: seq<Image>, k: int)
    ensures OfHeight(Insert(x, r), k) == OfHeight(r, k) + (if x.h == k then [x] else [])
    decreases |r|
  {
    if r == [] || r[|r| - 1].h >= x.h {
      assert (r + [x])[..|r|] == r;
    } else {
      var front, last := r[..|r| - 1], r[|r| - 1];
      var t := Insert(x, front);
      InsertOfHeight(x, front, k);
      assert (t + [last])[..|t|] == t;
      assert OfHeight(t + [last], k) == OfHeight(t, k) + (if last.h == k then [last] else []);
      if x.h == k {
        assert OfHeight(r, k) == OfHeight(front, k);
      } else {
        assert OfHeight(t, k) == OfHeight(front, k);
      }
    }
  }

  /** The tallest-first order is non-increasing in height. */
  lemma {:induction false} TallestFirstIsOrdered(s: seq<Image>)
    ensures TallestFirstOrder(TallestFirst(s))
  {
    if s != [] {
      TallestFirstIsOrdered(s[..|s| - 1]);
      InsertKeepsOrder(s[|s| - 1], TallestFirst(s[..|s| - 1]));
    }
  }

  /** The tallest-first order holds the same images as s: a permutation. */
  lemma {:induction false} TallestFirstPermutes(s: seq<Image>)
    ensures multiset(TallestFirst(s)) == multiset(s)
  {
    if s != [] {
      TallestFirstPermutes(s[..|s| - 1]);
      InsertMembers(s[|s| - 1], TallestFirst(s[..|s| - 1]));
      assert s == s[..|s| - 1] + [s[|s| - 1]];
    }
  }

  /** Images of equal height keep the order they had in s: the sort is stable. */
  lemma {:induction false} TallestFirstIsStable(s: seq<Image>, k: int)
    ensures OfHeight(TallestFirst(s), k) == OfHeight(s, k)
  {
    if s != [] {
      TallestFirstIsStable(s[..|s| - 1], k);
      InsertOfHeight(s[|s| - 1], TallestFirst(s[..|s| - 1]), k);
    }
  }

  lemma {:induction false} OfHeightMembers(s: seq<Image>, k: int, x: Image)
    ensures x in OfHeight(s, k) <==> x in s && x.h == k
  {
    if s != [] {
      OfHeightMembers(s[..|s| - 1], k, x);
      assert s == s[..|s| - 1] + [s[|s| - 1]];
    }
  }

  /** The last image of a tallest-first sequence is the shortest. */
  lemma LastIsShortest(u: seq<Image>, x: Image)
    requires u != [] && TallestFirstOrder(u) && x in u
    ensures u[|u| - 1].h <= x.h
  {
    var i :| 0 <= i < |u| && u[i] == x;
    if i < |u| - 1 {
      assert u[i].h >= u[|u| - 1].h;
    }
  }

  /** Two non-empty tallest-first sequences with the same images of each
      height, in the same order, end with the same image. */
  lemma LastsAgree(t: seq<Image>, u: seq<Image>)
    requires t != [] && u != []
    requires TallestFirstOrder(t) && TallestFirstOrder(u)
    requires OfHeight(t, t[|t| - 1].h) == OfHeight(u, t[|t| - 1].h)
    requires OfHeight(t, u[|u| - 1].h) == OfHeight(u, u[|u| - 1].h)
    ensures t[|t| - 1] == u[|u| - 1]
  {
    var a, b := t[|t| - 1], u[|u| - 1];
    assert a in t && b in u;
    OfHeightMembers(t, a.h, a);
    OfHeightMembers(u, b.h, b);
    OfHeightMembers(u, a.h, a);
    OfHeightMembers(t, b.h, b);
    LastIsShortest(u, a);
    LastIsShortest(t, b);
    assert OfHeight(t, a.h) == OfHeight(t[..|t| - 1], a.h) + [a];
    assert OfHeight(u, a.h) == OfHeight(u[..|u| - 1], a.h) + [b];
    SnocCancel(OfHeight(t[..|t| - 1], a.h), OfHeight(u[..|u| - 1], a.h), a, b);
  }

  /** Dropping the same last image from both keeps the classes equal. */
  lemma DropLastAgrees(t: seq<Image>, u: seq<Image>, t': seq<Image>, u': seq<Image>)
    requires t != [] && u != [] && t[|t| - 1] == u[|u| - 1]
    requires t' == t[..|t| - 1] && u' == u[..|u| - 1]
    requires forall k :: OfHeight(t, k) == OfHeight(u, k)
    ensures forall k :: OfHeight(t', k) == OfHeight(u', k)
  {
    var a := t[|t| - 1];
    forall k ensures OfHeight(t', k) == OfHeight(u', k) {
      var last := if a.h == k then [a] else [];
      assert OfHeight(t, k) == OfHeight(t', k) + last;
      assert OfHeight(u, k) == OfHeight(u', k) + last;
      AppendCancel(OfHeight(t', k), OfHeight(u', k), last);
    }
  }

  /** Two tallest-first sequences with the same images of each height, in the
      same order, are equal. */
  lemma {:induction false} OrderedByClassesUnique(t: seq<Image>, u: seq<Image>)
    requires TallestFirstOrder(t) && TallestFirstOrder(u)
    requires forall k :: OfHeight(t, k) == OfHeight(u, k)
    ensures t == u
    decreases |t|
  {
    if t == [] || u == [] {
      EmptyClasses(t, u);
    } else {
      assert OfHeight(t, t[|t| - 1].h) == OfHeight(u, t[|t| - 1].h);
      assert OfHeight(t, u[|u| - 1].h) == OfHeight(u, u[|u| - 1].h);
      LastsAgree(t, u);
      DropLastAgrees(t, u, t[..|t| - 1], u[..|u| - 1]);
      OrderedByClassesUnique(t[..|t| - 1], u[..|u| - 1]);
      assert t == t[..|t| - 1] + [t[|t| - 1]];
      assert u == u[..|u| - 1] + [u[|u| - 1]];
    }
  }

  /** A sequence with no image of any height is empty. */
  lemma EmptyClasses(t: seq<Image>, u: seq<Image>)
    requires t == [] || u == []
    requires forall k :: OfHeight(t, k) == OfHeight(u, k)
    ensures t == u
  {
    if t != [] {
      OfHeightMembers(t, t[|t| - 1].h, t[|t| - 1]);
    }
    if u != [] {
      OfHeightMembers(u, u[|u| - 1].h, u[|u| - 1]);
    }
  }

  lemma SnocCancel(p: seq<Image>, q: seq<Image>, x: Image, y: Image)
    requires p + [x] == q + [y]
    ensures p == q && x == y
  {
    assert |p| == |q|;
    assert p == (p + [x])[..|p|];
    assert q == (q + [y])[..|q|];
    assert x == (p + [x])[|p|];
  }

  lemma AppendCancel(p: seq<Image>, q: seq<Image>, r: seq<Image>)
    requires p + r == q + r
    ensures p == q
  {
    assert p == (p + r)[..|p|];
    assert q == (q + r)[..|q|];
  }

  /** TallestFirst is the only stable tallest-first order of s. */
  lemma TallestFirstUnique(s: seq<Image>, t: seq<Image>)
    requires TallestFirstOrder(t)
    requires forall k :: OfHeight(t, k) == OfHeight(s, k)
    ensures t == TallestFirst(s)
  {
    TallestFirstIsOrdered(s);
    forall k ensures OfHeight(t, k) == OfHeight(TallestFirst(s), k) {
      TallestFirstIsStable(s, k);
    }
    OrderedByClassesUnique(t, TallestFirst(s));
  }

  /** images.sort(key=height, reverse=True): an insertion sort in place. */
  method SortTallestFirst(a: array<Image>)
    modifies a
    ensures a[..] == TallestFirst(old(a[..]))
  {
    ghost var input := a[..];
    var i := 0;
    while i < a.Length
      invariant 0 <= i <= a.Length
      invariant a[..i] == TallestFirst(input[..i])
      invariant a[i..] == input[i..]
    {
      assert a[i] == input[i];
      InsertAt(a, i);
      TallestFirstGrows(input, i);
      i := i + 1;
    }
    assert input[..a.Length] == input;
  }

  lemma TallestFirstGrows(s: seq<Image>, i: int)
    requires 0 <= i < |s|
    ensures TallestFirst(s[..i + 1]) == Insert(s[i], TallestFirst(s[..i]))
  {
    assert s[..i + 1][..i] == s[..i];
  }

  /** One pass of the insertion sort: a[i] goes into the gap MakeRoom opens
      behind the first image at least as tall, so that equal heights keep
      their order. */
  method InsertAt(a: array<Image>, i: int)
    requires 0 <= i < a.Length
    modifies a
    ensures a[..i + 1] == Insert(old(a[i]), old(a[..i]))
    ensures a[i + 1..] == old(a[i + 1..])
  {
    var x := a[i];
    ghost var sorted := a[..i];
    var j := MakeRoom(a, i, x);
    a[j] := x;
    InsertIntoGap(x, sorted, j);
    assert a[..i + 1] == sorted[..j] + [x] + sorted[j..];
  }

  /** Shifts one place to the right the images of a[..i] that end a[..i] and
      are shorter than x, and returns the index of the gap this leaves. */
  method MakeRoom(a: array<Image>, i: int, x: Image) returns (j: int)
    requires 0 <= i < a.Length
    modifies a
    ensures 0 <= j <= i
    ensures j == 0 || old(a[j - 1]).h >= x.h
    ensures forall k :: j <= k < i ==> old(a[k]).h < x.h
    ensures forall k :: 0 <= k < j ==> a[k] == old(a[k])
    ensures forall k :: j < k <= i ==> a[k] == old(a[k - 1])
    ensures forall k :: i < k < a.Length ==> a[k] == old(a[k])
  {
    j := i;
    while j > 0 && a[j - 1].h < x.h
      invariant 0 <= j <= i
      invariant forall k :: j <= k < i ==> old(a[k]).h < x.h
      invariant forall k :: 0 <= k < j ==> a[k] == old(a[k])
      invariant forall k :: j < k <= i ==> a[k] == old(a[k - 1])
      invariant forall k :: i < k < a.Length ==> a[k] == old(a[k])
    {
      a[j] := a[j - 1];
      j := j - 1;
    }
  }

  /** x inserted into r lands in the gap at j when the images from j on are
      shorter than x and the one before j is at least as tall. */
  lemma {:induction false} InsertIntoGap(x: Image, r: seq<Image>, j: int)
    requires 0 <= j <= |r|
    requires j == 0 || r[j - 1].h >= x.h
    requires forall k :: j <= k < |r| ==> r[k].h < x.h
    ensures Insert(x, r) == r[..j] + [x] + r[j..]
    decreases |r|
  {
    if j == |r| {
      assert r[..j] == r && r[j..] == [];
    } else {
      var front := r[..|r| - 1];
      InsertIntoGap(x, front, j);
      assert front[..j] == r[..j];
      assert r[j..] == front[j..] + [r[|r| - 1]];
    }
  }
}
