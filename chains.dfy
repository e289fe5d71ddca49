/** The value-level model of the skip list: node ids in an arena, the
    level-0 order of the real nodes, the chain of nodes present at each
    level, and the well-formedness of forward and backward links. */
module Chains {
  import opened Ordering

  /** A node id names a slot of the arena; NIL plays the null pointer. */
  type Id = nat
  const NIL: Id := 0
  const HEAD: Id := 1
  const TAIL: Id := 2
  /** Real nodes get ids from here upward. */
  const FIRST_NODE: Id := 3
  /** The level of both sentinels, and the cap of a drawn level. */
  const MAX_LEVEL: nat := 5

  ghost predicate Distinct(s: seq<Id>) {
    forall i, j :: 0 <= i < j < |s| ==> s[i] != s[j]
  }

  /** The nodes of `s` whose level is at least `L`, in their order in `s`. */
  function Above(s: seq<Id>, lvl: map<Id, nat>, L: nat): seq<Id> {
    if s == [] then []
    else
      var last := s[|s| - 1];
      Above(s[..|s| - 1], lvl, L) + (if last in lvl && lvl[last] >= L then [last] else [])
  }

  function FirstOr(t: seq<Id>, default: Id): Id {
    if t == [] then default else t[0]
  }

  /** The chain of level `L`: head, the real nodes of that level, tail. */
  function Chain(order: seq<Id>, lvl: map<Id, nat>, L: nat): seq<Id> {
    Above([HEAD] + order, lvl, L) + [TAIL]
  }

  /** Slot `L` of every node of `c` but the last points to the next node of `c`. */
  ghost predicate Linked(nx: map<Id, seq<Id>>, L: nat, c: seq<Id>) {
    forall i :: 0 <= i < |c| - 1 ==> c[i] in nx && L < |nx[c[i]]| && nx[c[i]][L] == c[i + 1]
  }

  /** Every node of `c` but the first has the node before it as back-link. */
  ghost predicate PrevLinked(pv: map<Id, Id>, c: seq<Id>) {
    forall i :: 0 < i < |c| ==> c[i] in pv && pv[c[i]] == c[i - 1]
  }

  /** The values stored at the nodes of `s`. */
  function ValuesOf<T>(s: seq<Id>, m: map<Id, T>): (r: seq<T>)
    requires forall i :: 0 <= i < |s| ==> s[i] in m
    ensures |r| == |s| && forall i :: 0 <= i < |s| ==> r[i] == m[s[i]]
  {
    seq(|s|, i requires 0 <= i < |s| => m[s[i]])
  }

  /** Non-decreasing under `less`. */
  ghost predicate Sorted<T>(less: (T, T) -> bool, vs: seq<T>) {
    forall i, j :: 0 <= i < j < |vs| ==> !less(vs[j], vs[i])
  }

  /** The length of the longest prefix of `s` strictly less than `v`. */
  function LowerBound<T>(less: (T, T) -> bool, s: seq<T>, v: T): (r: nat)
    ensures r <= |s|
    ensures forall i :: 0 <= i < r ==> less(s[i], v)
    ensures r < |s| ==> !less(s[r], v)
  {
    if s == [] || !less(s[0], v) then 0 else 1 + LowerBound(less, s[1..], v)
  }

  /** The length of the longest prefix of `s` not greater than `v`. */
  function UpperBound<T>(less: (T, T) -> bool, s: seq<T>, v: T): (r: nat)
    ensures r <= |s|
    ensures forall i :: 0 <= i < r ==> !less(v, s[i])
    ensures r < |s| ==> less(v, s[r])
  {
    if s == [] || less(v, s[0]) then 0 else 1 + UpperBound(less, s[1..], v)
  }

  ghost predicate ContainsEqual<T>(less: (T, T) -> bool, s: seq<T>, v: T) {
    exists i :: 0 <= i < |s| && IsEqual(less, s[i], v)
  }

  /** The arena part of the invariant: which ids are live, and the level
      and number of forward slots of each node. Real nodes are exactly
      the ids of `order`, each at most once. */
  ghost predicate Arena<T>(value: map<Id, T>, level: map<Id, nat>,
                           next: map<Id, seq<Id>>, prev: map<Id, Id>, order: seq<Id>)
  {
    && Distinct(order)
    && (forall i :: 0 <= i < |order| ==> order[i] >= FIRST_NODE)
    && (forall y :: y in value <==> y in order)
    && (forall y :: y in level <==> y == HEAD || y == TAIL || y in value)
    && (forall y :: y in next <==> y in level)
    && (forall y :: y in prev <==> y in level)
    && level[HEAD] == MAX_LEVEL && level[TAIL] == MAX_LEVEL
    && (forall y :: y in value ==> 1 <= level[y] <= MAX_LEVEL)
    && (forall y :: y in next ==> |next[y]| == level[y] + 1)
  }

  /** Every level, from 0 to the top, is linked along its chain. */
  ghost predicate AllLinked(next: map<Id, seq<Id>>, level: map<Id, nat>, order: seq<Id>) {
    forall L :: 0 <= L <= MAX_LEVEL ==> Linked(next, L, Chain(order, level, L))
  }

  /** Every forward slot of tail is null. */
  ghost predicate TailEnds(next: map<Id, seq<Id>>) {
    TAIL in next && |next[TAIL]| == MAX_LEVEL + 1 && forall L :: 0 <= L <= MAX_LEVEL ==> next[TAIL][L] == NIL
  }

  /** Head's back-link is null and every other node's is its level-0
      predecessor. */
  ghost predicate BackLinked(prev: map<Id, Id>, order: seq<Id>) {
    HEAD in prev && prev[HEAD] == NIL && PrevLinked(prev, [HEAD] + order + [TAIL])
  }

  /** The representation invariant of a skip list whose real nodes, in
      level-0 order, are `order`. */
  ghost predicate Wf<T(!new)>(less: (T, T) -> bool, value: map<Id, T>, level: map<Id, nat>,
                             next: map<Id, seq<Id>>, prev: map<Id, Id>, order: seq<Id>)
  {
    && StrictWeakOrder(less)
    && Arena(value, level, next, prev, order)
    && AllLinked(next, level, order)
    && TailEnds(next)
    && BackLinked(prev, order)
    && Sorted(less, ValuesOf(order, value))
  }

  // ---------------------------------------------------------------------
  // Filtering by level

  lemma {:induction false} AboveAppend(a: seq<Id>, b: seq<Id>, lvl: map<Id, nat>, L: nat)
    ensures Above(a + b, lvl, L) == Above(a, lvl, L) + Above(b, lvl, L)
    decreases |b|
  {
    if b == [] {
      assert a + b == a;
    } else {
      assert (a + b)[..|a + b| - 1] == a + b[..|b| - 1];
      AboveAppend(a, b[..|b| - 1], lvl, L);
    }
  }

  lemma AboveSingle(x: Id, lvl: map<Id, nat>, L: nat)
    ensures Above([x], lvl, L) == if x in lvl && lvl[x] >= L then [x] else []
  {
    assert [x][..0] == [];
  }

  lemma {:induction false} AboveMember(s: seq<Id>, lvl: map<Id, nat>, L: nat, y: Id)
    ensures y in Above(s, lvl, L) <==> y in s && y in lvl && lvl[y] >= L
  {
    if s != [] {
      AboveMember(s[..|s| - 1], lvl, L, y);
      assert s == s[..|s| - 1] + [s[|s| - 1]];
    }
  }

  lemma {:induction false} AboveDistinct(s: seq<Id>, lvl: map<Id, nat>, L: nat)
    requires Distinct(s)
    ensures Distinct(Above(s, lvl, L))
  {
    if s != [] {
      var pre := s[..|s| - 1];
      AboveDistinct(pre, lvl, L);
      AboveMember(pre, lvl, L, s[|s| - 1]);
    }
  }

  /** Filtering keeps everything when every node is high enough. */
  lemma {:induction false} AboveAll(s: seq<Id>, lvl: map<Id, nat>, L: nat)
    requires forall i :: 0 <= i < |s| ==> s[i] in lvl && lvl[s[i]] >= L
    ensures Above(s, lvl, L) == s
  {
    if s != [] {
      AboveAll(s[..|s| - 1], lvl, L);
    }
  }

  /** At level 0 every node is kept, so nothing at level 0 lies strictly
      between positions `cj` and `p + 1` only when they coincide. */
  lemma AboveZeroEmpty(s: seq<Id>, lvl: map<Id, nat>, cj: nat, p: nat)
    requires cj <= p < |s| && forall i :: 0 <= i < |s| ==> s[i] in lvl
    requires Above(s[cj + 1..p + 1], lvl, 0) == []
    ensures cj == p
  {
    AboveAll(s[cj + 1..p + 1], lvl, 0);
  }

  /** Only the levels of the nodes of `s` matter. */
  lemma {:induction false} AboveSameLevels(s: seq<Id>, m1: map<Id, nat>, m2: map<Id, nat>, L: nat)
    requires forall i :: 0 <= i < |s| ==> (s[i] in m1 <==> s[i] in m2) && (s[i] in m1 ==> m1[s[i]] == m2[s[i]])
    ensures Above(s, m1, L) == Above(s, m2, L)
  {
    if s != [] {
      AboveSameLevels(s[..|s| - 1], m1, m2, L);
    }
  }

  lemma DistinctInsert(s: seq<Id>, p: nat, x: Id)
    requires Distinct(s) && p <= |s| && x !in s
    ensures Distinct(s[..p] + [x] + s[p..])
  {
    var t := s[..p] + [x] + s[p..];
    forall i, j | 0 <= i < j < |t|
      ensures t[i] != t[j]
    {
      if i < p && j < p {
        assert t[i] == s[i] && t[j] == s[j];
      } else if i < p && j > p {
        assert t[i] == s[i] && t[j] == s[j - 1];
      } else if i > p {
        assert t[i] == s[i - 1] && t[j] == s[j - 1];
      } else if i == p {
        assert t[j] == s[j - 1];
      } else {
        assert t[i] == s[i];
      }
    }
  }

  lemma DistinctRemove(s: seq<Id>, q: nat)
    requires Distinct(s) && q < |s|
    ensures Distinct(s[..q] + s[q + 1..]) && s[q] !in s[..q] + s[q + 1..]
  {
    var t := s[..q] + s[q + 1..];
    forall i, j | 0 <= i < j < |t|
      ensures t[i] != t[j]
    {
      var i', j' := if i < q then i else i + 1, if j < q then j else j + 1;
      assert t[i] == s[i'] && t[j] == s[j'];
    }
    forall i | 0 <= i < |t|
      ensures t[i] != s[q]
    {
      var i' := if i < q then i else i + 1;
      assert t[i] == s[i'];
    }
  }

  /** Where everything sits after `x` goes in at position `p`. */
  lemma InsertedAt<X>(s: seq<X>, p: nat, x: X)
    requires p <= |s|
    ensures var t := s[..p] + [x] + s[p..];
            && |t| == |s| + 1 && t[p] == x
            && (forall i :: 0 <= i < p ==> t[i] == s[i])
            && (forall i :: p < i < |t| ==> t[i] == s[i - 1])
            && (forall y :: y in t <==> y in s || y == x)
  {
    var t := s[..p] + [x] + s[p..];
    assert s == s[..p] + s[p..];
    forall y ensures y in t <==> y in s || y == x {
      assert y in s <==> y in s[..p] || y in s[p..];
    }
  }

  /** Where everything sits after position `q` leaves. */
  lemma RemovedAt<X>(s: seq<X>, q: nat)
    requires q < |s|
    ensures var t := s[..q] + s[q + 1..];
            && |t| == |s| - 1
            && (forall i :: 0 <= i < q ==> t[i] == s[i])
            && (forall i :: q <= i < |t| ==> t[i] == s[i + 1])
            && (forall y :: y in t ==> y in s)
  {
    var t := s[..q] + s[q + 1..];
    forall y | y in t ensures y in s {
      var i :| 0 <= i < |t| && t[i] == y;
      if i < q { assert t[i] == s[i]; } else { assert t[i] == s[i + 1]; }
    }
  }

  lemma RemovedMembers(s: seq<Id>, q: nat)
    requires Distinct(s) && q < |s|
    ensures forall y :: y in s[..q] + s[q + 1..] <==> y in s && y != s[q]
  {
    DistinctRemove(s, q);
    RemovedAt(s, q);
    assert s == s[..q] + [s[q]] + s[q + 1..];
    forall y | y in s && y != s[q] ensures y in s[..q] + s[q + 1..] {
      assert y in s[..q] || y == s[q] || y in s[q + 1..];
    }
  }

  // ---------------------------------------------------------------------
  // Links

  /** The forward slot `L` of a node of the chain is the first node after
      it, in `s`, whose level reaches `L` (or tail). */
  lemma NextIsFirstAbove(nx: map<Id, seq<Id>>, lvl: map<Id, nat>, s: seq<Id>, L: nat, ci: nat)
    requires Linked(nx, L, Above(s, lvl, L) + [TAIL])
    requires ci < |s| && s[ci] in lvl && lvl[s[ci]] >= L
    ensures s[ci] in nx && L < |nx[s[ci]]|
    ensures nx[s[ci]][L] == FirstOr(Above(s[ci + 1..], lvl, L), TAIL)
  {
    assert s == s[..ci] + [s[ci]] + s[ci + 1..];
    AboveAppend(s[..ci] + [s[ci]], s[ci + 1..], lvl, L);
    AboveAppend(s[..ci], [s[ci]], lvl, L);
    AboveSingle(s[ci], lvl, L);
    var a0 := Above(s[..ci], lvl, L);
    var rest := Above(s[ci + 1..], lvl, L) + [TAIL];
    var c := Above(s, lvl, L) + [TAIL];
    assert c == a0 + [s[ci]] + rest;
    assert c[|a0|] == s[ci];
    assert c[|a0| + 1] == rest[0];
  }

  /** Splicing `x` in after the last node of `A`. */
  lemma LinkedSplice(nx: map<Id, seq<Id>>, L: nat, A: seq<Id>, B: seq<Id>, x: Id)
    requires Linked(nx, L, A + B) && |A| > 0 && |B| > 0
    requires Distinct(A + B) && x !in A && x !in B
    requires x in nx && L < |nx[x]|
    ensures A[|A| - 1] in nx && L < |nx[A[|A| - 1]]| && nx[A[|A| - 1]][L] == B[0]
    ensures var a := A[|A| - 1];
            Linked(nx[x := nx[x][L := B[0]]][a := nx[a][L := x]], L, A + [x] + B)
  {
    var a := A[|A| - 1];
    assert (A + B)[|A| - 1] == a && (A + B)[|A|] == B[0];
    var nx2 := nx[x := nx[x][L := B[0]]][a := nx[a][L := x]];
    var c := A + [x] + B;
    forall i | 0 <= i < |c| - 1
      ensures c[i] in nx2 && L < |nx2[c[i]]| && nx2[c[i]][L] == c[i + 1]
    {
      if i < |A| - 1 {
        assert c[i] == (A + B)[i] && c[i + 1] == (A + B)[i + 1];
        assert c[i] != a;
      } else if i == |A| - 1 {
      } else if i == |A| {
      } else {
        assert c[i] == (A + B)[i - 1] && c[i + 1] == (A + B)[i];
        assert c[i] != a;
      }
    }
  }

  /** Unlinking `x`, which follows the last node of `A`. */
  lemma LinkedUnlink(nx: map<Id, seq<Id>>, L: nat, A: seq<Id>, x: Id, B: seq<Id>)
    requires Linked(nx, L, A + [x] + B) && |A| > 0 && |B| > 0
    requires Distinct(A + [x] + B)
    ensures A[|A| - 1] in nx && L < |nx[A[|A| - 1]]| && nx[A[|A| - 1]][L] == x
    ensures x in nx && L < |nx[x]| && nx[x][L] == B[0]
    ensures var a := A[|A| - 1];
            Linked(nx[a := nx[a][L := B[0]]], L, A + B)
  {
    var a := A[|A| - 1];
    var c := A + [x] + B;
    assert c[|A| - 1] == a && c[|A|] == x && c[|A| + 1] == B[0];
    var nx2 := nx[a := nx[a][L := B[0]]];
    var d := A + B;
    forall i | 0 <= i < |d| - 1
      ensures d[i] in nx2 && L < |nx2[d[i]]| && nx2[d[i]][L] == d[i + 1]
    {
      if i < |A| - 1 {
        assert d[i] == c[i] && d[i + 1] == c[i + 1];
        assert c[i] != a;
      } else if i == |A| - 1 {
      } else {
        assert d[i] == c[i + 1] && d[i + 1] == c[i + 2];
        assert c[i + 1] != a;
      }
    }
  }

  /** Slot `L` of every node is the same in `nx2` as in `nx`. */
  ghost predicate SameAt(nx: map<Id, seq<Id>>, nx2: map<Id, seq<Id>>, L: nat) {
    forall y :: y in nx && L < |nx[y]| ==> y in nx2 && L < |nx2[y]| && nx2[y][L] == nx[y][L]
  }

  lemma LinkedFrame(nx: map<Id, seq<Id>>, nx2: map<Id, seq<Id>>, L: nat, c: seq<Id>)
    requires Linked(nx, L, c) && SameAt(nx, nx2, L)
    ensures Linked(nx2, L, c)
  {
  }

  /** Rewriting slot `L` of one node leaves every other slot as it was. */
  lemma SlotUpdateFrame(nx: map<Id, seq<Id>>, y: Id, L: nat, w: Id, L2: nat)
    requires y in nx && L < |nx[y]| && L2 != L
    ensures var ys: seq<Id> := nx[y][L := w]; SameAt(nx, nx[y := ys], L2)
  {
  }

  lemma SameAtTrans(nx: map<Id, seq<Id>>, nx2: map<Id, seq<Id>>, nx3: map<Id, seq<Id>>, L: nat)
    requires SameAt(nx, nx2, L) && SameAt(nx2, nx3, L)
    ensures SameAt(nx, nx3, L)
  {
  }

  /** Replacing the entry of a node off the chain keeps the chain linked. */
  lemma LinkedOff(nx: map<Id, seq<Id>>, L: nat, c: seq<Id>, y: Id, w: seq<Id>)
    requires Linked(nx, L, c) && y !in c
    ensures Linked(nx[y := w], L, c)
  {
    forall i | 0 <= i < |c| - 1
      ensures c[i] != y
    {
      assert c[i] in c;
    }
  }

  lemma LinkedWithout(nx: map<Id, seq<Id>>, L: nat, c: seq<Id>, y: Id)
    requires Linked(nx, L, c) && y !in c
    ensures Linked(nx - {y}, L, c)
  {
    forall i | 0 <= i < |c| - 1
      ensures c[i] in nx - {y}
    {
      assert c[i] in c;
    }
  }

  // ---------------------------------------------------------------------
  // Sorted sequences and their bounds

  lemma LowerBoundSplit<T(!new)>(less: (T, T) -> bool, s: seq<T>, v: T)
    requires StrictWeakOrder(less) && Sorted(less, s)
    ensures forall i :: LowerBound(less, s, v) <= i < |s| ==> !less(s[i], v)
  {
    var p := LowerBound(less, s, v);
    forall i | p <= i < |s|
      ensures !less(s[i], v)
    {
      if i > p {
        assert !less(s[i], s[p]);
      }
    }
  }

  lemma UpperBoundSplit<T(!new)>(less: (T, T) -> bool, s: seq<T>, v: T)
    requires StrictWeakOrder(less) && Sorted(less, s)
    ensures forall i :: UpperBound(less, s, v) <= i < |s| ==> less(v, s[i])
  {
    var k := UpperBound(less, s, v);
    forall i | k <= i < |s|
      ensures less(v, s[i])
    {
      if i > k {
        assert !less(s[i], s[k]);
      }
    }
  }

  /** When some element is equal to `v`, the equal elements sit directly
      before the upper bound: the last element not greater than `v` is
      equal to it, and so is the first one not less than it. */
  lemma BoundsOfEqual<T(!new)>(less: (T, T) -> bool, s: seq<T>, v: T)
    requires StrictWeakOrder(less) && Sorted(less, s) && ContainsEqual(less, s, v)
    ensures LowerBound(less, s, v) < UpperBound(less, s, v)
    ensures IsEqual(less, s[UpperBound(less, s, v) - 1], v)
    ensures IsEqual(less, s[LowerBound(less, s, v)], v)
  {
    var i :| 0 <= i < |s| && IsEqual(less, s[i], v);
    var p, k := LowerBound(less, s, v), UpperBound(less, s, v);
    LowerBoundSplit(less, s, v);
    UpperBoundSplit(less, s, v);
    assert p <= i < k;
    assert !less(s[k - 1], s[i]) || k - 1 == i;
    assert !less(s[i], s[p]) || p == i;
  }

  /** Without an equal element the two bounds coincide. */
  lemma BoundsMeet<T(!new)>(less: (T, T) -> bool, s: seq<T>, v: T)
    requires StrictWeakOrder(less) && Sorted(less, s) && !ContainsEqual(less, s, v)
    ensures LowerBound(less, s, v) == UpperBound(less, s, v)
  {
    LowerBoundSplit(less, s, v);
    UpperBoundSplit(less, s, v);
  }

  /** Equal values have the same lower bound. */
  lemma {:induction false} LowerBoundOfEqual<T(!new)>(less: (T, T) -> bool, s: seq<T>, a: T, b: T)
    requires StrictWeakOrder(less) && IsEqual(less, a, b)
    ensures LowerBound(less, s, a) == LowerBound(less, s, b)
  {
    if s != [] {
      assert less(s[0], a) <==> less(s[0], b);
      LowerBoundOfEqual(less, s[1..], a, b);
    }
  }

  /** Inserting at the lower bound keeps a sorted sequence sorted. */
  lemma SortedInsert<T(!new)>(less: (T, T) -> bool, s: seq<T>, v: T)
    requires StrictWeakOrder(less) && Sorted(less, s)
    ensures var p := LowerBound(less, s, v); Sorted(less, s[..p] + [v] + s[p..])
  {
    var p := LowerBound(less, s, v);
    LowerBoundSplit(less, s, v);
    var t := s[..p] + [v] + s[p..];
    forall i, j | 0 <= i < j < |t|
      ensures !less(t[j], t[i])
    {
      if j < p {
        assert t[i] == s[i] && t[j] == s[j];
      } else if j == p {
        assert t[i] == s[i];
      } else if i == p {
        assert t[j] == s[j - 1];
      } else if i < p {
        assert t[i] == s[i] && t[j] == s[j - 1];
      } else {
        assert t[i] == s[i - 1] && t[j] == s[j - 1];
      }
    }
  }

  lemma SortedRemove<T>(less: (T, T) -> bool, s: seq<T>, q: nat)
    requires Sorted(less, s) && q < |s|
    ensures Sorted(less, s[..q] + s[q + 1..])
  {
    var t := s[..q] + s[q + 1..];
    forall i, j | 0 <= i < j < |t|
      ensures !less(t[j], t[i])
    {
      var i', j' := if i < q then i else i + 1, if j < q then j else j + 1;
      assert t[i] == s[i'] && t[j] == s[j'];
    }
  }
}

/** How insertion and removal of one node change the chains and links. */
module ChainEdits {
  import opened Ordering
  import opened Chains

  /** The first node of level `L` after position `ci` of `s`, when one
      occurs up to position `k`, occurs at some position `j` in that range. */
  lemma FirstAboveWithin(s: seq<Id>, lvl: map<Id, nat>, L: nat, ci: nat, k: nat) returns (j: nat)
    requires ci <= k < |s| && Above(s[ci + 1..k + 1], lvl, L) != []
    ensures ci < j <= k && FirstOr(Above(s[ci + 1..], lvl, L), TAIL) == s[j]
    ensures s[j] in lvl && lvl[s[j]] >= L
  {
    var u, w := s[ci + 1..k + 1], s[k + 1..];
    assert s[ci + 1..] == u + w;
    AboveAppend(u, w, lvl, L);
    var f := Above(u, lvl, L)[0];
    AboveMember(u, lvl, L, f);
    var m :| 0 <= m < |u| && u[m] == f;
    j := ci + 1 + m;
  }

  lemma InsertChains(order: seq<Id>, lvl: map<Id, nat>, p: nat, x: Id, L: nat)
    requires p <= |order|
    ensures var s := [HEAD] + order;
            Chain(order, lvl, L) == Above(s[..p + 1], lvl, L) + (Above(s[p + 1..], lvl, L) + [TAIL])
    ensures var s := [HEAD] + order;
            Chain(order[..p] + [x] + order[p..], lvl, L)
              == Above(s[..p + 1], lvl, L) + Above([x], lvl, L) + (Above(s[p + 1..], lvl, L) + [TAIL])
  {
    var s := [HEAD] + order;
    assert s == s[..p + 1] + s[p + 1..];
    AboveAppend(s[..p + 1], s[p + 1..], lvl, L);
    assert [HEAD] + (order[..p] + [x] + order[p..]) == s[..p + 1] + [x] + s[p + 1..];
    AboveAppend(s[..p + 1] + [x], s[p + 1..], lvl, L);
    AboveAppend(s[..p + 1], [x], lvl, L);
  }

  lemma RemoveChains(order: seq<Id>, lvl: map<Id, nat>, q: nat, L: nat)
    requires q < |order|
    ensures var s := [HEAD] + order;
            Chain(order, lvl, L)
              == Above(s[..q + 1], lvl, L) + Above([order[q]], lvl, L) + (Above(s[q + 2..], lvl, L) + [TAIL])
    ensures var s := [HEAD] + order;
            Chain(order[..q] + order[q + 1..], lvl, L) == Above(s[..q + 1], lvl, L) + (Above(s[q + 2..], lvl, L) + [TAIL])
  {
    var s := [HEAD] + order;
    assert s == s[..q + 1] + [order[q]] + s[q + 2..];
    AboveAppend(s[..q + 1] + [order[q]], s[q + 2..], lvl, L);
    AboveAppend(s[..q + 1], [order[q]], lvl, L);
    assert [HEAD] + (order[..q] + order[q + 1..]) == s[..q + 1] + s[q + 2..];
    AboveAppend(s[..q + 1], s[q + 2..], lvl, L);
  }

  /** When nothing of level `L` lies strictly between position `ci` and
      position `p`, the node at `ci` ends the level-`L` nodes up to `p`. */
  lemma LastAbove(s: seq<Id>, lvl: map<Id, nat>, L: nat, ci: nat, p: nat)
    requires ci <= p < |s| && s[ci] in lvl && lvl[s[ci]] >= L
    requires Above(s[ci + 1..p + 1], lvl, L) == []
    ensures Above(s[..p + 1], lvl, L) == Above(s[..ci], lvl, L) + [s[ci]]
  {
    assert s[..p + 1] == s[..ci] + [s[ci]] + s[ci + 1..p + 1];
    AboveAppend(s[..ci] + [s[ci]], s[ci + 1..p + 1], lvl, L);
    AboveAppend(s[..ci], [s[ci]], lvl, L);
    AboveSingle(s[ci], lvl, L);
  }

  /** The chain of a level, with tail, has no repeated node. */
  lemma ChainDistinct(order: seq<Id>, lvl: map<Id, nat>, L: nat)
    requires Distinct([HEAD] + order) && TAIL !in [HEAD] + order
    ensures Distinct(Chain(order, lvl, L))
  {
    AboveDistinct([HEAD] + order, lvl, L);
    AboveMember([HEAD] + order, lvl, L, TAIL);
  }

  /** Splicing the new node `x` into level `L` right after the node at
      position `ci` of the spine links the chain of the new order. */
  lemma InsertLevelStep(nx: map<Id, seq<Id>>, lvl: map<Id, nat>, order: seq<Id>, p: nat, x: Id, L: nat, ci: nat)
    requires Linked(nx, L, Chain(order, lvl, L))
    requires p <= |order| && ci <= p
    requires ([HEAD] + order)[ci] in lvl && lvl[([HEAD] + order)[ci]] >= L
    requires Above(([HEAD] + order)[ci + 1..p + 1], lvl, L) == []
    requires Distinct([HEAD] + order) && TAIL !in [HEAD] + order && x !in [HEAD] + order && x != TAIL
    requires x in lvl && lvl[x] >= L && x in nx && L < |nx[x]|
    ensures var a := ([HEAD] + order)[ci]; a in nx && L < |nx[a]|
    ensures var a := ([HEAD] + order)[ci];
            Linked(nx[x := nx[x][L := nx[a][L]]][a := nx[a][L := x]], L, Chain(order[..p] + [x] + order[p..], lvl, L))
  {
    var s := [HEAD] + order;
    InsertChains(order, lvl, p, x, L);
    LastAbove(s, lvl, L, ci, p);
    AboveSingle(x, lvl, L);
    ChainDistinct(order, lvl, L);
    assert x !in s[..p + 1] && x !in s[p + 1..];
    AboveMember(s[..p + 1], lvl, L, x);
    AboveMember(s[p + 1..], lvl, L, x);
    var A, B := Above(s[..p + 1], lvl, L), Above(s[p + 1..], lvl, L) + [TAIL];
    assert Chain(order, lvl, L) == A + B;
    assert A[|A| - 1] == s[ci];
    LinkedSplice(nx, L, A, B, x);
  }

  /** Above the new node's level, the chains are as before. */
  lemma InsertLevelSkip(order: seq<Id>, lvl: map<Id, nat>, p: nat, x: Id, L: nat)
    requires p <= |order| && x in lvl && lvl[x] < L
    ensures Chain(order[..p] + [x] + order[p..], lvl, L) == Chain(order, lvl, L)
  {
    InsertChains(order, lvl, p, x, L);
    AboveSingle(x, lvl, L);
  }

  /** At level `L`, the predecessor search for `order[q]` ends at position
      `ci`: its slot `L` points to the removed node exactly when that node
      occupies level `L`, and then redirecting the slot to the removed
      node's own successor links the chain of the new order. */
  lemma RemoveLevelStep(nx: map<Id, seq<Id>>, lvl: map<Id, nat>, order: seq<Id>, q: nat, L: nat, ci: nat)
    requires Linked(nx, L, Chain(order, lvl, L))
    requires q < |order| && ci <= q
    requires ([HEAD] + order)[ci] in lvl && lvl[([HEAD] + order)[ci]] >= L
    requires Above(([HEAD] + order)[ci + 1..q + 1], lvl, L) == []
    requires Distinct([HEAD] + order) && TAIL !in [HEAD] + order
    ensures var a := ([HEAD] + order)[ci]; a in nx && L < |nx[a]|
    ensures var a, x := ([HEAD] + order)[ci], order[q];
            (x in lvl && lvl[x] >= L) <==> nx[a][L] == x
    ensures var a, x := ([HEAD] + order)[ci], order[q];
            x in lvl && lvl[x] >= L ==>
              x in nx && L < |nx[x]| &&
              Linked(nx[a := nx[a][L := nx[x][L]]], L, Chain(order[..q] + order[q + 1..], lvl, L))
    ensures var x := order[q];
            !(x in lvl && lvl[x] >= L) ==> Chain(order[..q] + order[q + 1..], lvl, L) == Chain(order, lvl, L)
  {
    if order[q] in lvl && lvl[order[q]] >= L {
      RemoveLevelUnlink(nx, lvl, order, q, L, ci);
    } else {
      RemoveLevelSkip(nx, lvl, order, q, L, ci);
    }
  }

  lemma RemoveLevelUnlink(nx: map<Id, seq<Id>>, lvl: map<Id, nat>, order: seq<Id>, q: nat, L: nat, ci: nat)
    requires Linked(nx, L, Chain(order, lvl, L))
    requires q < |order| && ci <= q
    requires ([HEAD] + order)[ci] in lvl && lvl[([HEAD] + order)[ci]] >= L
    requires Above(([HEAD] + order)[ci + 1..q + 1], lvl, L) == []
    requires Distinct([HEAD] + order) && TAIL !in [HEAD] + order
    requires order[q] in lvl && lvl[order[q]] >= L
    ensures var a, x := ([HEAD] + order)[ci], order[q];
            a in nx && L < |nx[a]| && nx[a][L] == x && x in nx && L < |nx[x]| &&
            Linked(nx[a := nx[a][L := nx[x][L]]], L, Chain(order[..q] + order[q + 1..], lvl, L))
  {
    var s := [HEAD] + order;
    var x := order[q];
    RemoveChains(order, lvl, q, L);
    LastAbove(s, lvl, L, ci, q);
    AboveSingle(x, lvl, L);
    ChainDistinct(order, lvl, L);
    var A, B := Above(s[..q + 1], lvl, L), Above(s[q + 2..], lvl, L) + [TAIL];
    assert A[|A| - 1] == s[ci];
    assert Chain(order, lvl, L) == A + [x] + B;
    LinkedUnlink(nx, L, A, x, B);
  }

  lemma RemoveLevelSkip(nx: map<Id, seq<Id>>, lvl: map<Id, nat>, order: seq<Id>, q: nat, L: nat, ci: nat)
    requires Linked(nx, L, Chain(order, lvl, L))
    requires q < |order| && ci <= q
    requires ([HEAD] + order)[ci] in lvl && lvl[([HEAD] + order)[ci]] >= L
    requires Above(([HEAD] + order)[ci + 1..q + 1], lvl, L) == []
    requires Distinct([HEAD] + order) && TAIL !in [HEAD] + order
    requires !(order[q] in lvl && lvl[order[q]] >= L)
    ensures var a := ([HEAD] + order)[ci]; a in nx && L < |nx[a]| && nx[a][L] != order[q]
    ensures Chain(order[..q] + order[q + 1..], lvl, L) == Chain(order, lvl, L)
  {
    var s := [HEAD] + order;
    var x := order[q];
    RemoveChains(order, lvl, q, L);
    AboveSingle(x, lvl, L);
    LastAbove(s, lvl, L, ci, q);
    var A, B := Above(s[..q + 1], lvl, L), Above(s[q + 2..], lvl, L) + [TAIL];
    assert Chain(order, lvl, L) == A + B;
    LaterAbove(order, lvl, q, L);
    LinkedJoin(nx, L, A, B);
  }

  /** A node of a distinct spine does not come back among the nodes that
      follow it. */
  lemma LaterAbove(order: seq<Id>, lvl: map<Id, nat>, q: nat, L: nat)
    requires q < |order| && Distinct([HEAD] + order) && TAIL !in [HEAD] + order
    ensures order[q] !in Above(([HEAD] + order)[q + 2..], lvl, L) + [TAIL]
  {
    var s := [HEAD] + order;
    AboveMember(s[q + 2..], lvl, L, order[q]);
    assert order[q] == s[q + 1] && order[q] !in s[q + 2..];
  }

  /** In a linked chain `A + B`, the last node of `A` points at the first
      node of `B`. */
  lemma LinkedJoin(nx: map<Id, seq<Id>>, L: nat, A: seq<Id>, B: seq<Id>)
    requires Linked(nx, L, A + B) && A != [] && B != []
    ensures A[|A| - 1] in nx && L < |nx[A[|A| - 1]]| && nx[A[|A| - 1]][L] == B[0]
  {
    var c := A + B;
    assert c[|A| - 1] == A[|A| - 1] && c[|A|] == B[0];
  }

  /** Back-links after the new node `x` goes between positions `p` and
      `p + 1` of the level-0 chain. */
  lemma PrevAfterInsert(pv: map<Id, Id>, order: seq<Id>, p: nat, x: Id)
    requires p <= |order|
    requires var f := [HEAD] + order + [TAIL]; PrevLinked(pv, f) && Distinct(f) && x !in f
    ensures var f := [HEAD] + order + [TAIL];
            PrevLinked(pv[x := f[p]][f[p + 1] := x], [HEAD] + (order[..p] + [x] + order[p..]) + [TAIL])
  {
    var f := [HEAD] + order + [TAIL];
    var g := [HEAD] + (order[..p] + [x] + order[p..]) + [TAIL];
    assert g == f[..p + 1] + [x] + f[p + 1..];
    var pv2 := pv[x := f[p]][f[p + 1] := x];
    forall i | 0 < i < |g|
      ensures g[i] in pv2 && pv2[g[i]] == g[i - 1]
    {
      if i <= p {
        assert g[i] == f[i] && g[i - 1] == f[i - 1];
        assert f[i] != f[p + 1];
      } else if i == p + 1 {
      } else if i == p + 2 {
        assert g[i] == f[p + 1];
      } else {
        assert g[i] == f[i - 1] && g[i - 1] == f[i - 2];
        assert f[i - 1] != f[p + 1];
      }
    }
  }

  /** Back-links after the node at position `q + 1` of the level-0 chain
      leaves it: its successor takes over its back-link. */
  lemma PrevAfterRemove(pv: map<Id, Id>, order: seq<Id>, q: nat)
    requires q < |order|
    requires var f := [HEAD] + order + [TAIL]; PrevLinked(pv, f) && Distinct(f)
    ensures var f := [HEAD] + order + [TAIL];
            f[q + 1] in pv &&
            PrevLinked(pv[f[q + 2] := pv[f[q + 1]]] - {f[q + 1]}, [HEAD] + (order[..q] + order[q + 1..]) + [TAIL])
  {
    var f := [HEAD] + order + [TAIL];
    var g := [HEAD] + (order[..q] + order[q + 1..]) + [TAIL];
    assert g == f[..q + 1] + f[q + 2..];
    var pv2 := pv[f[q + 2] := pv[f[q + 1]]] - {f[q + 1]};
    forall i | 0 < i < |g|
      ensures g[i] in pv2 && pv2[g[i]] == g[i - 1]
    {
      if i <= q {
        assert g[i] == f[i] && g[i - 1] == f[i - 1];
        assert f[i] != f[q + 1] && f[i] != f[q + 2];
      } else if i == q + 1 {
        assert g[i] == f[q + 2] && g[i - 1] == f[q];
        assert f[q + 2] != f[q + 1];
      } else {
        assert g[i] == f[i + 1] && g[i - 1] == f[i];
        assert f[i + 1] != f[q + 1] && f[i + 1] != f[q + 2];
      }
    }
  }
}
