/** Consequences of the representation invariant, and the invariant
    re-established after each kind of edit. */
module Layout {
  import opened Ordering
  import opened Chains
  import opened ChainEdits

  /** Shape facts about the level-0 chain that every operation needs. */
  lemma SpineFacts<T>(value: map<Id, T>, level: map<Id, nat>,
                      next: map<Id, seq<Id>>, prev: map<Id, Id>, order: seq<Id>)
    requires Arena(value, level, next, prev, order)
    ensures Distinct([HEAD] + order) && TAIL !in [HEAD] + order && NIL !in [HEAD] + order
    ensures Distinct([HEAD] + order + [TAIL])
    ensures forall i :: 0 < i < |[HEAD] + order| ==> ([HEAD] + order)[i] in value
    ensures forall i :: 0 <= i < |[HEAD] + order| ==> ([HEAD] + order)[i] in level
    ensures Chain(order, level, 0) == [HEAD] + order + [TAIL]
  {
    SpineDistinct(order);
    SpineMembers(value, level, order);
    AboveAll([HEAD] + order, level, 0);
  }

  /** Positions in the level-0 chain `[HEAD] + order + [TAIL]`, against the
      spine and the successor sequence. */
  lemma FullIndex(order: seq<Id>, i: nat)
    requires i <= |order|
    ensures ([HEAD] + order + [TAIL])[i] == ([HEAD] + order)[i]
    ensures ([HEAD] + order + [TAIL])[i + 1] == (order + [TAIL])[i]
  {
  }

  lemma SpineDistinct(order: seq<Id>)
    requires Distinct(order) && forall i :: 0 <= i < |order| ==> order[i] >= FIRST_NODE
    ensures Distinct([HEAD] + order) && TAIL !in [HEAD] + order && NIL !in [HEAD] + order
    ensures Distinct([HEAD] + order + [TAIL])
  {
    var s := [HEAD] + order;
    forall i | 0 < i < |s| ensures s[i] >= FIRST_NODE {
      assert s[i] == order[i - 1];
    }
    forall i, j | 0 <= i < j < |s| ensures s[i] != s[j] {
      assert s[j] == order[j - 1];
      if i > 0 { assert s[i] == order[i - 1]; }
    }
    var f := s + [TAIL];
    forall i, j | 0 <= i < j < |f| ensures f[i] != f[j] {
      if j < |s| { assert f[i] == s[i] && f[j] == s[j]; }
    }
  }

  lemma SpineMembers<T>(value: map<Id, T>, level: map<Id, nat>, order: seq<Id>)
    requires forall y :: y in value <==> y in order
    requires forall y :: y in level <==> y == HEAD || y == TAIL || y in value
    ensures forall i :: 0 < i < |[HEAD] + order| ==> ([HEAD] + order)[i] in value
    ensures forall i :: 0 <= i < |[HEAD] + order| ==> ([HEAD] + order)[i] in level
  {
    var s := [HEAD] + order;
    forall i | 0 < i < |s| ensures s[i] in value {
      assert s[i] == order[i - 1];
    }
  }

  /** The level-0 slot of the node at spine position `ci` holds the node
      at position `ci` of the real nodes followed by tail. */
  lemma LevelZeroStep<T>(value: map<Id, T>, level: map<Id, nat>,
                         next: map<Id, seq<Id>>, prev: map<Id, Id>, order: seq<Id>, ci: nat)
    requires Arena(value, level, next, prev, order) && Linked(next, 0, Chain(order, level, 0))
    requires ci <= |order|
    ensures ([HEAD] + order)[ci] in next && 0 < |next[([HEAD] + order)[ci]]|
    ensures next[([HEAD] + order)[ci]][0] == (order + [TAIL])[ci]
  {
    SpineFacts(value, level, next, prev, order);
    var f := [HEAD] + order + [TAIL];
    assert f[ci] == ([HEAD] + order)[ci] && f[ci + 1] == (order + [TAIL])[ci];
  }

  /** When the list holds a value equal to `v`, the node at the lower bound
      of `v` holds such a value and is the first node holding one. */
  lemma FirstEqualNode<T(!new)>(less: (T, T) -> bool, value: map<Id, T>, order: seq<Id>, v: T)
    requires StrictWeakOrder(less) && forall i :: 0 <= i < |order| ==> order[i] in value
    requires Sorted(less, ValuesOf(order, value)) && ContainsEqual(less, ValuesOf(order, value), v)
    ensures var p := LowerBound(less, ValuesOf(order, value), v);
            && p < |order| && order[p] in value && IsEqual(less, value[order[p]], v)
            && LowerBound(less, ValuesOf(order, value), value[order[p]]) == p
  {
    var vals := ValuesOf(order, value);
    var p := LowerBound(less, vals, v);
    BoundsOfEqual(less, vals, v);
    assert value[order[p]] == vals[p];
    LowerBoundOfEqual(less, vals, value[order[p]], v);
  }

  /** Every forward slot of a node holds a node of the list other than
      head, except those of tail, which hold the null id: no slot dangles. */
  lemma NoDanglingLinks<T(!new)>(less: (T, T) -> bool, value: map<Id, T>, level: map<Id, nat>,
                                 next: map<Id, seq<Id>>, prev: map<Id, Id>, order: seq<Id>)
    requires Wf(less, value, level, next, prev, order)
    ensures forall y, L :: y in next && 0 <= L < |next[y]| ==>
              if y == TAIL then next[y][L] == NIL else next[y][L] in next && next[y][L] != HEAD
  {
    SpineFacts(value, level, next, prev, order);
    forall y, L | y in next && 0 <= L < |next[y]| && y != TAIL
      ensures next[y][L] in next && next[y][L] != HEAD
    {
      SlotTarget(value, level, next, prev, order, y, L);
    }
  }

  lemma SlotTarget<T>(value: map<Id, T>, level: map<Id, nat>,
                      next: map<Id, seq<Id>>, prev: map<Id, Id>, order: seq<Id>, y: Id, L: nat)
    requires Arena(value, level, next, prev, order) && AllLinked(next, level, order)
    requires Distinct([HEAD] + order) && TAIL !in [HEAD] + order
    requires y in next && L < |next[y]| && y != TAIL
    ensures next[y][L] in next && next[y][L] != HEAD
  {
    var s := [HEAD] + order;
    assert y in s by {
      if y != HEAD {
        var m :| 0 <= m < |order| && order[m] == y;
        assert s[m + 1] == y;
      }
    }
    AboveMember(s, level, L, y);
    var c := Chain(order, level, L);
    var a := Above(s, level, L);
    assert Linked(next, L, c);
    var i :| 0 <= i < |a| && a[i] == y;
    assert c[i] == y && c[i + 1] == (a + [TAIL])[i + 1];
    assert next[y][L] == c[i + 1];
    ChainDistinct(order, level, L);
    AboveSingle(HEAD, level, L);
    AboveAppend([HEAD], order, level, L);
    assert c[0] == HEAD;
    if i + 1 < |a| {
      assert c[i + 1] == a[i + 1];
      AboveMember(s, level, L, a[i + 1]);
    }
  }

  /** Each level holds its real nodes in non-decreasing order. */
  lemma {:induction false} LevelSorted<T(!new)>(less: (T, T) -> bool, value: map<Id, T>, s: seq<Id>, lvl: map<Id, nat>, L: nat)
    requires forall i :: 0 <= i < |s| ==> s[i] in value
    requires Sorted(less, ValuesOf(s, value))
    ensures forall i :: 0 <= i < |Above(s, lvl, L)| ==> Above(s, lvl, L)[i] in value
    ensures Sorted(less, ValuesOf(Above(s, lvl, L), value))
  {
    forall y | y in Above(s, lvl, L) ensures y in value {
      AboveMember(s, lvl, L, y);
    }
    if s != [] {
      var pre, last := s[..|s| - 1], s[|s| - 1];
      assert ValuesOf(pre, value) == ValuesOf(s, value)[..|s| - 1];
      LevelSorted(less, value, pre, lvl, L);
      var a := Above(pre, lvl, L);
      forall y | y in a ensures !less(value[last], value[y]) {
        AboveMember(pre, lvl, L, y);
        var m :| 0 <= m < |pre| && pre[m] == y;
        assert ValuesOf(s, value)[m] == value[y];
        assert ValuesOf(s, value)[|s| - 1] == value[last];
      }
      if last in lvl && lvl[last] >= L {
        var b := a + [last];
        forall i, j | 0 <= i < j < |b| ensures !less(ValuesOf(b, value)[j], ValuesOf(b, value)[i]) {
          assert ValuesOf(a, value)[i] == value[a[i]];
          if j == |a| {
            assert a[i] in a;
          } else {
            assert ValuesOf(a, value)[j] == value[a[j]];
          }
        }
      }
    }
  }

  /** A real node is on the chain of exactly the levels up to its own. */
  lemma ChainMembership(order: seq<Id>, lvl: map<Id, nat>, y: Id)
    requires y in order && y != TAIL && y in lvl
    ensures forall L :: y in Chain(order, lvl, L) <==> L <= lvl[y]
  {
    forall L ensures y in Chain(order, lvl, L) <==> L <= lvl[y] {
      AboveMember([HEAD] + order, lvl, L, y);
    }
  }

  /** The arena of the empty list: both sentinels at the top level, every
      head slot on tail, every tail slot null, tail's back-link on head. */
  const EMPTY_LEVEL: map<Id, nat> := map[HEAD := MAX_LEVEL, TAIL := MAX_LEVEL]
  const EMPTY_NEXT: map<Id, seq<Id>> := map[HEAD := seq(MAX_LEVEL + 1, _ => TAIL), TAIL := seq(MAX_LEVEL + 1, _ => NIL)]
  const EMPTY_PREV: map<Id, Id> := map[HEAD := NIL, TAIL := HEAD]

  /** The empty list has exactly one representation: no value, both
      sentinels at the top level, every head slot on tail, every tail slot
      null, and tail's back-link on head. */
  lemma EmptyIsUnique<T(!new)>(less: (T, T) -> bool, value: map<Id, T>, level: map<Id, nat>,
                               next: map<Id, seq<Id>>, prev: map<Id, Id>)
    requires Wf(less, value, level, next, prev, [])
    ensures value == map[] && level == EMPTY_LEVEL && next == EMPTY_NEXT && prev == EMPTY_PREV
  {
    assert [HEAD] + [] == [HEAD];
    forall L | 0 <= L <= MAX_LEVEL ensures next[HEAD][L] == TAIL {
      AboveSingle(HEAD, level, L);
      assert Chain([], level, L) == [HEAD, TAIL];
      var c := [HEAD, TAIL];
      assert Linked(next, L, c) && c[0] == HEAD && c[1] == TAIL;
    }
    assert next[HEAD] == seq(MAX_LEVEL + 1, _ => TAIL);
    assert next[TAIL] == seq(MAX_LEVEL + 1, _ => NIL);
    var f := [HEAD] + [] + [TAIL];
    assert f[1] == TAIL && f[0] == HEAD;
  }

  /** The empty arena satisfies the invariant. */
  lemma EmptyWf<T(!new)>(less: (T, T) -> bool)
    requires StrictWeakOrder(less)
    ensures Wf(less, map[], EMPTY_LEVEL, EMPTY_NEXT, EMPTY_PREV, [])
  {
    var level := map[HEAD := MAX_LEVEL, TAIL := MAX_LEVEL];
    var next := map[HEAD := seq(MAX_LEVEL + 1, _ => TAIL), TAIL := seq(MAX_LEVEL + 1, _ => NIL)];
    assert [HEAD] + [] == [HEAD];
    forall L | 0 <= L <= MAX_LEVEL ensures Linked(next, L, Chain([], level, L)) {
      AboveSingle(HEAD, level, L);
      assert Chain([], level, L) == [HEAD, TAIL];
    }
    assert [HEAD] + [] + [TAIL] == [HEAD, TAIL];
  }

  /** A freshly allocated node `r`, not yet on any chain, leaves every
      chain linked. */
  lemma AllocatedLinks(next: map<Id, seq<Id>>, level: map<Id, nat>, order: seq<Id>, r: Id, k: nat, links: seq<Id>)
    requires AllLinked(next, level, order) && r !in [HEAD] + order && r != TAIL
    ensures AllLinked(next[r := links], level[r := k], order)
  {
    var s := [HEAD] + order;
    var next2, level2 := next[r := links], level[r := k];
    forall L | 0 <= L <= MAX_LEVEL
      ensures Linked(next2, L, Chain(order, level2, L))
    {
      forall i | 0 <= i < |s| ensures s[i] != r { assert s[i] in s; }
      AboveSameLevels(s, level, level2, L);
      AboveMember(s, level, L, r);
      LinkedOff(next, L, Chain(order, level, L), r, links);
    }
  }

  /** Every node of the spine with `r` inserted has a level. */
  lemma InsertedLevels(level: map<Id, nat>, order: seq<Id>, p: nat, r: Id)
    requires p <= |order| && r in level
    requires forall i :: 0 <= i < |[HEAD] + order| ==> ([HEAD] + order)[i] in level
    ensures forall y :: y in [HEAD] + (order[..p] + [r] + order[p..]) ==> y in level
  {
    var sp := [HEAD] + order;
    InsertedAt(order, p, r);
    forall y | y in [HEAD] + (order[..p] + [r] + order[p..]) ensures y in level {
      if y == HEAD {
        assert sp[0] == y;
      } else if y != r {
        assert y in order;
        var j :| 0 <= j < |order| && order[j] == y;
        assert sp[j + 1] == y;
      }
    }
  }

  /** After `r` went in at position `p` of level 0, its level-0 slot holds
      the node that was at position `p` of the real nodes followed by tail. */
  lemma SuccessorAfterInsert(level: map<Id, nat>, next: map<Id, seq<Id>>, order: seq<Id>, p: nat, r: Id)
    requires p <= |order|
    requires forall y :: y in [HEAD] + (order[..p] + [r] + order[p..]) ==> y in level
    requires Linked(next, 0, Chain(order[..p] + [r] + order[p..], level, 0))
    ensures r in next && 0 < |next[r]| && next[r][0] == (order + [TAIL])[p]
  {
    var o2 := order[..p] + [r] + order[p..];
    var s := [HEAD] + o2;
    forall i | 0 <= i < |s| ensures s[i] in level { assert s[i] in s; }
    AboveAll(s, level, 0);
    InsertedAt(order, p, r);
    var c := s + [TAIL];
    assert c[p + 1] == r && c[p + 2] == (order + [TAIL])[p];
  }

  /** The live ids are exactly the sentinels and the nodes of `rest`. */
  ghost predicate LiveExactly<T>(value: map<Id, T>, level: map<Id, nat>,
                                 next: map<Id, seq<Id>>, prev: map<Id, Id>, rest: seq<Id>)
  {
    forall y :: && (y in value <==> y in rest)
                && (y in level <==> y == HEAD || y == TAIL || y in rest)
                && (y in next <==> y in level) && (y in prev <==> y in level)
  }

  /** Following slot 0 from `x` visits exactly the nodes of `rest`, in
      order, and then reaches tail. */
  ghost predicate ChainFrom(next: map<Id, seq<Id>>, x: Id, rest: seq<Id>)
    decreases |rest|
  {
    if rest == [] then x == TAIL
    else x == rest[0] && x in next && 0 < |next[x]| && ChainFrom(next, next[x][0], rest[1..])
  }

  /** A level-0 chain ending in tail is followed from its first node. */
  lemma {:induction false} LinkedChainFrom(next: map<Id, seq<Id>>, s: seq<Id>)
    requires 1 <= |s| && Linked(next, 0, s + [TAIL])
    ensures s[0] in next && 0 < |next[s[0]]| && ChainFrom(next, next[s[0]][0], s[1..])
    decreases |s|
  {
    var c := s + [TAIL];
    assert c[0] == s[0] && c[1] == (s[1..] + [TAIL])[0];
    if |s| > 1 {
      var d := s[1..] + [TAIL];
      forall i | 0 <= i < |d| - 1 ensures d[i] in next && 0 < |next[d[i]]| && next[d[i]][0] == d[i + 1] {
        assert d[i] == c[i + 1] && d[i + 1] == c[i + 2];
      }
      LinkedChainFrom(next, s[1..]);
      assert s[1..][1..] == s[2..];
    }
  }

  /** What `remove_all` starts from: every real node is live, and walking
      level 0 from head's successor visits them all in order. */
  lemma ClearStart<T>(value: map<Id, T>, level: map<Id, nat>,
                      next: map<Id, seq<Id>>, prev: map<Id, Id>, order: seq<Id>)
    requires Arena(value, level, next, prev, order) && Linked(next, 0, Chain(order, level, 0))
    ensures LiveExactly(value, level, next, prev, order)
    ensures Distinct(order) && HEAD !in order && TAIL !in order
    ensures HEAD in next && 0 < |next[HEAD]| && ChainFrom(next, next[HEAD][0], order)
  {
    SpineFacts(value, level, next, prev, order);
    assert ([HEAD] + order) + [TAIL] == [HEAD] + order + [TAIL];
    LinkedChainFrom(next, [HEAD] + order);
    assert ([HEAD] + order)[1..] == order;
    assert HEAD !in order by {
      forall i | 0 <= i < |order| ensures order[i] != HEAD { assert order[i] >= FIRST_NODE; }
    }
  }

  /** Freeing `rest[0]`, the first still live, leaves the rest live. */
  lemma FreeFirst<T>(value: map<Id, T>, level: map<Id, nat>,
                     next: map<Id, seq<Id>>, prev: map<Id, Id>, rest: seq<Id>)
    requires rest != [] && rest[0] != HEAD && rest[0] != TAIL
    requires LiveExactly(value, level, next, prev, rest) && Distinct(rest)
    ensures var x := rest[0];
            && LiveExactly(value - {x}, level - {x}, next - {x}, prev - {x}, rest[1..])
            && Distinct(rest[1..])
  {
    assert rest == [rest[0]] + rest[1..];
    assert rest[0] !in rest[1..] by {
      forall j | 1 <= j < |rest| ensures rest[j] != rest[0] { }
    }
  }

  /** Once every real node is freed, what is left is the two sentinels as
      they were; with head's slots on tail and tail's back-link on head
      that is the empty list's arena. */
  lemma ClearedIsEmpty<T>(level0: map<Id, nat>, next0: map<Id, seq<Id>>, prev0: map<Id, Id>,
                          value: map<Id, T>, level: map<Id, nat>,
                          next: map<Id, seq<Id>>, prev: map<Id, Id>)
    requires HEAD in level0 && TAIL in level0 && level0[HEAD] == MAX_LEVEL && level0[TAIL] == MAX_LEVEL
    requires TailEnds(next0) && HEAD in prev0 && prev0[HEAD] == NIL
    requires LiveExactly(value, level, next, prev, [])
    requires forall y :: y in level ==> y in level0 && y in next0 && y in prev0
    requires forall y :: y in level ==> level[y] == level0[y] && next[y] == next0[y] && prev[y] == prev0[y]
    ensures value == map[] && level == EMPTY_LEVEL
    ensures next[HEAD := seq(MAX_LEVEL + 1, _ => TAIL)] == EMPTY_NEXT
    ensures prev[TAIL := HEAD] == EMPTY_PREV
  {
    assert HEAD in level && TAIL in level;
    assert next[TAIL] == seq(MAX_LEVEL + 1, _ => NIL);
  }

  /** The arena after a node `r` of level `k` joins at position `p`. */
  lemma InsertArena<T>(value: map<Id, T>, level: map<Id, nat>,
                       next: map<Id, seq<Id>>, prev: map<Id, Id>, order: seq<Id>,
                       v: T, r: Id, k: nat, p: nat, next1: map<Id, seq<Id>>, prev1: map<Id, Id>)
    requires Arena(value, level, next, prev, order)
    requires r >= FIRST_NODE && r !in next && 1 <= k <= MAX_LEVEL && p <= |order|
    requires forall y :: y in next1 <==> y in next || y == r
    requires forall y :: y in next ==> |next1[y]| == |next[y]|
    requires |next1[r]| == k + 1
    requires forall y :: y in prev1 <==> y in prev || y == r
    ensures Arena(value[r := v], level[r := k], next1, prev1, order[..p] + [r] + order[p..])
  {
    assert r !in order;
    DistinctInsert(order, p, r);
    InsertedAt(order, p, r);
  }

  /** The stored values, in order, after `r` with value `v` joins at `p`. */
  lemma InsertValues<T>(value: map<Id, T>, order: seq<Id>, v: T, r: Id, p: nat)
    requires forall i :: 0 <= i < |order| ==> order[i] in value
    requires p <= |order| && r !in order
    ensures forall i :: 0 <= i < |order[..p] + [r] + order[p..]| ==> (order[..p] + [r] + order[p..])[i] in value[r := v]
    ensures ValuesOf(order[..p] + [r] + order[p..], value[r := v])
              == ValuesOf(order, value)[..p] + [v] + ValuesOf(order, value)[p..]
  {
    var o2 := order[..p] + [r] + order[p..];
    InsertedAt(order, p, r);
    var cs := ValuesOf(order, value);
    InsertedAt(cs, p, v);
    var vs := ValuesOf(o2, value[r := v]);
    forall i | 0 <= i < |vs| ensures vs[i] == (cs[..p] + [v] + cs[p..])[i] {
      if i < p { assert o2[i] == order[i]; } else if i > p { assert o2[i] == order[i - 1]; }
    }
  }

  /** The invariant after `insert` has spliced node `r` of level `k` with
      value `v` in at position `p`, the lower bound of `v`, at every level,
      and has set the two back-links. */
  lemma InsertWf<T(!new)>(less: (T, T) -> bool, value: map<Id, T>, level: map<Id, nat>,
                          next: map<Id, seq<Id>>, prev: map<Id, Id>, order: seq<Id>,
                          v: T, r: Id, k: nat, p: nat, next1: map<Id, seq<Id>>, prev1: map<Id, Id>)
    requires Wf(less, value, level, next, prev, order)
    requires r >= FIRST_NODE && r !in next && 1 <= k <= MAX_LEVEL
    requires p <= |order| && p == LowerBound(less, ValuesOf(order, value), v)
    requires forall y :: y in next1 <==> y in next || y == r
    requires forall y :: y in next ==> |next1[y]| == |next[y]|
    requires |next1[r]| == k + 1 && next1[TAIL] == next[TAIL]
    requires AllLinked(next1, level[r := k], order[..p] + [r] + order[p..])
    requires prev1 == prev[r := ([HEAD] + order)[p]][(order + [TAIL])[p] := r]
    ensures Wf(less, value[r := v], level[r := k], next1, prev1, order[..p] + [r] + order[p..])
    ensures ValuesOf(order[..p] + [r] + order[p..], value[r := v])
              == ValuesOf(order, value)[..p] + [v] + ValuesOf(order, value)[p..]
  {
    SpineFacts(value, level, next, prev, order);
    var f := [HEAD] + order + [TAIL];
    assert f[p] == ([HEAD] + order)[p] && f[p + 1] == (order + [TAIL])[p];
    assert f[p + 1] in prev;
    InsertArena(value, level, next, prev, order, v, r, k, p, next1, prev1);
    assert r !in f;
    PrevAfterInsert(prev, order, p, r);
    assert f[p + 1] != HEAD && r !in order;
    InsertValues(value, order, v, r, p);
    SortedInsert(less, ValuesOf(order, value), v);
  }

  /** The arena after `order[q]` leaves it. */
  lemma RemoveArena<T>(value: map<Id, T>, level: map<Id, nat>,
                       next: map<Id, seq<Id>>, prev: map<Id, Id>, order: seq<Id>,
                       q: nat, next1: map<Id, seq<Id>>, prev1: map<Id, Id>)
    requires Arena(value, level, next, prev, order)
    requires q < |order|
    requires forall y :: y in next1 <==> y in next
    requires forall y :: y in next ==> |next1[y]| == |next[y]|
    requires forall y :: y in prev1 <==> y in prev
    ensures var x := order[q];
            Arena(value - {x}, level - {x}, next1 - {x}, prev1 - {x}, order[..q] + order[q + 1..])
  {
    DistinctRemove(order, q);
    RemovedAt(order, q);
    RemovedMembers(order, q);
  }

  /** The stored values, in order, after `order[q]` leaves. */
  lemma RemoveValues<T>(value: map<Id, T>, value2: map<Id, T>, order: seq<Id>, q: nat)
    requires forall i :: 0 <= i < |order| ==> order[i] in value
    requires Distinct(order) && q < |order| && value2 == value - {order[q]}
    ensures forall y :: y in order[..q] + order[q + 1..] ==> y in value2
    ensures ValuesOf(order[..q] + order[q + 1..], value2)
              == ValuesOf(order, value)[..q] + ValuesOf(order, value)[q + 1..]
  {
    var o2 := order[..q] + order[q + 1..];
    RemovedAt(order, q);
    RemovedMembers(order, q);
    var cs := ValuesOf(order, value);
    RemovedAt(cs, q);
    var vs := ValuesOf(o2, value2);
    assert forall i :: 0 <= i < |vs| ==> vs[i] == (cs[..q] + cs[q + 1..])[i];
  }

  /** Dropping the removed node's entries keeps every chain of the new
      order linked. */
  lemma RemoveLinks(level: map<Id, nat>, order: seq<Id>, q: nat, next1: map<Id, seq<Id>>)
    requires q < |order| && Distinct([HEAD] + order) && TAIL !in [HEAD] + order
    requires forall i :: 0 <= i < |[HEAD] + order| ==> ([HEAD] + order)[i] in level
    requires AllLinked(next1, level, order[..q] + order[q + 1..])
    ensures AllLinked(next1 - {order[q]}, level - {order[q]}, order[..q] + order[q + 1..])
  {
    var x, o2 := order[q], order[..q] + order[q + 1..];
    var s := [HEAD] + order;
    var s2 := [HEAD] + o2;
    assert s2 == s[..q + 1] + s[q + 2..];
    assert s[q + 1] == x;
    forall i | 0 <= i < |s2| ensures s2[i] != x && s2[i] in level {
      if i <= q { assert s2[i] == s[i]; } else { assert s2[i] == s[i + 1]; }
    }
    forall L | 0 <= L <= MAX_LEVEL
      ensures Linked(next1 - {x}, L, Chain(o2, level - {x}, L))
    {
      AboveSameLevels(s2, level, level - {x}, L);
      AboveMember(s2, level, L, x);
      LinkedWithout(next1, L, Chain(o2, level, L), x);
    }
  }

  /** The invariant after `remove` has unlinked `order[q]` from every level
      (`next1` still holds its entry) and its successor took over its
      back-link; the node then leaves the arena. */
  lemma RemoveWf<T(!new)>(less: (T, T) -> bool, value: map<Id, T>, level: map<Id, nat>,
                          next: map<Id, seq<Id>>, prev: map<Id, Id>, order: seq<Id>,
                          q: nat, x: Id, next1: map<Id, seq<Id>>, prev2: map<Id, Id>)
    requires Wf(less, value, level, next, prev, order)
    requires q < |order| && x == order[q]
    requires forall y :: y in next1 <==> y in next
    requires forall y :: y in next ==> |next1[y]| == |next[y]|
    requires next1[TAIL] == next[TAIL]
    requires AllLinked(next1, level, order[..q] + order[q + 1..])
    requires prev2 == prev[(order + [TAIL])[q + 1] := prev[x]] - {x}
    ensures Wf(less, value - {x}, level - {x}, next1 - {x}, prev2, order[..q] + order[q + 1..])
    ensures ValuesOf(order[..q] + order[q + 1..], value - {x})
              == ValuesOf(order, value)[..q] + ValuesOf(order, value)[q + 1..]
  {
    SpineFacts(value, level, next, prev, order);
    var f := [HEAD] + order + [TAIL];
    assert f[q + 1] == x && f[q + 2] in prev && f[q + 2] == (order + [TAIL])[q + 1];
    RemoveArena(value, level, next, prev, order, q, next1, prev[f[q + 2] := prev[x]]);
    PrevAfterRemove(prev, order, q);
    RemoveLinks(level, order, q, next1);
    RemoveValues(value, value - {x}, order, q);
    SortedRemove(less, ValuesOf(order, value), q);
    assert x != TAIL && x != HEAD;
    assert f[q + 2] != HEAD;
  }
}
