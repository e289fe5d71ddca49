/** The search of `find`, stated on positions of the level-0 spine
    `s = [head] + order`: the walk along one level and the descent through
    all levels, and what the descent reaches. */
module Descent {
  import opened Ordering
  import opened Chains

  /** The first position at or after `j` whose node reaches level `L`;
      `|s|` stands for tail. */
  function NextAt(s: seq<Id>, lvl: map<Id, nat>, L: nat, j: nat): (r: nat)
    requires j <= |s|
    ensures j <= r <= |s|
    ensures r < |s| ==> s[r] in lvl && lvl[s[r]] >= L
    ensures forall i :: j <= i < r ==> !(s[i] in lvl && lvl[s[i]] >= L)
    decreases |s| - j
  {
    if j == |s| then |s|
    else if s[j] in lvl && lvl[s[j]] >= L then j
    else NextAt(s, lvl, L, j + 1)
  }

  /** Position `i` of the spine (head excluded) holds a value equal to `v`;
      `vals` are the values of the real nodes, so position `i` holds
      `vals[i - 1]`. */
  function Matched<T>(less: (T, T) -> bool, vals: seq<T>, i: nat, v: T): bool
    requires i <= |vals|
  {
    i > 0 && IsEqual(less, vals[i - 1], v)
  }

  /** The walk of `find` along level `L` from position `ci`: stop on a
      node equal to `v`, otherwise step to the next node of the level as
      long as its value is not greater than `v`. */
  function Walk<T>(less: (T, T) -> bool, s: seq<Id>, lvl: map<Id, nat>, vals: seq<T>, L: nat, ci: nat, v: T): (r: nat)
    requires |s| == |vals| + 1 && ci < |s|
    ensures ci <= r < |s|
    decreases |s| - ci
  {
    if Matched(less, vals, ci, v) then ci
    else
      var j := NextAt(s, lvl, L, ci + 1);
      if j < |s| && IsLessOrEqual(less, vals[j - 1], v) then Walk(less, s, lvl, vals, L, j, v) else ci
  }

  /** The descent of `find` from level `L` down to level 0. */
  function Descend<T>(less: (T, T) -> bool, s: seq<Id>, lvl: map<Id, nat>, vals: seq<T>, L: nat, ci: nat, v: T): (r: nat)
    requires |s| == |vals| + 1 && ci < |s|
    ensures ci <= r < |s|
    decreases L
  {
    var c := Walk(less, s, lvl, vals, L, ci, v);
    if L == 0 then c else Descend(less, s, lvl, vals, L - 1, c, v)
  }

  /** Where `find` stops: a descent from head through every level. */
  function FindPos<T>(less: (T, T) -> bool, s: seq<Id>, lvl: map<Id, nat>, vals: seq<T>, v: T): nat
    requires |s| == |vals| + 1
  {
    Descend(less, s, lvl, vals, MAX_LEVEL, 0, v)
  }

  /** Where `find_first` stops, on the spine followed by tail: where `find`
      stopped if that node is equal to `v`, otherwise one step further. */
  function FindFirstPos<T>(less: (T, T) -> bool, s: seq<Id>, lvl: map<Id, nat>, vals: seq<T>, v: T): nat
    requires |s| == |vals| + 1
  {
    var d := FindPos(less, s, lvl, vals, v);
    if Matched(less, vals, d, v) then d else d + 1
  }

  // ---------------------------------------------------------------------

  lemma AboveNone(s: seq<Id>, lvl: map<Id, nat>, L: nat)
    requires forall i :: 0 <= i < |s| ==> !(s[i] in lvl && lvl[s[i]] >= L)
    ensures Above(s, lvl, L) == []
  {
    if Above(s, lvl, L) != [] {
      AboveMember(s, lvl, L, Above(s, lvl, L)[0]);
      assert false;
    }
  }

  /** The node that the first qualifying position names is the first node
      of level `L` after position `j - 1`, the one slot `L` links to. */
  lemma FirstAboveIsNextAt(s: seq<Id>, lvl: map<Id, nat>, L: nat, j: nat)
    requires j <= |s|
    ensures var r := NextAt(s, lvl, L, j);
            FirstOr(Above(s[j..], lvl, L), TAIL) == if r < |s| then s[r] else TAIL
  {
    var r := NextAt(s, lvl, L, j);
    assert s[j..] == s[j..r] + s[r..];
    AboveAppend(s[j..r], s[r..], lvl, L);
    AboveNone(s[j..r], lvl, L);
    if r < |s| {
      assert s[r..] == [s[r]] + s[r + 1..];
      AboveAppend([s[r]], s[r + 1..], lvl, L);
      AboveSingle(s[r], lvl, L);
    } else {
      assert s[r..] == [];
    }
  }

  /** Slot `L` of a node of level `L` or more on the spine names the node
      at the first position after it that reaches level `L`, or tail. */
  lemma SlotIsNextAt(nx: map<Id, seq<Id>>, lvl: map<Id, nat>, s: seq<Id>, L: nat, ci: nat)
    requires Linked(nx, L, Above(s, lvl, L) + [TAIL])
    requires ci < |s| && s[ci] in lvl && lvl[s[ci]] >= L
    ensures s[ci] in nx && L < |nx[s[ci]]|
    ensures var j := NextAt(s, lvl, L, ci + 1);
            nx[s[ci]][L] == if j < |s| then s[j] else TAIL
  {
    NextIsFirstAbove(nx, lvl, s, L, ci);
    FirstAboveIsNextAt(s, lvl, L, ci + 1);
  }

  /** Nothing of level `L` within positions `j..k` when the next position
      reaching `L` lies beyond `k`. */
  lemma NoneBefore(s: seq<Id>, lvl: map<Id, nat>, L: nat, j: nat, k: nat)
    requires j <= k + 1 <= |s| && NextAt(s, lvl, L, j) > k
    ensures Above(s[j..k + 1], lvl, L) == []
  {
    AboveNone(s[j..k + 1], lvl, L);
  }

  /** The walk along one level from a position not beyond the upper bound
      of `v` stays within it, and ends on a node equal to `v` or where the
      next node of the level lies beyond the upper bound. */
  lemma {:induction false} WalkBound<T(!new)>(less: (T, T) -> bool, s: seq<Id>, lvl: map<Id, nat>, vals: seq<T>, L: nat, ci: nat, v: T)
    requires StrictWeakOrder(less) && Sorted(less, vals)
    requires |s| == |vals| + 1 && ci <= UpperBound(less, vals, v)
    ensures var w := Walk(less, s, lvl, vals, L, ci, v);
            ci <= w <= UpperBound(less, vals, v) &&
            (Matched(less, vals, w, v) || NextAt(s, lvl, L, w + 1) > UpperBound(less, vals, v))
    decreases |s| - ci
  {
    var k := UpperBound(less, vals, v);
    UpperBoundSplit(less, vals, v);
    if !Matched(less, vals, ci, v) {
      var j := NextAt(s, lvl, L, ci + 1);
      if j < |s| && IsLessOrEqual(less, vals[j - 1], v) {
        assert j <= k;
        WalkBound(less, s, lvl, vals, L, j, v);
      }
    }
  }

  /** The descent from a position not beyond the upper bound of `v` ends
      on a node equal to `v`, or exactly at the upper bound: on the last
      node not greater than `v`. */
  lemma {:induction false} DescendBound<T(!new)>(less: (T, T) -> bool, s: seq<Id>, lvl: map<Id, nat>, vals: seq<T>, L: nat, ci: nat, v: T)
    requires StrictWeakOrder(less) && Sorted(less, vals)
    requires |s| == |vals| + 1 && ci <= UpperBound(less, vals, v)
    requires forall i :: 0 <= i < |s| ==> s[i] in lvl
    ensures var d := Descend(less, s, lvl, vals, L, ci, v);
            d <= UpperBound(less, vals, v) && (Matched(less, vals, d, v) || d == UpperBound(less, vals, v))
    decreases L
  {
    var w := Walk(less, s, lvl, vals, L, ci, v);
    WalkBound(less, s, lvl, vals, L, ci, v);
    if L == 0 {
      if !Matched(less, vals, w, v) && w + 1 < |s| {
        assert NextAt(s, lvl, 0, w + 1) == w + 1;
      }
    } else {
      DescendBound(less, s, lvl, vals, L - 1, w, v);
    }
  }

  /** What `find` reaches: a node equal to `v` whenever one is stored,
      otherwise the last node not greater than `v` (head when there is
      none); in both cases it is not beyond the last node not greater. */
  lemma FindPosSpec<T(!new)>(less: (T, T) -> bool, s: seq<Id>, lvl: map<Id, nat>, vals: seq<T>, v: T)
    requires StrictWeakOrder(less) && Sorted(less, vals)
    requires |s| == |vals| + 1
    requires forall i :: 0 <= i < |s| ==> s[i] in lvl
    ensures FindPos(less, s, lvl, vals, v) <= UpperBound(less, vals, v)
    ensures ContainsEqual(less, vals, v) ==> Matched(less, vals, FindPos(less, s, lvl, vals, v), v)
    ensures !ContainsEqual(less, vals, v) ==> FindPos(less, s, lvl, vals, v) == UpperBound(less, vals, v)
  {
    var d := FindPos(less, s, lvl, vals, v);
    DescendBound(less, s, lvl, vals, MAX_LEVEL, 0, v);
    if ContainsEqual(less, vals, v) {
      BoundsOfEqual(less, vals, v);
    }
  }

  /** One step of the walk: it moves on to the next node of level `L`
      exactly when the current node is not matched and that next node is
      not greater than `v`, and stops otherwise. */
  lemma WalkStep<T>(less: (T, T) -> bool, s: seq<Id>, lvl: map<Id, nat>, vals: seq<T>, L: nat, ci: nat, v: T)
    requires |s| == |vals| + 1 && ci < |s|
    ensures var j := NextAt(s, lvl, L, ci + 1);
            if !Matched(less, vals, ci, v) && j < |s| && IsLessOrEqual(less, vals[j - 1], v)
            then Walk(less, s, lvl, vals, L, ci, v) == Walk(less, s, lvl, vals, L, j, v)
            else Walk(less, s, lvl, vals, L, ci, v) == ci
  {
  }

  /** One level of the descent: the walk on level `L`, then the rest of
      the descent from where it stopped. */
  lemma DescendStep<T>(less: (T, T) -> bool, s: seq<Id>, lvl: map<Id, nat>, vals: seq<T>, L: nat, ci: nat, v: T)
    requires |s| == |vals| + 1 && ci < |s|
    ensures var c := Walk(less, s, lvl, vals, L, ci, v);
            if L == 0 then Descend(less, s, lvl, vals, L, ci, v) == c
            else Descend(less, s, lvl, vals, L, ci, v) == Descend(less, s, lvl, vals, L - 1, c, v)
  {
  }

  /** A matched spine position holds a real node whose value is equal to `v`. */
  lemma MatchedNode<T>(less: (T, T) -> bool, value: map<Id, T>, order: seq<Id>, i: nat, v: T)
    requires forall j :: 0 <= j < |order| ==> order[j] in value
    requires i <= |order| && Matched(less, ValuesOf(order, value), i, v)
    ensures ([HEAD] + order)[i] in value && IsEqual(less, value[([HEAD] + order)[i]], v)
  {
    assert ([HEAD] + order)[i] == order[i - 1];
  }

  lemma NoneMatched<T>(less: (T, T) -> bool, vals: seq<T>, i: nat, v: T)
    requires !ContainsEqual(less, vals, v) && i <= |vals|
    ensures !Matched(less, vals, i, v)
  {
    if i > 0 {
      assert !IsEqual(less, vals[i - 1], v);
    }
  }

  /** What `find_first` reaches: a node equal to `v` whenever one is
      stored, otherwise the first node greater than `v`, or tail. */
  lemma FindFirstPosSpec<T(!new)>(less: (T, T) -> bool, s: seq<Id>, lvl: map<Id, nat>, vals: seq<T>, v: T)
    requires StrictWeakOrder(less) && Sorted(less, vals)
    requires |s| == |vals| + 1
    requires forall i :: 0 <= i < |s| ==> s[i] in lvl
    ensures ContainsEqual(less, vals, v) ==>
              FindFirstPos(less, s, lvl, vals, v) <= |vals| && Matched(less, vals, FindFirstPos(less, s, lvl, vals, v), v)
    ensures !ContainsEqual(less, vals, v) ==> FindFirstPos(less, s, lvl, vals, v) == LowerBound(less, vals, v) + 1
  {
    var d := FindPos(less, s, lvl, vals, v);
    FindPosSpec(less, s, lvl, vals, v);
    if !ContainsEqual(less, vals, v) {
      BoundsMeet(less, vals, v);
      NoneMatched(less, vals, d, v);
    }
  }

  // ---------------------------------------------------------------------
  // `find_first` and equal values

  function IntLess(a: int, b: int): bool { a < b }

  /** Two real nodes hold 7: node `a` of level 1 first, then node `b` of
      level 3 (inserting 7 drawn at level 3 and then 7 drawn at level 1
      gives this, since insertion goes before equal values). `find_first(7)`
      meets `b` on level 3 and stops there, at spine position 2, although
      `a`, at position 1 (the lower bound), holds 7 as well. */
  lemma FindFirstMissesFirstEqual(a: Id, b: Id, lvl: map<Id, nat>)
    requires a >= FIRST_NODE && b >= FIRST_NODE && a != b
    requires HEAD in lvl && lvl[HEAD] == MAX_LEVEL && a in lvl && lvl[a] == 1 && b in lvl && lvl[b] == 3
    ensures FindFirstPos(IntLess, [HEAD, a, b], lvl, [7, 7], 7) == 2
    ensures LowerBound(IntLess, [7, 7], 7) + 1 == 1
  {
    var s, vals := [HEAD, a, b], [7, 7];
    assert NextAt(s, lvl, 5, 1) == 3 && NextAt(s, lvl, 4, 1) == 3 && NextAt(s, lvl, 3, 1) == 2;
    assert Walk(IntLess, s, lvl, vals, 5, 0, 7) == 0;
    assert Walk(IntLess, s, lvl, vals, 4, 0, 7) == 0;
    assert Walk(IntLess, s, lvl, vals, 2, 2, 7) == 2;
    assert Walk(IntLess, s, lvl, vals, 3, 2, 7) == 2;
    assert Walk(IntLess, s, lvl, vals, 3, 0, 7) == 2;
    assert Descend(IntLess, s, lvl, vals, 0, 2, 7) == 2;
    assert Descend(IntLess, s, lvl, vals, 1, 2, 7) == 2;
    assert Descend(IntLess, s, lvl, vals, 2, 2, 7) == 2;
    assert Descend(IntLess, s, lvl, vals, 3, 0, 7) == 2;
    assert Descend(IntLess, s, lvl, vals, 4, 0, 7) == 2;
  }
}
