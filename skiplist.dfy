/** The skip list itself: an arena of nodes whose forward and backward
    links the operations update in place. */
module SkipLists {
  import opened Ordering
  import opened Chains
  import opened ChainEdits
  import opened Descent
  import opened Layout

  /** The level drawn from coin tosses, counting from `l`: one more for
      every toss that succeeds, stopping at the first failure or at the
      cap. `coin(i)` is the outcome of toss number `i`. */
  function LevelFrom(coin: nat -> bool, l: nat): (r: nat)
    requires 1 <= l <= MAX_LEVEL
    ensures l <= r <= MAX_LEVEL
    ensures forall i :: l - 1 <= i < r - 1 ==> coin(i)
    ensures r < MAX_LEVEL ==> !coin(r - 1)
    decreases MAX_LEVEL - l
  {
    if l < MAX_LEVEL && coin(l - 1) then LevelFrom(coin, l + 1) else l
  }

  /** The level a new node gets from the tosses `coin`. */
  function LevelOf(coin: nat -> bool): nat {
    LevelFrom(coin, 1)
  }

  /** What the searches need of a well-formed list, stated on the spine
      `[HEAD] + order` and the stored values. */
  lemma SearchSetup<T(!new)>(less: (T, T) -> bool, value: map<Id, T>, level: map<Id, nat>,
                             next: map<Id, seq<Id>>, prev: map<Id, Id>, order: seq<Id>)
    requires Wf(less, value, level, next, prev, order)
    ensures var sp, vals := [HEAD] + order, ValuesOf(order, value);
            && |sp| == |vals| + 1 && sp[0] == HEAD
            && (forall i :: 0 < i < |sp| ==> sp[i] != HEAD && sp[i] != TAIL && sp[i] in value && value[sp[i]] == vals[i - 1])
            && (forall i :: 0 <= i < |sp| ==> sp[i] in level)
            && level[HEAD] == MAX_LEVEL
            && (forall L :: 0 <= L <= MAX_LEVEL ==> Linked(next, L, Above(sp, level, L) + [TAIL]))
  {
    var sp, vals := [HEAD] + order, ValuesOf(order, value);
    SpineFacts(value, level, next, prev, order);
    assert forall i :: 0 < i < |sp| ==> sp[i] == order[i - 1] && vals[i - 1] == value[sp[i]];
    forall L | 0 <= L <= MAX_LEVEL
      ensures Linked(next, L, Above(sp, level, L) + [TAIL])
    {
      assert Linked(next, L, Chain(order, level, L));
    }
  }

  /** Where the descent of `find` lands, as a node: one holding a value
      equal to `v` when there is one, otherwise the last node not greater
      than `v`, or head. */
  lemma FindLands<T(!new)>(less: (T, T) -> bool, value: map<Id, T>, level: map<Id, nat>,
                           next: map<Id, seq<Id>>, prev: map<Id, Id>, order: seq<Id>, v: T, ci: nat)
    requires Wf(less, value, level, next, prev, order)
    requires ci == FindPos(less, [HEAD] + order, level, ValuesOf(order, value), v)
    ensures var sp, vals := [HEAD] + order, ValuesOf(order, value);
            && ci < |sp|
            && sp[ci] in sp[..UpperBound(less, vals, v) + 1]
            && (ContainsEqual(less, vals, v) ==> sp[ci] in value && IsEqual(less, value[sp[ci]], v))
            && (!ContainsEqual(less, vals, v) ==> ci == UpperBound(less, vals, v))
  {
    var sp, vals := [HEAD] + order, ValuesOf(order, value);
    SpineFacts(value, level, next, prev, order);
    FindPosSpec(less, sp, level, vals, v);
    var k := UpperBound(less, vals, v);
    assert sp[..k + 1][ci] == sp[ci];
    if ContainsEqual(less, vals, v) {
      MatchedNode(less, value, order, ci, v);
    }
  }

  /** What the level loop of `insert` needs of a well-formed list: the
      spine `sp = [HEAD] + order` with the stored values `vals`, and the
      position `ci` of the start node, head or a node of level at least `k`
      holding a value less than `v`, which is at or before the lower bound
      of `v`. */
  lemma InsertSetup<T(!new)>(less: (T, T) -> bool, value: map<Id, T>, level: map<Id, nat>,
                             next: map<Id, seq<Id>>, prev: map<Id, Id>, order: seq<Id>,
                             sp: seq<Id>, vals: seq<T>, v: T, start: Id, k: nat)
    returns (ci: nat)
    requires Wf(less, value, level, next, prev, order)
    requires sp == [HEAD] + order && vals == ValuesOf(order, value)
    requires 1 <= k <= MAX_LEVEL
    requires start == HEAD || (start in value && less(value[start], v) && level[start] >= k)
    ensures |sp| == |vals| + 1
    ensures forall i :: 0 < i < |sp| ==> sp[i] != TAIL && sp[i] in value && value[sp[i]] == vals[i - 1]
    ensures forall i :: 0 <= i < |sp| ==> sp[i] in level && sp[i] in next
    ensures StrictWeakOrder(less) && Sorted(less, vals)
    ensures Distinct(sp) && TAIL !in sp && TAIL in next
    ensures ci <= LowerBound(less, vals, v) && sp[ci] == start && start in level && k <= level[start] <= MAX_LEVEL
  {
    SpineFacts(value, level, next, prev, order);
    assert forall i :: 0 < i < |sp| ==> sp[i] == order[i - 1] && vals[i - 1] == value[sp[i]];
    ci := StartPos(less, value, order, v, start);
  }

  /** The position on the spine of a start node holding a value less than
      `v` is at or before the lower bound of `v`. */
  lemma StartPos<T(!new)>(less: (T, T) -> bool, value: map<Id, T>, order: seq<Id>, v: T, start: Id)
    returns (ci: nat)
    requires StrictWeakOrder(less)
    requires forall i :: 0 <= i < |order| ==> order[i] in value
    requires Sorted(less, ValuesOf(order, value))
    requires start == HEAD || (start in order && start in value && less(value[start], v))
    ensures ci <= LowerBound(less, ValuesOf(order, value), v) && ([HEAD] + order)[ci] == start
  {
    ci := 0;
    if start != HEAD {
      var i :| 0 <= i < |order| && order[i] == start;
      var vals := ValuesOf(order, value);
      LowerBoundSplit(less, vals, v);
      assert vals[i] == value[start];
      ci := i + 1;
    }
  }

  class SkipList<T(!new)> {
    const less: (T, T) -> bool
    /** The arena: the value, level, forward slots and back-link of every
        live node, keyed by id. Head and tail have no value. */
    var value: map<Id, T>
    var level: map<Id, nat>
    var next: map<Id, seq<Id>>
    var prev: map<Id, Id>
    var size: nat
    /** The id the next allocated node gets. */
    var nextFree: Id
    /** The real nodes in level-0 order. */
    ghost var order: seq<Id>

    ghost predicate Valid()
      reads this
    {
      && Wf(less, value, level, next, prev, order)
      && size == |order|
      && FIRST_NODE <= nextFree
      && (forall y :: y in next ==> y < nextFree)
    }

    /** The stored values in traversal order. */
    ghost function Contents(): seq<T>
      reads this
      requires Valid()
    {
      ValuesOf(order, value)
    }

    /** The level-0 chain, sentinels included. */
    ghost function Full(): seq<Id>
      reads this
    {
      [HEAD] + order + [TAIL]
    }

    /** The node is the first of those holding a value equal to its own. */
    ghost predicate FirstAmongEquals(node: Id)
      reads this
      requires Valid() && node in value
    {
      var q := LowerBound(less, Contents(), value[node]);
      q < |order| && order[q] == node
    }

    /** A fresh array of forward slots, one per level from 0 to `lvl`, all
        null. */
    static method NewLinks(lvl: nat) returns (links: seq<Id>)
      ensures |links| == lvl + 1
      ensures forall i :: 0 <= i < |links| ==> links[i] == NIL
    {
      links := [];
      var i := 0;
      while i <= lvl
        invariant i <= lvl + 1 && |links| == i
        invariant forall j :: 0 <= j < i ==> links[j] == NIL
      {
        links := links + [NIL];
        i := i + 1;
      }
    }

    /** An empty list: head linked to tail at every level. */
    constructor (less: (T, T) -> bool)
      requires StrictWeakOrder(less)
      ensures Valid() && order == [] && this.less == less
      ensures value == map[] && level == EMPTY_LEVEL && next == EMPTY_NEXT && prev == EMPTY_PREV
      ensures size == 0
    {
      var headLinks := NewLinks(MAX_LEVEL);
      var tailLinks := NewLinks(MAX_LEVEL);
      var i := 0;
      while i <= MAX_LEVEL
        invariant i <= MAX_LEVEL + 1
        invariant |headLinks| == MAX_LEVEL + 1 && |tailLinks| == MAX_LEVEL + 1
        invariant forall j :: 0 <= j < i ==> headLinks[j] == TAIL
        invariant forall j :: 0 <= j <= MAX_LEVEL ==> tailLinks[j] == NIL
      {
        headLinks := headLinks[i := TAIL];
        tailLinks := tailLinks[i := NIL];
        i := i + 1;
      }
      this.less := less;
      value := map[];
      level := map[HEAD := MAX_LEVEL, TAIL := MAX_LEVEL];
      next := map[HEAD := headLinks, TAIL := tailLinks];
      prev := map[HEAD := NIL, TAIL := HEAD];
      size := 0;
      nextFree := FIRST_NODE;
      order := [];
      new;
      assert headLinks == seq(MAX_LEVEL + 1, _ => TAIL);
      assert tailLinks == seq(MAX_LEVEL + 1, _ => NIL);
      EmptyWf(less);
    }

    /** Draws a level in 1..MAX_LEVEL: start at 1 and go up while a toss
        succeeds and the cap is not reached. */
    static method RandomLevel(coin: nat -> bool) returns (r: nat)
      ensures 1 <= r <= MAX_LEVEL
      ensures forall i :: 0 <= i < r - 1 ==> coin(i)
      ensures r < MAX_LEVEL ==> !coin(r - 1)
      ensures r == LevelOf(coin)
    {
      r := 1;
      while r < MAX_LEVEL && coin(r - 1)
        invariant 1 <= r <= MAX_LEVEL
        invariant forall i :: 0 <= i < r - 1 ==> coin(i)
        invariant LevelFrom(coin, r) == LevelOf(coin)
        decreases MAX_LEVEL - r
      {
        r := r + 1;
      }
    }

    method Size() returns (r: nat)
      requires Valid()
      ensures r == |Contents()|
    {
      r := size;
    }

    /** The first real node, or tail when the list is empty. */
    method Front() returns (r: Id)
      requires Valid()
      ensures r == Full()[1]
      ensures order == [] ==> r == TAIL
    {
      LevelZeroStep(value, level, next, prev, order, 0);
      r := next[HEAD][0];
    }

    /** The last real node, or head when the list is empty. */
    method Back() returns (r: Id)
      requires Valid()
      ensures r == Full()[|Full()| - 2]
      ensures order == [] ==> r == HEAD
    {
      var f := Full();
      assert f[|f| - 1] == TAIL && BackLinked(prev, order);
      r := prev[TAIL];
    }

    method Head() returns (r: Id)
      requires Valid()
      ensures r == Full()[0] && r !in value
    {
      r := HEAD;
    }

    method Tail() returns (r: Id)
      requires Valid()
      ensures r == Full()[|Full()| - 1] && r !in value
    {
      r := TAIL;
    }

    /** From the node at position `ci` of the spine `sp`, whose real nodes
        hold the sorted values `vals`, advances along level `L` while the
        next node holds a value less than `v`; stops on the last node of
        the level before the lower bound `p` of `v`. */
    method AdvanceWhileLess(start: Id, L: nat, v: T, ghost sp: seq<Id>, ghost vals: seq<T>, ghost p: nat, ghost ci: nat)
      returns (curr: Id, ghost cj: nat)
      requires |sp| == |vals| + 1
      requires forall i :: 0 < i < |sp| ==> sp[i] != TAIL && sp[i] in value && value[sp[i]] == vals[i - 1]
      requires StrictWeakOrder(less) && Sorted(less, vals) && p == LowerBound(less, vals, v)
      requires Linked(next, L, Above(sp, level, L) + [TAIL])
      requires ci <= p && sp[ci] == start && start in level && level[start] >= L
      ensures ci <= cj <= p && curr == sp[cj] && curr in level && level[curr] >= L
      ensures Above(sp[cj + 1..p + 1], level, L) == []
    {
      LowerBoundSplit(less, vals, v);
      curr, cj := start, ci;
      SlotIsNextAt(next, level, sp, L, cj);
      while next[curr][L] != TAIL && less(value[next[curr][L]], v)
        invariant ci <= cj <= p && curr == sp[cj] && curr in level && level[curr] >= L
        invariant curr in next && L < |next[curr]|
        invariant next[curr][L] == if NextAt(sp, level, L, cj + 1) < |sp| then sp[NextAt(sp, level, L, cj + 1)] else TAIL
        decreases p - cj
      {
        curr, cj := next[curr][L], NextAt(sp, level, L, cj + 1);
        SlotIsNextAt(next, level, sp, L, cj);
      }
      NoneBefore(sp, level, L, cj + 1, p);
    }

    /** One level of `find`: from the node at position `ci` of the spine
        `sp`, whose real nodes hold `vals`, advances along level `L` while
        the current node is not equal to `v` and the next one is not
        greater than `v`. */
    method WalkLevel(start: Id, L: nat, v: T, ghost sp: seq<Id>, ghost vals: seq<T>, ghost ci: nat)
      returns (curr: Id, ghost cj: nat)
      requires |sp| == |vals| + 1 && sp[0] == HEAD
      requires forall i :: 0 < i < |sp| ==> sp[i] != HEAD && sp[i] != TAIL && sp[i] in value && value[sp[i]] == vals[i - 1]
      requires Linked(next, L, Above(sp, level, L) + [TAIL])
      requires ci < |sp| && sp[ci] == start && start in level && level[start] >= L
      ensures cj == Walk(less, sp, level, vals, L, ci, v)
      ensures curr == sp[cj] && curr in level && level[curr] >= L
    {
      curr, cj := start, ci;
      SlotIsNextAt(next, level, sp, L, cj);
      while next[curr][L] != TAIL && !(curr != HEAD && IsEqual(less, value[curr], v))
            && IsLessOrEqual(less, value[next[curr][L]], v)
        invariant cj < |sp| && curr == sp[cj] && curr in level && level[curr] >= L
        invariant Walk(less, sp, level, vals, L, cj, v) == Walk(less, sp, level, vals, L, ci, v)
        invariant curr in next && L < |next[curr]|
        invariant next[curr][L] == if NextAt(sp, level, L, cj + 1) < |sp| then sp[NextAt(sp, level, L, cj + 1)] else TAIL
        decreases |sp| - cj
      {
        WalkStep(less, sp, level, vals, L, cj, v);
        curr, cj := next[curr][L], NextAt(sp, level, L, cj + 1);
        SlotIsNextAt(next, level, sp, L, cj);
      }
      ghost var j := NextAt(sp, level, L, cj + 1);
      assert next[curr][L] == TAIL <==> j == |sp|;
      assert curr != HEAD <==> cj > 0;
      WalkStep(less, sp, level, vals, L, cj, v);
    }

    /** The descent of `find` from head through every level of the spine
        `sp`, whose real nodes hold `vals`. */
    method DescendLevels(v: T, ghost sp: seq<Id>, ghost vals: seq<T>) returns (curr: Id, ghost ci: nat)
      requires |sp| == |vals| + 1 && sp[0] == HEAD
      requires forall i :: 0 < i < |sp| ==> sp[i] != HEAD && sp[i] != TAIL && sp[i] in value && value[sp[i]] == vals[i - 1]
      requires forall i :: 0 <= i < |sp| ==> sp[i] in level
      requires level[HEAD] == MAX_LEVEL
      requires forall L :: 0 <= L <= MAX_LEVEL ==> Linked(next, L, Above(sp, level, L) + [TAIL])
      ensures ci == FindPos(less, sp, level, vals, v) && curr == sp[ci]
    {
      curr, ci := HEAD, 0;
      var L := MAX_LEVEL + 1;
      while L > 0
        invariant 0 <= L <= MAX_LEVEL + 1
        invariant ci < |sp| && curr == sp[ci] && L <= level[curr] + 1
        invariant L > 0 ==> Descend(less, sp, level, vals, L - 1, ci, v) == FindPos(less, sp, level, vals, v)
        invariant L == 0 ==> ci == FindPos(less, sp, level, vals, v)
      {
        L := L - 1;
        DescendStep(less, sp, level, vals, L, ci, v);
        curr, ci := WalkLevel(curr, L, v, sp, vals, ci);
      }
    }

    /** `find`: descends from head through every level; on each level it
        advances while the current node is not equal to `v` and the next
        one is not greater than `v`. */
    method Find(v: T) returns (r: Id)
      requires Valid()
      ensures r == ([HEAD] + order)[FindPos(less, [HEAD] + order, level, Contents(), v)]
      ensures r in ([HEAD] + order)[..UpperBound(less, Contents(), v) + 1]
      ensures ContainsEqual(less, Contents(), v) ==> r in value && IsEqual(less, value[r], v)
      ensures !ContainsEqual(less, Contents(), v) ==> r == ([HEAD] + order)[UpperBound(less, Contents(), v)]
    {
      SearchSetup(less, value, level, next, prev, order);
      ghost var ci;
      r, ci := DescendLevels(v, [HEAD] + order, Contents());
      FindLands(less, value, level, next, prev, order, v, ci);
    }

    /** `find_first`: where `find` stops if that node is equal to `v`,
        otherwise the node after it on level 0. */
    method FindFirst(v: T) returns (r: Id)
      requires Valid()
      ensures r == Full()[FindFirstPos(less, [HEAD] + order, level, Contents(), v)]
      ensures ContainsEqual(less, Contents(), v) ==> r in value && IsEqual(less, value[r], v)
      ensures !ContainsEqual(less, Contents(), v) ==> r == (order + [TAIL])[LowerBound(less, Contents(), v)]
    {
      ghost var sp, vals := [HEAD] + order, Contents();
      ghost var d := FindPos(less, sp, level, vals, v);
      SearchSetup(less, value, level, next, prev, order);
      FindPosSpec(less, sp, level, vals, v);
      FindFirstPosSpec(less, sp, level, vals, v);
      r := Find(v);
      FullIndex(order, d);
      if d < |order| {
        FullIndex(order, d + 1);
      }
      if !(r != HEAD && IsEqual(less, value[r], v)) {
        LevelZeroStep(value, level, next, prev, order, d);
        r := next[r][0];
      }
    }

    /** The search `find_first` is meant to be: descends from head through
        every level advancing while the next node is less than `v`, then
        steps once on level 0, reaching the first node not less than `v`. */
    method FindLowerBound(v: T) returns (r: Id)
      requires Valid()
      ensures r == (order + [TAIL])[LowerBound(less, Contents(), v)]
      ensures ContainsEqual(less, Contents(), v) ==> r in value && IsEqual(less, value[r], v) && FirstAmongEquals(r)
    {
      ghost var s := [HEAD] + order;
      ghost var vals := Contents();
      ghost var p := LowerBound(less, vals, v);
      SpineFacts(value, level, next, prev, order);
      assert forall i :: 0 < i < |s| ==> s[i] == order[i - 1] && vals[i - 1] == value[s[i]];
      var curr := HEAD;
      ghost var ci: nat := 0;
      var L := MAX_LEVEL + 1;
      while L > 0
        invariant 0 <= L <= MAX_LEVEL + 1
        invariant ci <= p && curr == s[ci] && curr in level && L <= level[curr] + 1
        invariant L == 0 ==> ci == p
      {
        L := L - 1;
        assert Linked(next, L, Chain(order, level, L));
        curr, ci := AdvanceWhileLess(curr, L, v, s, vals, p, ci);
        if L == 0 {
          AboveZeroEmpty(s, level, ci, p);
        }
      }
      LevelZeroStep(value, level, next, prev, order, ci);
      r := next[curr][0];
      if ContainsEqual(less, Contents(), v) {
        FirstEqualNode(less, value, order, v);
      }
    }

    /** The node constructor: a fresh id with value `v`, level `lvl`, a
        null back-link and `lvl + 1` null forward slots. */
    method AllocateNode(v: T, lvl: nat) returns (r: Id)
      modifies this`value, this`level, this`next, this`prev, this`nextFree
      requires FIRST_NODE <= nextFree && forall y :: y in next ==> y < nextFree
      ensures r == old(nextFree) && nextFree == r + 1 && r >= FIRST_NODE && r !in old(next)
      ensures value == old(value)[r := v] && level == old(level)[r := lvl]
      ensures next == old(next)[r := seq(lvl + 1, _ => NIL)] && prev == old(prev)[r := NIL]
    {
      var links := NewLinks(lvl);
      r := nextFree;
      nextFree := nextFree + 1;
      value := value[r := v];
      level := level[r := lvl];
      next := next[r := links];
      prev := prev[r := NIL];
      assert links == seq(lvl + 1, _ => NIL);
    }

    /** One level `L` of `insert`: advances from `start` while the next
        node is less than `v`, then, when `L` is not above the new node's
        level `k`, splices the new node `r` in after the node reached. Only
        slot `L` changes, and level `L` ends up linked along the chain of
        the order with `r` at the lower bound `p` of `v`. */
    method SpliceLevel(r: Id, k: nat, v: T, L: nat, start: Id, ghost sp: seq<Id>, ghost ord: seq<Id>,
                       ghost vals: seq<T>, ghost p: nat, ghost ci: nat)
      returns (curr: Id, ghost cj: nat)
      modifies this`next
      requires sp == [HEAD] + ord && |sp| == |vals| + 1
      requires forall i :: 0 < i < |sp| ==> sp[i] != TAIL && sp[i] in value && value[sp[i]] == vals[i - 1]
      requires StrictWeakOrder(less) && Sorted(less, vals) && p == LowerBound(less, vals, v)
      requires Distinct(sp) && TAIL !in sp && r !in sp && r != TAIL
      requires r in level && level[r] == k && r in next && |next[r]| == k + 1
      requires ci <= p && sp[ci] == start && start in level && level[start] >= L
      requires Linked(next, L, Chain(ord, level, L))
      ensures ci <= cj <= p && curr == sp[cj] && curr in level && level[curr] >= L
      ensures Above(sp[cj + 1..p + 1], level, L) == []
      ensures forall y :: y in next <==> y in old(next)
      ensures forall y :: y in old(next) ==> |next[y]| == |old(next)[y]|
      ensures forall y :: y in old(next) && y !in sp && y != r ==> next[y] == old(next)[y]
      ensures forall L2 :: 0 <= L2 <= MAX_LEVEL && L2 != L ==> SameAt(old(next), next, L2)
      ensures Linked(next, L, Chain(ord[..p] + [r] + ord[p..], level, L))
    {
      curr, cj := AdvanceWhileLess(start, L, v, sp, vals, p, ci);
      if L <= k {
        ghost var nb := next;
        InsertLevelStep(nb, level, ord, p, r, L, cj);
        var slots: seq<Id> := next[r][L := next[curr][L]];
        next := next[r := slots];
        ghost var nm := next;
        slots := next[curr][L := r];
        next := next[curr := slots];
        forall L2 | 0 <= L2 <= MAX_LEVEL && L2 != L
          ensures SameAt(nb, next, L2)
        {
          SlotUpdateFrame(nb, r, L, nb[curr][L], L2);
          SlotUpdateFrame(nm, curr, L, r, L2);
          SameAtTrans(nb, nm, next, L2);
        }
      } else {
        InsertLevelSkip(ord, level, p, r, L);
      }
    }

    /** The level loop of `insert`: from `start`, at position `ci` of the
        spine `sp = [HEAD] + ord`, walks down from the level of `start`,
        one `SpliceLevel` per level. Every chain of the order with `r` at
        the lower bound `p` of `v` ends up linked. */
    method LinkLevels(r: Id, k: nat, v: T, start: Id, ghost sp: seq<Id>, ghost ord: seq<Id>,
                      ghost vals: seq<T>, ghost p: nat, ghost ci: nat)
      returns (curr: Id)
      modifies this`next
      requires sp == [HEAD] + ord && |sp| == |vals| + 1
      requires forall i :: 0 < i < |sp| ==> sp[i] != TAIL && sp[i] in value && value[sp[i]] == vals[i - 1]
      requires forall i :: 0 <= i < |sp| ==> sp[i] in level
      requires StrictWeakOrder(less) && Sorted(less, vals) && p == LowerBound(less, vals, v)
      requires Distinct(sp) && TAIL !in sp && r !in sp && r != TAIL
      requires r in level && level[r] == k && 1 <= k <= MAX_LEVEL && r in next && |next[r]| == k + 1
      requires ci <= p && sp[ci] == start && start in level && k <= level[start] <= MAX_LEVEL
      requires AllLinked(next, level, ord)
      ensures forall y :: y in next <==> y in old(next)
      ensures forall y :: y in old(next) ==> |next[y]| == |old(next)[y]|
      ensures forall y :: y in old(next) && y !in sp && y != r ==> next[y] == old(next)[y]
      ensures AllLinked(next, level, ord[..p] + [r] + ord[p..])
      ensures curr == sp[p]
    {
      ghost var next0 := next;
      ghost var o2 := ord[..p] + [r] + ord[p..];
      forall L2 | level[start] < L2 <= MAX_LEVEL
        ensures Linked(next, L2, Chain(o2, level, L2))
      {
        InsertLevelSkip(ord, level, p, r, L2);
      }
      curr := start;
      ghost var cj: nat := ci;
      var L := level[start] + 1;
      while L > 0
        invariant 0 <= L <= level[start] + 1
        invariant cj <= p < |sp| && curr == sp[cj] && curr in level && L <= level[curr] + 1
        invariant L == 0 ==> cj == p
        invariant forall y :: y in next <==> y in next0
        invariant forall y :: y in next0 ==> |next[y]| == |next0[y]|
        invariant forall y :: y in next0 && y !in sp && y != r ==> next[y] == next0[y]
        invariant forall L2 :: 0 <= L2 < L ==> SameAt(next0, next, L2)
        invariant forall L2 :: L <= L2 <= MAX_LEVEL ==> Linked(next, L2, Chain(o2, level, L2))
      {
        L := L - 1;
        LinkedFrame(next0, next, L, Chain(ord, level, L));
        ghost var nb := next;
        curr, cj := SpliceLevel(r, k, v, L, curr, sp, ord, vals, p, cj);
        forall L2 | 0 <= L2 < L ensures SameAt(next0, next, L2) {
          SameAtTrans(next0, nb, next, L2);
        }
        forall L2 | L < L2 <= MAX_LEVEL ensures Linked(next, L2, Chain(o2, level, L2)) {
          LinkedFrame(nb, next, L2, Chain(o2, level, L2));
        }
        if L == 0 {
          AboveZeroEmpty(sp, level, cj, p);
        }
      }
    }

    /** The body of `insert` once the level `k` is drawn: allocates the
        node, links it in at every level from `start` down, and sets the
        back-links of the node and of its successor. */
    method InsertNode(v: T, k: nat, start: Id, ghost sp: seq<Id>, ghost vals: seq<T>, ghost p: nat, ghost ci: nat)
      returns (r: Id)
      modifies this
      requires sp == [HEAD] + order && |sp| == |vals| + 1
      requires forall i :: 0 < i < |sp| ==> sp[i] != TAIL && sp[i] in value && value[sp[i]] == vals[i - 1]
      requires forall i :: 0 <= i < |sp| ==> sp[i] in level && sp[i] in next
      requires StrictWeakOrder(less) && Sorted(less, vals) && p == LowerBound(less, vals, v)
      requires Distinct(sp) && TAIL !in sp && TAIL in next
      requires 1 <= k <= MAX_LEVEL
      requires ci <= p && sp[ci] == start && start in level && k <= level[start] <= MAX_LEVEL
      requires AllLinked(next, level, order)
      requires FIRST_NODE <= nextFree && forall y :: y in next ==> y < nextFree
      ensures r == old(nextFree) && nextFree == r + 1 && r >= FIRST_NODE && r !in old(next)
      ensures value == old(value)[r := v] && level == old(level)[r := k]
      ensures forall y :: y in next <==> y in old(next) || y == r
      ensures forall y :: y in old(next) ==> |next[y]| == |old(next)[y]|
      ensures |next[r]| == k + 1 && next[TAIL] == old(next)[TAIL]
      ensures order == old(order)[..p] + [r] + old(order)[p..]
      ensures AllLinked(next, level, order)
      ensures prev == old(prev)[r := sp[p]][(old(order) + [TAIL])[p] := r]
      ensures size == old(size) + 1
    {
      ghost var ord := order;
      r := AllocateNode(v, k);
      assert r !in sp;
      AllocatedLinks(old(next), old(level), ord, r, k, next[r]);
      var curr := LinkLevels(r, k, v, start, sp, ord, vals, p, ci);
      InsertedLevels(level, ord, p, r);
      SuccessorAfterInsert(level, next, ord, p, r);
      prev, size, order := prev[r := curr][next[r][0] := r], size + 1, ord[..p] + [r] + ord[p..];
    }

    /** `insert`: draws the new node's level from `coin`, allocates it,
        and splices it in at every level up to that level, starting from
        `hint` when one is given and from head otherwise; then sets the
        back-links around it. The node goes in before any equal values. */
    method Insert(v: T, hint: Id, coin: nat -> bool) returns (r: Id)
      modifies this
      requires Valid()
      requires hint == NIL || hint == HEAD || (hint in value && less(value[hint], v) && level[hint] >= LevelOf(coin))
      ensures Valid()
      ensures r == old(nextFree) && r >= FIRST_NODE && r !in old(next)
      ensures var p := LowerBound(less, old(Contents()), v);
              && order == old(order)[..p] + [r] + old(order)[p..]
              && Contents() == old(Contents())[..p] + [v] + old(Contents())[p..]
      ensures value == old(value)[r := v] && level == old(level)[r := LevelOf(coin)]
      ensures var p := LowerBound(less, old(Contents()), v);
              prev == old(prev)[r := ([HEAD] + old(order))[p]][(old(order) + [TAIL])[p] := r]
      ensures size == old(size) + 1
    {
      ghost var value0, level0, next0, prev0, order0 := value, level, next, prev, order;
      ghost var sp, vals := [HEAD] + order, ValuesOf(order, value);
      var k := RandomLevel(coin);
      var start := if hint != NIL then hint else HEAD;
      ghost var ci := InsertSetup(less, value, level, next, prev, order, sp, vals, v, start, k);
      r := InsertNode(v, k, start, sp, vals, LowerBound(less, vals, v), ci);
      InsertWf(less, value0, level0, next0, prev0, order0, v, r, k, LowerBound(less, vals, v), next, prev);
    }

    /** One level `L` of `remove`: advances from `start` while the next node
        is less than the value of `node`, and when the slot reached points
        to `node`, redirects it to `node`'s own successor on that level.
        Only that slot changes, and level `L` ends up linked along the chain
        of the order without `node`. */
    method UnlinkLevel(node: Id, L: nat, start: Id, ghost sp: seq<Id>, ghost ord: seq<Id>,
                       ghost vals: seq<T>, ghost q: nat, ghost ci: nat)
      returns (curr: Id, ghost cj: nat)
      modifies this`next
      requires sp == [HEAD] + ord && |sp| == |vals| + 1 && q < |ord| && ord[q] == node
      requires forall i :: 0 < i < |sp| ==> sp[i] != TAIL && sp[i] in value && value[sp[i]] == vals[i - 1]
      requires node in value && StrictWeakOrder(less) && Sorted(less, vals) && q == LowerBound(less, vals, value[node])
      requires Distinct(sp) && TAIL !in sp
      requires ci <= q && sp[ci] == start && start in level && level[start] >= L
      requires Linked(next, L, Chain(ord, level, L))
      ensures ci <= cj <= q && curr == sp[cj] && curr in level && level[curr] >= L
      ensures forall y :: y in next <==> y in old(next)
      ensures forall y :: y in old(next) ==> |next[y]| == |old(next)[y]|
      ensures forall y :: y in old(next) && y !in sp[..q + 1] ==> next[y] == old(next)[y]
      ensures forall L2 :: 0 <= L2 <= MAX_LEVEL && L2 != L ==> SameAt(old(next), next, L2)
      ensures Linked(next, L, Chain(ord[..q] + ord[q + 1..], level, L))
    {
      curr, cj := AdvanceWhileLess(start, L, value[node], sp, vals, q, ci);
      RemoveLevelStep(next, level, ord, q, L, cj);
      if next[curr][L] == node {
        ghost var nb := next;
        var slots: seq<Id> := next[curr][L := next[node][L]];
        next := next[curr := slots];
        forall L2 | 0 <= L2 <= MAX_LEVEL && L2 != L
          ensures SameAt(nb, next, L2)
        {
          SlotUpdateFrame(nb, curr, L, nb[node][L], L2);
        }
        assert curr in sp[..q + 1] by { assert sp[..q + 1][cj] == curr; }
      }
    }

    /** The level loop of `remove`: from head down through every level,
        one `UnlinkLevel` per level. Every chain of the order without
        `node` ends up linked. */
    method UnlinkLevels(node: Id, ghost sp: seq<Id>, ghost ord: seq<Id>, ghost vals: seq<T>, ghost q: nat)
      modifies this`next
      requires sp == [HEAD] + ord && |sp| == |vals| + 1 && q < |ord| && ord[q] == node
      requires forall i :: 0 < i < |sp| ==> sp[i] != TAIL && sp[i] in value && value[sp[i]] == vals[i - 1]
      requires node in value && StrictWeakOrder(less) && Sorted(less, vals) && q == LowerBound(less, vals, value[node])
      requires Distinct(sp) && TAIL !in sp
      requires HEAD in level && level[HEAD] == MAX_LEVEL
      requires AllLinked(next, level, ord)
      ensures forall y :: y in next <==> y in old(next)
      ensures forall y :: y in old(next) ==> |next[y]| == |old(next)[y]|
      ensures forall y :: y in old(next) && y !in sp[..q + 1] ==> next[y] == old(next)[y]
      ensures AllLinked(next, level, ord[..q] + ord[q + 1..])
    {
      ghost var next0 := next;
      ghost var o2 := ord[..q] + ord[q + 1..];
      var curr := HEAD;
      ghost var cj: nat := 0;
      var L := MAX_LEVEL + 1;
      while L > 0
        invariant 0 <= L <= MAX_LEVEL + 1
        invariant cj <= q && curr == sp[cj] && curr in level && L <= level[curr] + 1
        invariant forall y :: y in next <==> y in next0
        invariant forall y :: y in next0 ==> |next[y]| == |next0[y]|
        invariant forall y :: y in next0 && y !in sp[..q + 1] ==> next[y] == next0[y]
        invariant forall L2 :: 0 <= L2 < L ==> SameAt(next0, next, L2)
        invariant forall L2 :: L <= L2 <= MAX_LEVEL ==> Linked(next, L2, Chain(o2, level, L2))
      {
        L := L - 1;
        LinkedFrame(next0, next, L, Chain(ord, level, L));
        ghost var nb := next;
        curr, cj := UnlinkLevel(node, L, curr, sp, ord, vals, q, cj);
        forall L2 | 0 <= L2 < L ensures SameAt(next0, next, L2) {
          SameAtTrans(next0, nb, next, L2);
        }
        forall L2 | L < L2 <= MAX_LEVEL ensures Linked(next, L2, Chain(o2, level, L2)) {
          LinkedFrame(nb, next, L2, Chain(o2, level, L2));
        }
      }
    }

    /** The body of `remove`: the successor takes over the node's
        back-link, the node is unlinked from every level, and it leaves the
        arena. `next1` is the link map just before it leaves. */
    method DetachNode(node: Id, ghost sp: seq<Id>, ghost vals: seq<T>, ghost q: nat)
      returns (ghost next1: map<Id, seq<Id>>)
      modifies this
      requires sp == [HEAD] + order && |sp| == |vals| + 1 && q < |order| && order[q] == node
      requires forall i :: 0 < i < |sp| ==> sp[i] != TAIL && sp[i] in value && value[sp[i]] == vals[i - 1]
      requires node in value && StrictWeakOrder(less) && Sorted(less, vals) && q == LowerBound(less, vals, value[node])
      requires Distinct(sp) && TAIL !in sp
      requires HEAD in level && level[HEAD] == MAX_LEVEL
      requires AllLinked(next, level, order)
      requires node in next && 0 < |next[node]| && next[node][0] == (order + [TAIL])[q + 1]
      requires node in prev && size == |order|
      ensures forall y :: y in next1 <==> y in old(next)
      ensures forall y :: y in old(next) ==> |next1[y]| == |old(next)[y]|
      ensures TAIL in old(next) ==> next1[TAIL] == old(next)[TAIL]
      ensures AllLinked(next1, old(level), old(order)[..q] + old(order)[q + 1..])
      ensures next == next1 - {node}
      ensures value == old(value) - {node} && level == old(level) - {node}
      ensures prev == old(prev)[(old(order) + [TAIL])[q + 1] := old(prev)[node]] - {node}
      ensures order == old(order)[..q] + old(order)[q + 1..]
      ensures size == old(size) - 1 && nextFree == old(nextFree)
    {
      var succ := next[node][0];
      prev := prev[succ := prev[node]];
      assert TAIL !in sp[..q + 1];
      UnlinkLevels(node, sp, order, vals, q);
      next1 := next;
      value := value - {node};
      level := level - {node};
      next := next - {node};
      prev := prev - {node};
      size := size - 1;
      order := order[..q] + order[q + 1..];
    }

    /** `remove`: unlinks a node that is first among the nodes holding an
        equal value, the only case its per-level search finds on every
        level, and frees it. */
    method Remove(node: Id)
      modifies this
      requires Valid() && node in value && FirstAmongEquals(node)
      ensures Valid()
      ensures var q := LowerBound(less, old(Contents()), old(value)[node]);
              && order == old(order)[..q] + old(order)[q + 1..]
              && Contents() == old(Contents())[..q] + old(Contents())[q + 1..]
      ensures value == old(value) - {node} && level == old(level) - {node}
      ensures var q := LowerBound(less, old(Contents()), old(value)[node]);
              prev == old(prev)[(old(order) + [TAIL])[q + 1] := old(prev)[node]] - {node}
      ensures size == old(size) - 1
      ensures forall y, L :: y in next && 0 <= L < |next[y]| ==> next[y][L] != node
    {
      ghost var value0, level0, next0, prev0, order0 := value, level, next, prev, order;
      ghost var sp := [HEAD] + order;
      ghost var vals := Contents();
      ghost var q := LowerBound(less, vals, value[node]);
      SpineFacts(value, level, next, prev, order);
      assert forall i :: 0 < i < |sp| ==> sp[i] == order[i - 1] && vals[i - 1] == value[sp[i]];
      LevelZeroStep(value, level, next, prev, order, q + 1);
      assert sp[q + 1] == node;
      ghost var next1 := DetachNode(node, sp, vals, q);
      RemoveWf(less, value0, level0, next0, prev0, order0, q, node, next1, prev);
      NoDanglingLinks(less, value, level, next, prev, order);
    }

    /** The first loop of `remove_all`: walks level 0 from head's
        successor to tail, freeing every node on the way. */
    method DeleteNodes(ghost rest0: seq<Id>)
      modifies this`value, this`level, this`next, this`prev
      requires HEAD !in rest0 && TAIL !in rest0 && Distinct(rest0)
      requires LiveExactly(value, level, next, prev, rest0)
      requires HEAD in next && 0 < |next[HEAD]| && ChainFrom(next, next[HEAD][0], rest0)
      ensures LiveExactly(value, level, next, prev, [])
      ensures forall y :: y in level ==> y in old(level) && y in old(next) && y in old(prev)
      ensures forall y :: y in level ==> level[y] == old(level)[y] && next[y] == old(next)[y] && prev[y] == old(prev)[y]
    {
      var node := next[HEAD][0];
      ghost var rest := rest0;
      while node != TAIL
        invariant HEAD !in rest && TAIL !in rest && Distinct(rest)
        invariant LiveExactly(value, level, next, prev, rest)
        invariant ChainFrom(old(next), node, rest)
        invariant forall y :: y in level ==> y in old(level) && y in old(next) && y in old(prev)
        invariant forall y :: y in level ==> level[y] == old(level)[y] && next[y] == old(next)[y] && prev[y] == old(prev)[y]
        decreases |rest|
      {
        FreeFirst(value, level, next, prev, rest);
        var succ := next[node][0];
        value := value - {node};
        level := level - {node};
        next := next - {node};
        prev := prev - {node};
        node := succ;
        rest := rest[1..];
      }
    }

    /** The second loop of `remove_all`: every slot of head points at tail. */
    method ResetHead()
      modifies this`next
      requires HEAD in next && |next[HEAD]| == MAX_LEVEL + 1
      ensures next == old(next)[HEAD := seq(MAX_LEVEL + 1, _ => TAIL)]
    {
      var L := 0;
      while L < MAX_LEVEL + 1
        invariant 0 <= L <= MAX_LEVEL + 1
        invariant HEAD in next && |next[HEAD]| == MAX_LEVEL + 1
        invariant next == old(next)[HEAD := next[HEAD]]
        invariant forall j :: 0 <= j < L ==> next[HEAD][j] == TAIL
      {
        var slots: seq<Id> := next[HEAD][L := TAIL];
        next := next[HEAD := slots];
        L := L + 1;
      }
      assert next[HEAD] == seq(MAX_LEVEL + 1, _ => TAIL);
    }

    /** The body of `remove_all`: frees the nodes of `rest0`, found by
        walking level 0 from head, and resets both sentinels. */
    method ClearNodes(ghost rest0: seq<Id>)
      modifies this`value, this`level, this`next, this`prev, this`size, this`order
      requires HEAD !in rest0 && TAIL !in rest0 && Distinct(rest0)
      requires LiveExactly(value, level, next, prev, rest0)
      requires HEAD in next && |next[HEAD]| == MAX_LEVEL + 1 && ChainFrom(next, next[HEAD][0], rest0)
      requires HEAD in level && TAIL in level && level[HEAD] == MAX_LEVEL && level[TAIL] == MAX_LEVEL
      requires TailEnds(next) && HEAD in prev && prev[HEAD] == NIL
      ensures value == map[] && level == EMPTY_LEVEL && next == EMPTY_NEXT && prev == EMPTY_PREV
      ensures size == 0 && order == []
    {
      ghost var level0, next0, prev0 := level, next, prev;
      DeleteNodes(rest0);
      ClearedIsEmpty(level0, next0, prev0, value, level, next, prev);
      ResetHead();
      prev := prev[TAIL := HEAD];
      size := 0;
      order := [];
    }

    /** `remove_all`: frees every real node, points every head slot at
        tail and tail's back-link at head, and sets the size to zero. */
    method RemoveAll()
      modifies this
      requires Valid()
      ensures Valid() && order == [] && Contents() == []
      ensures value == map[] && level == EMPTY_LEVEL && next == EMPTY_NEXT && prev == EMPTY_PREV
      ensures size == 0 && nextFree == old(nextFree)
      ensures old(order) == [] ==> value == old(value) && level == old(level) && next == old(next) && prev == old(prev)
    {
      ghost var value0, level0, next0, prev0, order0 := value, level, next, prev, order;
      assert Linked(next, 0, Chain(order, level, 0));
      ClearStart(value, level, next, prev, order);
      ClearNodes(order);
      EmptyWf(less);
      if order0 == [] {
        EmptyIsUnique(less, value0, level0, next0, prev0);
      }
    }
  }

  /** In a valid list every real node is on the chain of exactly the
      levels 0 up to its own level; with `Insert`'s new level map, the new
      node is spliced into exactly the levels up to the drawn one. */
  lemma OnExactlyItsLevels<T(!new)>(list: SkipList<T>, y: Id)
    requires list.Valid() && y in list.value
    ensures forall L :: y in Chain(list.order, list.level, L) <==> L <= list.level[y]
  {
    ChainMembership(list.order, list.level, y);
  }
}
