/** Client scenarios of the list over integers ordered by `<`: what a caller
    observes through the public operations. */
module Scenarios {
  import opened Ordering
  import opened Chains
  import opened Descent
  import opened SkipLists
  import opened Cursors
  import opened Traversal

  lemma IntLessIsStrictWeak()
    ensures StrictWeakOrder(IntLess)
  {
  }

  /** A new list is empty: `front()` is tail and `back()` is head, and
      `remove_all` leaves it exactly as it was. */
  method EmptyScenario() returns (n: nat, front: Id, back: Id, n2: nat)
    ensures n == 0 && front == TAIL && back == HEAD && n2 == 0
  {
    IntLessIsStrictWeak();
    var list := new SkipList(IntLess);
    n := list.Size();
    front := list.Front();
    back := list.Back();
    list.RemoveAll();
    n2 := list.Size();
  }

  /** The values 1, 2, ..., n. */
  function Upto(n: nat): (r: seq<int>)
    ensures |r| == n && forall i :: 0 <= i < n ==> r[i] == i + 1
  {
    seq(n, i => i + 1)
  }

  /** Putting k + 1 at the end of 1..k gives 1..k+1. */
  lemma UptoStep(k: nat)
    ensures Upto(k)[..k] + [k + 1] + Upto(k)[k..] == Upto(k + 1)
  {
    assert Upto(k)[..k] == Upto(k) && Upto(k)[k..] == [];
  }

  /** Inserts 1, 2, ..., n in increasing order into a new list, drawing
      the level of the k-th node from `coins(k)`: each value goes at the
      end, so the list holds exactly 1..n. */
  method InsertAscending(n: nat, coins: nat -> nat -> bool) returns (list: SkipList<int>)
    ensures fresh(list) && list.Valid() && list.less == IntLess
    ensures list.Contents() == Upto(n) && list.size == n
  {
    IntLessIsStrictWeak();
    list := new SkipList(IntLess);
    var k := 0;
    while k < n
      invariant k <= n && fresh(list) && list.Valid() && list.less == IntLess
      invariant list.Contents() == Upto(k)
    {
      assert LowerBound(IntLess, Upto(k), k + 1) == k;
      var r := list.Insert(k + 1, NIL, coins(k));
      UptoStep(k);
      k := k + 1;
    }
  }

  /** Inserting 1, 2, ..., n in increasing order, whatever levels are
      drawn: the level-0 traversal yields them in order and the size is
      n. */
  method AscendingScenario(n: nat, coins: nat -> nat -> bool) returns (vals: seq<int>, count: nat)
    ensures vals == Upto(n) && count == n
  {
    var list := InsertAscending(n, coins);
    vals := Traverse(list);
    count := list.Size();
  }

  /** Inserts 5 twice into a new list: the second copy goes before the
      first. */
  method InsertFiveTwice(coin1: nat -> bool, coin2: nat -> bool) returns (list: SkipList<int>, first: Id, second: Id)
    ensures list.Valid() && first != second && list.Contents() == [5, 5]
    ensures list.order == [second, first] && list.value[first] == 5 && list.value[second] == 5
  {
    list, first := InsertFive(coin1);
    assert LowerBound(IntLess, [5], 5) == 0;
    second := list.Insert(5, NIL, coin2);
  }

  /** Inserts 5 into a new list. */
  method InsertFive(coin: nat -> bool) returns (list: SkipList<int>, r: Id)
    ensures fresh(list) && list.Valid() && list.less == IntLess && list.Contents() == [5]
    ensures list.order == [r] && list.value[r] == 5
  {
    IntLessIsStrictWeak();
    list := new SkipList(IntLess);
    r := list.Insert(5, NIL, coin);
  }

  /** Inserting 5 twice keeps both; the second copy goes before the first. */
  method DuplicateScenario(coin1: nat -> bool, coin2: nat -> bool)
    returns (list: SkipList<int>, first: Id, second: Id, vals: seq<int>, n: nat)
    ensures list.Valid() && first != second
    ensures list.order == [second, first] && list.value[first] == 5 && list.value[second] == 5
    ensures vals == [5, 5] && n == 2
  {
    list, first, second := InsertFiveTwice(coin1, coin2);
    vals := Traverse(list);
    n := list.Size();
  }

  /** Round trip on any list: after inserting `v`, `find_first(v)` lands
      on a node holding a value equal to `v`, though not always on the one
      just inserted. */
  method InsertThenFindFirst<T(!new)>(list: SkipList<T>, v: T, coin: nat -> bool) returns (r: Id)
    modifies list
    requires list.Valid()
    ensures list.Valid() && r in list.value && IsEqual(list.less, list.value[r], v)
  {
    var node := list.Insert(v, NIL, coin);
    ghost var p := LowerBound(list.less, old(list.Contents()), v);
    assert list.Contents()[p] == v;
    assert ContainsEqual(list.less, list.Contents(), v);
    r := list.FindFirst(v);
  }

  /** After inserting 5, `find_first(5)` lands on a node holding 5. */
  method FindAfterInsertScenario(coin: nat -> bool) returns (v: int)
    ensures v == 5
  {
    IntLessIsStrictWeak();
    var list := new SkipList(IntLess);
    var r := list.Insert(5, NIL, coin);
    assert list.Contents() == [5] && list.Contents()[0] == 5;
    var node := list.FindFirst(5);
    var c := new Cursor(list, node);
    v := c.Get();
    assert list.order == [node];
  }

  /** Inserts 7 drawn at level 3 into a new list. */
  method NewWithTall() returns (list: SkipList<int>, tall: Id)
    ensures fresh(list) && list.Valid() && list.less == IntLess
    ensures list.order == [tall] && list.Contents() == [7]
    ensures list.level[tall] == 3 && list.level[HEAD] == MAX_LEVEL && tall >= FIRST_NODE
  {
    IntLessIsStrictWeak();
    list := new SkipList(IntLess);
    var three: nat -> bool := i => i < 2;
    assert LevelFrom(three, 3) == 3 && LevelFrom(three, 2) == 3 && LevelOf(three) == 3;
    tall := list.Insert(7, NIL, three);
  }

  /** Then inserts 7 drawn at level 1: the new node goes first. */
  method AddShort(list: SkipList<int>, tall: Id) returns (short: Id)
    modifies list
    requires list.Valid() && list.less == IntLess
    requires list.order == [tall] && list.Contents() == [7]
    requires list.level[tall] == 3 && list.level[HEAD] == MAX_LEVEL && tall >= FIRST_NODE
    ensures list.Valid() && list.less == IntLess
    ensures short >= FIRST_NODE && short != tall
    ensures list.order == [short, tall] && list.Contents() == [7, 7]
    ensures list.level[tall] == 3 && list.level[short] == 1 && list.level[HEAD] == MAX_LEVEL
  {
    var never: nat -> bool := _ => false;
    assert LevelOf(never) == 1;
    assert LowerBound(IntLess, [7], 7) == 0;
    assert tall in list.next;
    ghost var o1, c1 := list.order, list.Contents();
    short := list.Insert(7, NIL, never);
    assert list.order == o1[..0] + [short] + o1[0..];
    assert list.Contents() == c1[..0] + [7] + c1[0..];
  }

  /** With two nodes holding 7, the second inserted one first and the
      first inserted one taller, `find_first(7)` returns the taller node,
      which `remove` cannot unlink on level 0, while the lower-bound search
      returns the first one. */
  method FindFirstDuplicateScenario() returns (tall: Id, short: Id, found: Id, first: Id)
    ensures tall != short && found == tall && first == short
  {
    var list;
    list, tall := NewWithTall();
    short := AddShort(list, tall);
    ghost var o2 := list.order;
    assert [HEAD] + o2 == [HEAD, short, tall];
    FindFirstMissesFirstEqual(short, tall, list.level);
    found := list.FindFirst(7);
    assert found == list.Full()[2];
    first := list.FindLowerBound(7);
    assert first == (list.order + [TAIL])[0];
  }

  /** The facts about 1, 2, 3 that removing 2 relies on. */
  lemma OneTwoThree()
    ensures Upto(3) == [1, 2, 3]
    ensures LowerBound(IntLess, [1, 2, 3], 2) == 1 && ContainsEqual(IntLess, [1, 2, 3], 2)
    ensures [1, 2, 3][..1] + [1, 2, 3][2..] == [1, 3]
  {
    assert IsEqual(IntLess, [1, 2, 3][1], 2);
  }

  /** Inserting 1, 2, 3 and removing the node the lower-bound search finds
      for 2 leaves 1 and 3. */
  method RemoveScenario(coins: nat -> nat -> bool) returns (vals: seq<int>, n: nat)
    ensures vals == [1, 3] && n == 2
  {
    var list := InsertAscending(3, coins);
    OneTwoThree();
    var node := list.FindLowerBound(2);
    list.Remove(node);
    vals := Traverse(list);
    n := list.Size();
  }

  /** From the front, `++` then `--` comes back to the same node. */
  method StepScenario(coin: nat -> bool) returns (same: bool)
    ensures same
  {
    IntLessIsStrictWeak();
    var list := new SkipList(IntLess);
    var r := list.Insert(7, NIL, coin);
    var front := list.Front();
    var c := new Cursor(list, front);
    var d := new Cursor(list, front);
    assert list.Full() == [HEAD, r, TAIL] && front == r;
    c.Increment(1);
    assert c.node == TAIL;
    c.Decrement(2);
    assert c.node == front;
    same := c.Equals(d);
  }
}
