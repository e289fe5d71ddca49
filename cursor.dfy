/** Cursors over a skip list: the mutable and the const iterator. Both
    hold one node and move along level 0, forward by slot 0 and back by
    the back-link. */
module Cursors {
  import opened Chains
  import opened Layout
  import opened SkipLists

  /** Slot 0 of the node at position `i` of the level-0 chain leads to
      position `i + 1`, and that node's back-link leads back to `i`. */
  lemma StepForward<T(!new)>(list: SkipList<T>, i: nat)
    requires list.Valid() && i + 1 < |list.Full()|
    ensures list.Full()[i] in list.next && 0 < |list.next[list.Full()[i]]|
    ensures list.next[list.Full()[i]][0] == list.Full()[i + 1]
    ensures list.Full()[i + 1] in list.prev && list.prev[list.Full()[i + 1]] == list.Full()[i]
  {
    var f := list.Full();
    assert Linked(list.next, 0, Chain(list.order, list.level, 0));
    LevelZeroStep(list.value, list.level, list.next, list.prev, list.order, i);
    assert f[i] == ([HEAD] + list.order)[i] && f[i + 1] == (list.order + [TAIL])[i];
    assert PrevLinked(list.prev, f);
  }

  /** Head's back-link and tail's slot 0 are null. */
  lemma Ends<T(!new)>(list: SkipList<T>)
    requires list.Valid()
    ensures HEAD in list.prev && list.prev[HEAD] == NIL
    ensures TAIL in list.next && 0 < |list.next[TAIL]| && list.next[TAIL][0] == NIL
  {
  }

  /** Two positions of the level-0 chain hold the same node exactly when
      they are the same position. */
  lemma SamePosition<T(!new)>(list: SkipList<T>, i: nat, j: nat)
    requires list.Valid() && i < |list.Full()| && j < |list.Full()|
    ensures list.Full()[i] == list.Full()[j] <==> i == j
  {
    SpineFacts(list.value, list.level, list.next, list.prev, list.order);
    assert list.Full() == [HEAD] + list.order + [TAIL];
  }

  /** Every live node, sentinels included, is on the level-0 chain. */
  lemma LiveOnChain<T(!new)>(list: SkipList<T>, x: Id)
    requires list.Valid() && x in list.next
    ensures x in list.Full()
  {
    assert x == HEAD || x == TAIL || x in list.order;
    assert list.Full() == [HEAD] + list.order + [TAIL];
  }

  /** `sl_iterator`: a cursor through which the list may be changed. */
  class Cursor<T(!new)> {
    const list: SkipList<T>
    var node: Id

    constructor (list: SkipList<T>, node: Id)
      ensures this.list == list && this.node == node
    {
      this.list := list;
      this.node := node;
    }

    /** Prefix `++`: one step forward along level 0; from tail, null. */
    method Increment(ghost i: nat)
      modifies this
      requires list.Valid() && i < |list.Full()| && node == list.Full()[i]
      ensures node == if i + 1 < |list.Full()| then list.Full()[i + 1] else NIL
    {
      if i + 1 < |list.Full()| {
        StepForward(list, i);
      } else {
        Ends(list);
      }
      node := list.next[node][0];
    }

    /** Postfix `++`: steps forward and returns a cursor at the old node. */
    method PostIncrement(ghost i: nat) returns (before: Cursor<T>)
      modifies this
      requires list.Valid() && i < |list.Full()| && node == list.Full()[i]
      ensures fresh(before) && before.list == list && before.node == old(node)
      ensures node == if i + 1 < |list.Full()| then list.Full()[i + 1] else NIL
    {
      before := new Cursor(list, node);
      Increment(i);
    }

    /** Prefix `--`: one step back along the back-links; from head, null. */
    method Decrement(ghost i: nat)
      modifies this
      requires list.Valid() && i < |list.Full()| && node == list.Full()[i]
      ensures node == if 0 < i then list.Full()[i - 1] else NIL
    {
      if 0 < i {
        StepForward(list, i - 1);
      } else {
        Ends(list);
      }
      node := list.prev[node];
    }

    /** Postfix `--`: steps back and returns a cursor at the old node. */
    method PostDecrement(ghost i: nat) returns (before: Cursor<T>)
      modifies this
      requires list.Valid() && i < |list.Full()| && node == list.Full()[i]
      ensures fresh(before) && before.list == list && before.node == old(node)
      ensures node == if 0 < i then list.Full()[i - 1] else NIL
    {
      before := new Cursor(list, node);
      Decrement(i);
    }

    /** `*`: the value at a real node, which is the value at its position
        in the contents. */
    method Get() returns (v: T)
      requires list.Valid() && node in list.value
      ensures forall i :: 0 <= i < |list.order| && list.order[i] == node ==> v == list.Contents()[i]
    {
      v := list.value[node];
    }

    /** `==`: both cursors are at the same node. */
    method Equals(other: Cursor<T>) returns (b: bool)
      ensures b <==> node == other.node
    {
      b := node == other.node;
    }

    /** `!=`: the negation of `==`. */
    method NotEquals(other: Cursor<T>) returns (b: bool)
      ensures b <==> node != other.node
    {
      b := Equals(other);
      b := !b;
    }
  }

  /** `sl_const_iterator`: a read-only cursor. */
  class ConstCursor<T(!new)> {
    const list: SkipList<T>
    var node: Id

    constructor (list: SkipList<T>, node: Id)
      ensures this.list == list && this.node == node
    {
      this.list := list;
      this.node := node;
    }

    /** The const cursor at the node of a mutable one. */
    constructor FromCursor(it: Cursor<T>)
      ensures list == it.list && node == it.node
    {
      list := it.list;
      node := it.node;
    }

    /** Prefix `++`: one step forward along level 0; from tail, null. */
    method Increment(ghost i: nat)
      modifies this
      requires list.Valid() && i < |list.Full()| && node == list.Full()[i]
      ensures node == if i + 1 < |list.Full()| then list.Full()[i + 1] else NIL
    {
      if i + 1 < |list.Full()| {
        StepForward(list, i);
      } else {
        Ends(list);
      }
      node := list.next[node][0];
    }

    /** Postfix `++`: steps forward and returns a cursor at the old node. */
    method PostIncrement(ghost i: nat) returns (before: ConstCursor<T>)
      modifies this
      requires list.Valid() && i < |list.Full()| && node == list.Full()[i]
      ensures fresh(before) && before.list == list && before.node == old(node)
      ensures node == if i + 1 < |list.Full()| then list.Full()[i + 1] else NIL
    {
      before := new ConstCursor(list, node);
      Increment(i);
    }

    /** Prefix `--`: one step back along the back-links; from head, null. */
    method Decrement(ghost i: nat)
      modifies this
      requires list.Valid() && i < |list.Full()| && node == list.Full()[i]
      ensures node == if 0 < i then list.Full()[i - 1] else NIL
    {
      if 0 < i {
        StepForward(list, i - 1);
      } else {
        Ends(list);
      }
      node := list.prev[node];
    }

    /** Postfix `--`: steps back and returns a cursor at the old node. */
    method PostDecrement(ghost i: nat) returns (before: ConstCursor<T>)
      modifies this
      requires list.Valid() && i < |list.Full()| && node == list.Full()[i]
      ensures fresh(before) && before.list == list && before.node == old(node)
      ensures node == if 0 < i then list.Full()[i - 1] else NIL
    {
      before := new ConstCursor(list, node);
      Decrement(i);
    }

    /** `*`: the value at a real node, which is the value at its position
        in the contents. */
    method Get() returns (v: T)
      requires list.Valid() && node in list.value
      ensures forall i :: 0 <= i < |list.order| && list.order[i] == node ==> v == list.Contents()[i]
    {
      v := list.value[node];
    }

    /** `==`: both cursors are at the same node. */
    method Equals(other: ConstCursor<T>) returns (b: bool)
      ensures b <==> node == other.node
    {
      b := node == other.node;
    }

    /** `!=`: the negation of `==`. */
    method NotEquals(other: ConstCursor<T>) returns (b: bool)
      ensures b <==> node != other.node
    {
      b := Equals(other);
      b := !b;
    }
  }
}

module Traversal {
  import opened Chains
  import opened SkipLists
  import opened Cursors

  /** A level-0 traversal with a cursor, from `front()` up to `tail()`,
      reading every value on the way: it yields exactly the contents, and
      as many values as `size()`. */
  method Traverse<T(!new)>(list: SkipList<T>) returns (vals: seq<T>)
    requires list.Valid()
    ensures vals == list.Contents()
    ensures |vals| == list.size
  {
    ghost var f, cs := list.Full(), list.Contents();
    var front := list.Front();
    var tail := list.Tail();
    var c := new Cursor(list, front);
    vals := [];
    var i := 0;
    while c.node != tail
      invariant c.list == list && list.Valid() && list.Full() == f && list.Contents() == cs
      invariant i <= |list.order| && c.node == f[i + 1]
      invariant vals == cs[..i]
      decreases |list.order| - i
    {
      assert f[i + 1] == list.order[i];
      var v := c.Get();
      assert v == cs[i];
      vals := vals + [v];
      c.Increment(i + 1);
      i := i + 1;
    }
    SamePosition(list, i + 1, |f| - 1);
    assert vals == cs;
  }
}
