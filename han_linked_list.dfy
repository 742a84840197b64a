/**
 * `HANLinkedList<T>` and its `LinkedListIterator<T>`. The list keeps `first`, the head cell,
 * and `size`, a counter kept apart from the cells: `delete` can cut off more cells than it
 * counts, so `size` is only an upper bound on the number of cells. The ghost view is the
 * chain of cells (`nodes`) and the values they hold (`Contents`), head first.
 */
module HanLinkedLists {
  import opened JavaLang
  import opened LinkedNodes

  // ---------------------------------------------------------------- what each operation does

  function Min(a: int, b: int): int {
    if a <= b then a else b
  }

  /** `insert(index, value)` on a list holding `contents` with counter `size`. */
  function Inserted<T>(contents: seq<T>, size: int, index: int, value: T): Result<seq<T>> {
    if index > size - 1 then Throws(IndexOutOfBounds)
    else if index == 0 then Ok([value] + contents)
    else if index < 0 then Throws(IllegalState)
    else if |contents| == 0 then Throws(NullPointer)
    else if |contents| == 1 then Throws(IllegalState)
    else
      var k := Min(index + 1, |contents| - 1);
      Ok(contents[..k] + [value] + contents[k..])
  }

  /** `delete(pos)`: the new contents and counter. */
  function Deleted<T>(contents: seq<T>, size: int, pos: int): Result<(seq<T>, int)> {
    if |contents| == 0 then Ok((contents, size))
    else if pos > size - 1 then Throws(IndexOutOfBounds)
    else if pos == 0 then Ok((contents[1..], size - 1))
    else if pos < 0 then Ok((contents, size))
    else if |contents| < pos then Throws(NullPointer)
    else Ok((contents[..pos], size - 1))
  }

  /** `get(index)`. */
  function Element<T>(contents: seq<T>, index: int): Result<T> {
    if 0 <= index < |contents| then Ok(contents[index]) else Throws(IndexOutOfBounds)
  }

  // ---------------------------------------------------------------- properties

  /** `insert` throws for an index past the counter and, on a consistent list, for a negative
      index; index 0 puts the value at the head; any other success puts it before the last
      element, so it never becomes the tail, and keeps the other elements in order. */
  lemma InsertRules<T>(contents: seq<T>, size: int, index: int, value: T)
    requires |contents| <= size
    ensures index >= size ==> Inserted(contents, size, index, value) == Throws(IndexOutOfBounds)
    ensures index < 0 ==> Inserted(contents, size, index, value) == Throws(IllegalState)
    ensures index == 0 && size > 0 ==> Inserted(contents, size, index, value) == Ok([value] + contents)
    ensures var r := Inserted(contents, size, index, value);
            r.Ok? && index > 0 ==>
              |r.value| == |contents| + 1
              && exists k :: 0 < k < |contents| && r.value == contents[..k] + [value] + contents[k..]
    ensures var r := Inserted(contents, size, index, value);
            r.Ok? && index > 0 ==> r.value[|r.value| - 1] == contents[|contents| - 1]
  {
    var r := Inserted(contents, size, index, value);
    if r.Ok? && index > 0 {
      var k := Min(index + 1, |contents| - 1);
      assert r.value == contents[..k] + [value] + contents[k..];
    }
  }

  /** With a counter that matches the cells, an insert at `0 < index < size - 1` puts the value
      at position `index + 1`, one further than asked. */
  lemma InsertLandsOnePastIndex<T>(contents: seq<T>, index: int, value: T)
    requires 0 < index < |contents| - 1
    ensures Inserted(contents, |contents|, index, value) == Ok(contents[..index + 1] + [value] + contents[index + 1..])
    ensures Inserted(contents, |contents|, index, value).value[index + 1] == value
  {
  }

  /** `delete` on an empty list changes nothing, `delete(0)` drops the head, a position past the
      counter throws; a position `pos > 0` keeps only the first `pos` elements, yet the counter
      goes down by one. */
  lemma DeleteRules<T>(contents: seq<T>, size: int, pos: int)
    requires |contents| <= size
    ensures |contents| == 0 ==> Deleted(contents, size, pos) == Ok((contents, size))
    ensures |contents| > 0 && pos >= size ==> Deleted(contents, size, pos) == Throws(IndexOutOfBounds)
    ensures |contents| > 0 && pos == 0 ==> Deleted(contents, size, pos) == Ok((contents[1..], size - 1))
    ensures |contents| > 0 && 0 < pos < |contents| ==> Deleted(contents, size, pos) == Ok((contents[..pos], size - 1))
    ensures var r := Deleted(contents, size, pos);
            r.Ok? ==> |r.value.0| <= r.value.1
  {
  }

  /** On a list whose counter matches its cells, deleting a middle position loses every element
      from that position on while the counter says only one was removed. */
  lemma DeleteLosesTail<T>(contents: seq<T>, pos: int)
    requires 0 < pos < |contents| - 1
    ensures var r := Deleted(contents, |contents|, pos);
            r.Ok? && r.value.0 == contents[..pos] && r.value.1 == |contents| - 1 && |r.value.0| < r.value.1
  {
  }

  /** `get` returns exactly the element at a position of the chain and throws otherwise. */
  lemma ElementAfterInsertAtHead<T>(contents: seq<T>, value: T, index: int)
    ensures Element([value] + contents, 0) == Ok(value)
    ensures 0 <= index < |contents| ==> Element([value] + contents, index + 1) == Element(contents, index)
    ensures index >= 0 ==> (Element([value] + contents, index + 1).Ok? <==> Element(contents, index).Ok?)
  {
  }

  // ---------------------------------------------------------------- the list

  class HANLinkedList<T> {
    var first: Node?<T>
    var size: int
    ghost var nodes: seq<Node<T>>
    ghost var Contents: seq<T>
    ghost var Repr: set<object>

    ghost predicate Valid()
      reads this, Repr
    {
      this in Repr
      && (forall i :: 0 <= i < |nodes| ==> nodes[i] in Repr)
      && IsChain(first, nodes, Contents)
      && |Contents| <= size
    }

    /** `new HANLinkedList<>()`. */
    constructor ()
      ensures Valid() && fresh(Repr)
      ensures Contents == [] && size == 0
    {
      first := null;
      size := 0;
      nodes := [];
      Contents := [];
      Repr := {this};
    }

    /** `addFirst(value)`: a new head cell; the counter goes up by one. */
    method AddFirst(value: T)
      requires Valid()
      modifies Repr
      ensures Valid() && fresh(Repr - old(Repr))
      ensures Contents == [value] + old(Contents) && size == old(size) + 1
    {
      var n: Node<T>;
      if first == null {
        n := new Node(value);
      } else {
        n := new Node(value);
        n.SetNext(first);
      }
      ChainCons(first, nodes, Contents, n);
      first := n;
      size := size + 1;
      nodes := [n] + nodes;
      Contents := [value] + Contents;
      Repr := Repr + {n};
    }

    /** `clear()`. */
    method Clear()
      requires Valid()
      modifies this
      ensures Valid() && fresh(Repr - old(Repr))
      ensures Contents == [] && size == 0
    {
      first := null;
      size := 0;
      nodes := [];
      Contents := [];
      Repr := {this};
    }

    /** `insert(index, value)`: walks at most `index + 1` cells, stopping at the last one, and
        links the new cell in before the cell it stopped at. */
    method Insert(index: int, value: T) returns (r: Result<()>)
      requires Valid()
      modifies Repr
      ensures Valid() && fresh(Repr - old(Repr))
      ensures var spec := Inserted(old(Contents), old(size), index, value);
              r == Status(spec)
              && (spec.Ok? ==> Contents == spec.value && size == old(size) + 1)
              && (!spec.Ok? ==> Contents == old(Contents) && size == old(size))
    {
      if index > size - 1 {
        return Throws(IndexOutOfBounds);
      }
      if index == 0 {
        AddFirst(value);
        return Ok(());
      }
      var last := first;
      var lastPrev: Node?<T> := null;
      var i := 0;
      while i <= index
        invariant 0 <= i && (index >= 0 ==> i <= index + 1) && (index < 0 ==> i == 0)
        invariant |nodes| == 0 ==> last == null && i == 0
        invariant |nodes| > 0 ==> i < |nodes| && last == nodes[i]
        invariant lastPrev == if i == 0 then null else nodes[i - 1]
        invariant i > 0 ==> i <= |nodes| - 1
        invariant index >= 0 && i > index ==> i == index + 1
        invariant unchanged(old(Repr))
        invariant Valid() && Contents == old(Contents) && size == old(size)
      {
        if last == null {
          return Throws(NullPointer);
        }
        var nx := last.GetNext();
        if nx == null {
          ChainEnd(first, nodes, Contents, i);
          break;
        }
        lastPrev := last;
        last := nx;
        i := i + 1;
      }
      if lastPrev == null {
        return Throws(IllegalState);
      }
      assert i == Min(index + 1, |nodes| - 1);
      LinkBetween(lastPrev, last, i, value);
      return Ok(());
    }

    /** The end of `insert`: a new cell holding `value` between cell `i - 1` and cell `i`. */
    method LinkBetween(lastPrev: Node<T>, last: Node?<T>, ghost i: int, value: T)
      requires Valid() && 0 < i < |nodes| && lastPrev == nodes[i - 1] && last == nodes[i]
      modifies Repr
      ensures Valid() && fresh(Repr - old(Repr))
      ensures Contents == old(Contents)[..i] + [value] + old(Contents)[i..] && size == old(size) + 1
    {
      ghost var ns0, vs0 := nodes, Contents;
      var newNode := new Node(value);
      newNode.SetNext(last);
      lastPrev.SetNext(newNode);
      ChainInsert(first, ns0, vs0, i, newNode);
      size := size + 1;
      nodes := ns0[..i] + [newNode] + ns0[i..];
      Contents := vs0[..i] + [value] + vs0[i..];
      Repr := Repr + {newNode};
    }

    /** `delete(pos)`: for `pos > 0`, walks to cell `pos - 1` and cuts the chain after it. */
    method Delete(pos: int) returns (r: Result<()>)
      requires Valid()
      modifies Repr
      ensures Valid() && fresh(Repr - old(Repr))
      ensures var spec := Deleted(old(Contents), old(size), pos);
              r == Status(spec)
              && (spec.Ok? ==> Contents == spec.value.0 && size == spec.value.1)
              && (!spec.Ok? ==> Contents == old(Contents) && size == old(size))
    {
      if first == null {
        return Ok(());
      }
      if pos > size - 1 {
        return Throws(IndexOutOfBounds);
      }
      if pos == 0 {
        ChainTail(first, nodes, Contents);
        first := first.GetNext();
        size := size - 1;
        nodes := nodes[1..];
        Contents := Contents[1..];
        return Ok(());
      }
      var last := first;
      var i := 0;
      while i <= pos
        invariant 0 <= i && (pos > 0 ==> i <= pos - 1)
        invariant last == if i < |nodes| then nodes[i] else null
        invariant unchanged(old(Repr))
      {
        if i == pos - 1 {
          if last == null {
            return Throws(NullPointer);
          }
          last.SetNext(null);
          size := size - 1;
          nodes := nodes[..pos];
          Contents := Contents[..pos];
          return Ok(());
        }
        if last == null {
          return Throws(NullPointer);
        }
        last := last.GetNext();
        i := i + 1;
      }
      return Ok(());
    }

    /** `get(index)`. */
    method Get(index: int) returns (r: Result<T>)
      requires Valid()
      ensures r == Element(Contents, index)
    {
      if first == null {
        return Throws(IndexOutOfBounds);
      }
      if index > size - 1 {
        return Throws(IndexOutOfBounds);
      }
      var last := first;
      var i := 0;
      while i <= index
        invariant 0 <= i < |nodes| && (index >= 0 ==> i <= index)
        invariant last == nodes[i]
      {
        var nx := last.GetNext();
        if nx == null && i != index {
          ChainEnd(first, nodes, Contents, i);
          break;
        }
        if i == index {
          var d := last.GetData();
          return Ok(d);
        }
        last := nx;
        i := i + 1;
      }
      return Throws(IndexOutOfBounds);
    }

    /** `removeFirst()`. */
    method RemoveFirst() returns (r: Result<()>)
      requires Valid()
      modifies this
      ensures Valid() && Repr == old(Repr)
      ensures old(Contents) == [] ==> r == Throws(IllegalState) && Contents == old(Contents) && size == old(size)
      ensures old(Contents) != [] ==> r == Ok(()) && Contents == old(Contents)[1..] && size == old(size) - 1
    {
      if first == null {
        return Throws(IllegalState);
      }
      ChainTail(first, nodes, Contents);
      first := first.GetNext();
      size := size - 1;
      nodes := nodes[1..];
      Contents := Contents[1..];
      return Ok(());
    }

    /** `getFirst()`: `first.getData()`, which throws on an empty list. */
    method GetFirst() returns (r: Result<T>)
      requires Valid()
      ensures Contents == [] ==> r == Throws(NullPointer)
      ensures Contents != [] ==> r == Ok(Contents[0])
    {
      if first == null {
        return Throws(NullPointer);
      }
      var d := first.GetData();
      return Ok(d);
    }

    /** `getSize()` and `size()`: the counter, which bounds the number of elements. */
    method GetSize() returns (r: int)
      requires Valid()
      ensures r == size && |Contents| <= r
    {
      return size;
    }

    /** `isEmpty()`: the counter is zero, which leaves no element. */
    method IsEmpty() returns (r: bool)
      requires Valid()
      ensures r <==> size == 0
      ensures r ==> Contents == []
    {
      return size == 0;
    }

    /** `iterator()`: an iterator at the head cell. */
    method Iterator() returns (it: LinkedListIterator<T>)
      requires Valid()
      ensures fresh(it) && it.Valid()
      ensures it.Remaining == Contents && it.rest == nodes
    {
      it := new LinkedListIterator(first, nodes, Contents);
    }
  }

  // ---------------------------------------------------------------- the iterator

  class LinkedListIterator<T> {
    var currentNode: Node?<T>
    ghost var rest: seq<Node<T>>
    ghost var Remaining: seq<T>

    ghost predicate Valid()
      reads this, Cells(rest)
    {
      IsChain(currentNode, rest, Remaining)
    }

    /** `new LinkedListIterator<>(currentNode)`, for a node that starts the chain `ns`. */
    constructor (currentNode: Node?<T>, ghost ns: seq<Node<T>>, ghost vs: seq<T>)
      requires IsChain(currentNode, ns, vs)
      ensures Valid() && this.currentNode == currentNode && rest == ns && Remaining == vs
    {
      this.currentNode := currentNode;
      rest := ns;
      Remaining := vs;
    }

    /** `hasNext()`. */
    method HasNext() returns (r: bool)
      requires Valid()
      ensures r == (currentNode != null)
      ensures r <==> Remaining != []
    {
      return currentNode != null;
    }

    /** `next()`: the current value, then one cell on; at the end it throws. */
    method Next() returns (r: Result<T>)
      requires Valid()
      modifies this
      ensures Valid()
      ensures old(Remaining) == [] ==> r == Throws(NullPointer) && Remaining == old(Remaining) && rest == old(rest)
      ensures old(Remaining) != [] ==> r == Ok(old(Remaining)[0]) && Remaining == old(Remaining)[1..] && rest == old(rest)[1..]
    {
      if currentNode == null {
        return Throws(NullPointer);
      }
      ChainTail(currentNode, rest, Remaining);
      var data := currentNode.GetData();
      currentNode := currentNode.GetNext();
      rest := rest[1..];
      Remaining := Remaining[1..];
      return Ok(data);
    }
  }

  /** A for-each loop over the list: `hasNext`/`next` until the end yields the elements from
      head to tail. */
  method Elements<T>(list: HANLinkedList<T>) returns (xs: seq<T>)
    requires list.Valid()
    ensures xs == list.Contents
  {
    var it := list.Iterator();
    ghost var contents := list.Contents;
    xs := [];
    var more := it.HasNext();
    while more
      invariant it.Valid() && fresh(it)
      invariant xs + it.Remaining == contents
      invariant more <==> it.Remaining != []
      decreases |it.Remaining|
    {
      ghost var remaining := it.Remaining;
      var x := it.Next();
      assert remaining == [x.value] + it.Remaining;
      xs := xs + [x.value];
      more := it.HasNext();
    }
  }
}
