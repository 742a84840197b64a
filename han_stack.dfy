/**
 * `HANStack<T>`: a stack over a `HANLinkedList<T>`, whose head is the top. Every change goes
 * through `addFirst` and `removeFirst`, so the list's counter always equals its number of
 * elements here.
 */
module HanStacks {
  import opened JavaLang
  import opened HanLinkedLists

  /** The stack contents, top first, after pushing `xs` in order onto `s`. */
  function PushAll<T>(s: seq<T>, xs: seq<T>): seq<T> {
    if |xs| == 0 then s else [xs[|xs| - 1]] + PushAll(s, xs[..|xs| - 1])
  }

  function Reverse<T>(xs: seq<T>): (r: seq<T>)
    ensures |r| == |xs|
    ensures forall i :: 0 <= i < |xs| ==> r[i] == xs[|xs| - 1 - i]
  {
    if |xs| == 0 then [] else [xs[|xs| - 1]] + Reverse(xs[..|xs| - 1])
  }

  /** Pushed values come off in reverse order of pushing, above what was there before. */
  lemma {:induction false} PopsReversePushes<T>(s: seq<T>, xs: seq<T>)
    ensures PushAll(s, xs) == Reverse(xs) + s
  {
    if |xs| > 0 {
      PopsReversePushes(s, xs[..|xs| - 1]);
    }
  }

  class HANStack<T> {
    var list: HANLinkedList<T>
    ghost var Contents: seq<T>
    ghost var Repr: set<object>

    ghost predicate Valid()
      reads this, Repr
    {
      this in Repr && list in Repr && list.Repr <= Repr && this !in list.Repr
      && list.Valid() && Contents == list.Contents && list.size == |list.Contents|
    }

    /** `new HANStack<>()`. */
    constructor ()
      ensures Valid() && fresh(Repr) && Contents == []
    {
      list := new HANLinkedList();
      Contents := [];
      new;
      Repr := {this} + list.Repr;
    }

    /** `push(element)`: `addFirst` on the list. */
    method Push(element: T)
      requires Valid()
      modifies Repr
      ensures Valid() && fresh(Repr - old(Repr))
      ensures Contents == [element] + old(Contents)
    {
      list.AddFirst(element);
      Contents := list.Contents;
      Repr := Repr + list.Repr;
    }

    /** `pop()`: `getFirst`, which throws on an empty stack, then `removeFirst`. */
    method Pop() returns (r: Result<T>)
      requires Valid()
      modifies Repr
      ensures Valid() && Repr == old(Repr)
      ensures old(Contents) == [] ==> r == Throws(NullPointer) && Contents == old(Contents)
      ensures old(Contents) != [] ==> r == Ok(old(Contents)[0]) && Contents == old(Contents)[1..]
    {
      var temp := list.GetFirst();
      if !temp.Ok? {
        return temp;
      }
      var _ := list.RemoveFirst();
      Contents := list.Contents;
      return temp;
    }

    /** `peek()`: `getFirst`, which throws on an empty stack. */
    method Peek() returns (r: Result<T>)
      requires Valid()
      ensures Contents == [] ==> r == Throws(NullPointer)
      ensures Contents != [] ==> r == Ok(Contents[0])
    {
      r := list.GetFirst();
    }

    /** `empty()`: the list's counter is zero. */
    method Empty() returns (r: bool)
      requires Valid()
      ensures r <==> list.size == 0
      ensures r <==> Contents == []
    {
      var n := list.GetSize();
      return n == 0;
    }
  }

  /** A push followed by a pop gives back the pushed value and the earlier contents. */
  method PushThenPop<T>(stack: HANStack<T>, x: T) returns (r: Result<T>)
    requires stack.Valid()
    modifies stack.Repr
    ensures stack.Valid() && r == Ok(x) && stack.Contents == old(stack.Contents)
  {
    stack.Push(x);
    r := stack.Pop();
  }
}
