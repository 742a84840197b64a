/**
 * `Node<T>`: one cell of the HAN singly linked list, and `IsChain`, which says that a run of
 * cells linked by `next` holds a given sequence of values and ends in `null`.
 */
module LinkedNodes {
  class Node<T> {
    var data: T
    var next: Node?<T>

    /** `new Node<>(key)`: a cell with no successor. */
    constructor (key: T)
      ensures data == key && next == null
    {
      data := key;
      next := null;
    }

    method GetData() returns (r: T)
      ensures r == data
    {
      return data;
    }

    /** `setData`: the successor is left as it is. */
    method SetData(d: T)
      modifies this
      ensures data == d && next == old(next)
    {
      data := d;
    }

    method GetNext() returns (r: Node?<T>)
      ensures r == next
    {
      return next;
    }

    /** `setNext`: the value is left as it is. */
    method SetNext(n: Node?<T>)
      modifies this
      ensures next == n && data == old(data)
    {
      next := n;
    }
  }

  /** The cells read by `IsChain`. */
  ghost function Cells<T>(ns: seq<Node<T>>): set<object> {
    set i | 0 <= i < |ns| :: ns[i]
  }

  /**
   * Starting at `head`, following `next` visits exactly the distinct cells `ns`, in order, and
   * then reaches `null`; cell `i` holds `vs[i]`.
   */
  ghost predicate IsChain<T>(head: Node?<T>, ns: seq<Node<T>>, vs: seq<T>)
    reads Cells(ns)
  {
    |ns| == |vs|
    && (if |ns| == 0 then head == null else head == ns[0] && ns[|ns| - 1].next == null)
    && (forall i :: 0 <= i < |ns| - 1 ==> ns[i].next == ns[i + 1])
    && (forall i :: 0 <= i < |ns| ==> ns[i].data == vs[i])
    && (forall i, j :: 0 <= i < j < |ns| ==> ns[i] != ns[j])
  }

  /** The rest of a chain after its first cell is the chain from that cell's successor. */
  lemma ChainTail<T>(head: Node?<T>, ns: seq<Node<T>>, vs: seq<T>)
    requires IsChain(head, ns, vs) && |ns| > 0
    ensures IsChain(ns[0].next, ns[1..], vs[1..])
  {
    if |ns| > 1 {
      assert ns[0].next == ns[1];
    }
  }

  /** Only the last cell of a chain has no successor. */
  lemma ChainEnd<T>(head: Node?<T>, ns: seq<Node<T>>, vs: seq<T>, i: int)
    requires IsChain(head, ns, vs) && 0 <= i < |ns| && ns[i].next == null
    ensures i == |ns| - 1
  {
    if i < |ns| - 1 {
      ChainSuccessor(head, ns, vs, i);
      assert false;
    }
  }

  lemma ChainSuccessor<T>(head: Node?<T>, ns: seq<Node<T>>, vs: seq<T>, i: int)
    requires IsChain(head, ns, vs) && 0 <= i < |ns| - 1
    ensures ns[i].next == ns[i + 1]
  {
  }

  /** Linking a cell that is not yet in the chain between cells `i - 1` and `i` gives a chain
      with that cell's value at position `i`. */
  lemma ChainInsert<T>(head: Node?<T>, ns: seq<Node<T>>, vs: seq<T>, i: int, n: Node<T>)
    requires |ns| == |vs| && 0 < i < |ns| && head == ns[0] && ns[|ns| - 1].next == null
    requires forall k :: 0 <= k < |ns| - 1 && k != i - 1 ==> ns[k].next == ns[k + 1]
    requires forall k :: 0 <= k < |ns| ==> ns[k].data == vs[k]
    requires forall a, b :: 0 <= a < b < |ns| ==> ns[a] != ns[b]
    requires ns[i - 1].next == n && n.next == ns[i] && n !in ns
    ensures IsChain(head, ns[..i] + [n] + ns[i..], vs[..i] + [n.data] + vs[i..])
  {
    var ms := ns[..i] + [n] + ns[i..];
    var ws := vs[..i] + [n.data] + vs[i..];
    forall k | 0 <= k < |ms| - 1
      ensures ms[k].next == ms[k + 1]
    {
      if k < i - 1 {
        assert ms[k] == ns[k] && ms[k + 1] == ns[k + 1];
      } else if k > i {
        assert ms[k] == ns[k - 1] && ms[k + 1] == ns[k];
      }
    }
    forall k | 0 <= k < |ms|
      ensures ms[k].data == ws[k]
    {
      if k < i {
        assert ms[k] == ns[k] && ws[k] == vs[k];
      } else if k > i {
        assert ms[k] == ns[k - 1] && ws[k] == vs[k - 1];
      }
    }
    forall a, b | 0 <= a < b < |ms|
      ensures ms[a] != ms[b]
    {
      var a0 := if a < i then a else a - 1;
      var b0 := if b < i then b else b - 1;
      if a != i && b != i {
        assert ms[a] == ns[a0] && ms[b] == ns[b0];
      } else if a == i {
        assert ms[b] == ns[b0];
      } else {
        assert ms[a] == ns[a0];
      }
    }
  }

  /** A cell that is not in a chain and links to its head starts a longer chain. */
  lemma ChainCons<T>(head: Node?<T>, ns: seq<Node<T>>, vs: seq<T>, n: Node<T>)
    requires IsChain(head, ns, vs) && n !in ns && n.next == head
    ensures IsChain(n, [n] + ns, [n.data] + vs)
  {
    var ms := [n] + ns;
    forall k | 0 <= k < |ms| - 1
      ensures ms[k].next == ms[k + 1]
    {
      if k > 0 {
        assert ms[k] == ns[k - 1] && ms[k + 1] == ns[k];
      }
    }
    forall a, b | 0 <= a < b < |ms|
      ensures ms[a] != ms[b]
    {
      if a > 0 {
        assert ms[a] == ns[a - 1] && ms[b] == ns[b - 1];
      } else {
        assert ms[b] == ns[b - 1];
      }
    }
  }
}
