/**
 * LinkedList: a singly-linked list with array-like indexed access.  Its
 * scenarios observe no position cache, so none is modelled: every indexed
 * operation walks from the head.
 */
module LinkedLists {
  import opened Wrappers
  import opened Sequences
  import opened Nodes

  class LinkedList<T> {
    var head: Node?<T>
    var tail: Node?<T>
    var length: nat
    var isInitialized: bool

    /** The cells from head to tail. */
    ghost var nodes: seq<Node<T>>
    /** The values from head to tail: what iteration and `toArray` produce. */
    ghost var Contents: seq<T>
    ghost var Repr: set<object>

    /**
     * The representation invariant of a state given field by field: the
     * cells form a chain from `head` to `tail` holding `contents`, `length`
     * counts them, and the list is initialized exactly when it is non-empty.
     * `Valid()` is this invariant of the current fields.
     */
    ghost predicate WellFormed(head: Node?<T>, tail: Node?<T>, length: nat, isInitialized: bool,
                               nodes: seq<Node<T>>, contents: seq<T>, repr: set<object>)
      reads repr
    {
      && this in repr
      && (forall i :: 0 <= i < |nodes| ==> nodes[i] in repr)
      && IsChain(nodes, contents, head, tail)
      && length == |nodes|
      && (length == 0 <==> !isInitialized)
    }

    ghost predicate Valid()
      reads this, Repr
      ensures Valid() ==> this in Repr
    {
      WellFormed(head, tail, length, isInitialized, nodes, Contents, Repr)
    }

    /** A new, uninitialized, empty list. */
    constructor ()
      ensures Valid() && fresh(Repr)
      ensures Contents == []
      ensures head == null && tail == null && length == 0 && !isInitialized
    {
      head, tail, length, isInitialized := null, null, 0, false;
      nodes, Contents := [], [];
      Repr := {this};
    }

    /**
     * The shape of a valid list: it is empty exactly when it has no head,
     * exactly when it has no tail, and exactly when it is not initialized.
     */
    lemma EmptyShape()
      requires Valid()
      ensures length == |Contents|
      ensures length == 0 <==> head == null
      ensures length == 0 <==> tail == null
      ensures length == 0 <==> !isInitialized
    {
    }

    /** Walks `i` links from the head. */
    method Walk(i: int) returns (n: Node<T>)
      requires Valid() && 0 <= i < length
      ensures n == nodes[i] && n.value == Contents[i]
    {
      n := head;
      var j := 0;
      while j < i
        invariant 0 <= j <= i
        invariant n == nodes[j]
      {
        n := n.next;
        j := j + 1;
      }
    }

    /** `get(i)` and `lst[i]`: the value at `i`, or `None` (the source's `null`) for any index outside `[0, length)`. */
    method Get(i: int) returns (r: Option<T>)
      requires Valid()
      ensures r == if 0 <= i < |Contents| then Some(Contents[i]) else None
    {
      if 0 <= i < length {
        var n := Walk(i);
        r := Some(n.value);
      } else {
        r := None;
      }
    }

    /**
     * Installs a whole new, well-formed list state at once.  The structural
     * operations relink the cells first and commit the new fields in one step.
     */
    method Commit(head: Node?<T>, tail: Node?<T>, length: nat, isInitialized: bool,
                  ghost nodes: seq<Node<T>>, ghost contents: seq<T>, ghost repr: set<object>)
      requires WellFormed(head, tail, length, isInitialized, nodes, contents, repr)
      modifies this
      ensures Valid()
      ensures this.head == head && this.tail == tail && this.length == length && this.isInitialized == isInitialized
      ensures this.nodes == nodes && this.Contents == contents && this.Repr == repr
    {
      this.head, this.tail, this.length, this.isInitialized := head, tail, length, isInitialized;
      this.nodes, this.Contents, this.Repr := nodes, contents, repr;
    }

    /** Overwrites the value of node `n`, which sits at position `i`. */
    method Overwrite(i: int, n: Node<T>, v: T)
      requires Valid() && 0 <= i < length && n == nodes[i]
      modifies Repr
      ensures Valid() && Repr == old(Repr) && nodes == old(nodes)
      ensures Contents == old(Contents)[i := v]
      ensures head == old(head) && tail == old(tail) && length == old(length)
      ensures isInitialized == old(isInitialized)
    {
      DistinctAt(nodes, i);
      n.value := v;
      Contents := Contents[i := v];
    }

    /**
     * `set(i, v)` and `lst[i] = v`: overwrites the value at `i` and returns the
     * list itself, or returns `null` and changes nothing when `i` is out of range.
     */
    method Set(i: int, v: T) returns (r: LinkedList?<T>)
      requires Valid()
      modifies Repr
      ensures Valid() && Repr == old(Repr)
      ensures r == if 0 <= i < old(|Contents|) then this else null
      ensures Contents == if 0 <= i < old(|Contents|) then old(Contents)[i := v] else old(Contents)
      ensures head == old(head) && tail == old(tail) && length == old(length) && isInitialized == old(isInitialized)
    {
      if 0 <= i < length {
        var n := Walk(i);
        Overwrite(i, n, v);
        r := this;
      } else {
        r := null;
      }
    }

    /** `push(v)`: appends `v` at the tail and returns the list, so that calls chain. */
    method Push(v: T) returns (r: LinkedList<T>)
      requires Valid()
      modifies Repr
      ensures Valid() && fresh(Repr - old(Repr))
      ensures Contents == old(Contents) + [v]
      ensures isInitialized && r == this
    {
      var n := new Node(v, null);
      if tail == null {
        ChainCons(nodes, Contents, head, tail, n);
        Commit(n, n, 1, true, [n], [v], Repr + {n});
      } else {
        var last := length - 1;
        DistinctAt(nodes, last);
        tail.next := n;
        ChainInsert(nodes, Contents, head, tail, last, n);
        AppendIsInsertAfterLast(nodes, n);
        AppendIsInsertAfterLast(Contents, v);
        Commit(head, n, length + 1, true, nodes + [n], Contents + [v], Repr + {n});
      }
      r := this;
    }

    /** `pushHead(v)`: prepends `v` and returns the list. */
    method PushHead(v: T) returns (r: LinkedList<T>)
      requires Valid()
      modifies Repr
      ensures Valid() && fresh(Repr - old(Repr))
      ensures Contents == [v] + old(Contents)
      ensures isInitialized && r == this
    {
      var n := new Node(v, head);
      ChainCons(nodes, Contents, head, tail, n);
      Commit(n, if tail == null then n else tail, length + 1, true, [n] + nodes, [v] + Contents, Repr + {n});
      r := this;
    }

    /** Unlinks the head node.  Removing the last element returns the list to the uninitialized empty state. */
    method UnlinkHead()
      requires Valid() && 0 < length
      modifies Repr
      ensures Valid() && Repr == old(Repr)
      ensures Contents == RemoveAt(old(Contents), 0)
    {
      var gone := head;
      var empty := length == 1;
      ChainRemove(nodes, Contents, head, tail, 0);
      Commit(gone.next, if empty then null else tail, length - 1, !empty,
        RemoveAt(nodes, 0), RemoveAt(Contents, 0), Repr);
    }

    /** Unlinks the node after `prev`, which sits at position `k - 1`. */
    method UnlinkAfter(k: int, prev: Node<T>)
      requires Valid() && 0 < k < length && prev == nodes[k - 1]
      modifies Repr
      ensures Valid() && Repr == old(Repr)
      ensures Contents == RemoveAt(old(Contents), k)
    {
      var gone := prev.next;
      DistinctAt(nodes, k - 1);
      prev.next := gone.next;
      ChainRemove(nodes, Contents, head, tail, k);
      Commit(head, if gone == tail then prev else tail, length - 1, isInitialized,
        RemoveAt(nodes, k), RemoveAt(Contents, k), Repr);
    }

    /**
     * `remove(k)` and `delete lst[k]`: unlinks the element at `k`; out of range
     * it does nothing.  Removing the last element returns the list to its
     * uninitialized empty state.
     */
    method Remove(k: int)
      requires Valid()
      modifies Repr
      ensures Valid() && Repr <= old(Repr)
      ensures Contents == if 0 <= k < old(|Contents|) then RemoveAt(old(Contents), k) else old(Contents)
    {
      if !(0 <= k < length) {
        return;
      }
      if k == 0 {
        UnlinkHead();
      } else {
        var prev := Walk(k - 1);
        UnlinkAfter(k, prev);
      }
    }

    /** `first`: the head value, or `None` exactly when the list is empty. */
    method First() returns (r: Option<T>)
      requires Valid()
      ensures r == if Contents == [] then None else Some(Contents[0])
    {
      if head == null {
        r := None;
      } else {
        r := Some(head.value);
      }
    }

    /** `toArray()` (and iteration): the values from head to tail, `length` of them. */
    method ToArray() returns (a: seq<T>)
      requires Valid()
      ensures a == Contents && |a| == length
    {
      a := [];
      var cur := head;
      while cur != null
        invariant |a| <= |nodes|
        invariant a == Contents[..|a|]
        invariant cur == if |a| < |nodes| then nodes[|a|] else null
        decreases |nodes| - |a|
      {
        a := a + [cur.value];
        cur := cur.next;
      }
    }
  }
}
