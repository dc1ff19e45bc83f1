/**
 * The heap cell both list classes are built from, and the shape predicate
 * that ties a chain of cells to the sequence of values it holds.
 */
module Nodes {
  import Sequences

  /** A list cell: a value and the forward link to the next cell (`null` at the tail). */
  class Node<T> {
    var value: T
    var next: Node?<T>

    constructor (value: T, next: Node?<T>)
      ensures this.value == value && this.next == next
    {
      this.value := value;
      this.next := next;
    }
  }

  /** The cell that follows position `i` of a chain: the next one, or `null` after the last. */
  function Succ<T>(nodes: seq<Node<T>>, i: int): Node?<T>
    requires 0 <= i < |nodes|
  {
    if i + 1 < |nodes| then nodes[i + 1] else null
  }

  /** Positions `i` and `j` of `nodes` hold different cells. */
  ghost predicate Apart<T>(nodes: seq<Node<T>>, i: int, j: int)
    requires 0 <= i < |nodes| && 0 <= j < |nodes|
  {
    nodes[i] != nodes[j]
  }

  /**
   * No cell occurs twice in `nodes`.  The quantifier fires only on an
   * explicit `Apart` term, so that the solver does not compare every pair
   * of cells it sees; `DistinctAt` hands out the comparisons with one cell.
   */
  ghost predicate Distinct<T>(nodes: seq<Node<T>>)
  {
    forall i, j {:trigger Apart(nodes, i, j)} :: 0 <= i < j < |nodes| ==> Apart(nodes, i, j)
  }

  /** In a distinct sequence, cell `k` differs from the cell at every other position. */
  lemma DistinctAt<T>(nodes: seq<Node<T>>, k: int)
    requires Distinct(nodes) && 0 <= k < |nodes|
    ensures forall i :: 0 <= i < |nodes| && i != k ==> nodes[i] != nodes[k]
  {
    forall i | 0 <= i < |nodes| && i != k
      ensures nodes[i] != nodes[k]
    {
      if i < k {
        assert Apart(nodes, i, k);
      } else {
        assert Apart(nodes, k, i);
      }
    }
  }

  /**
   * `nodes` is a null-terminated chain of pairwise distinct cells, entered at
   * `head` and ending at `tail`, whose values read `contents` from head to
   * tail.  An empty chain has neither head nor tail.
   */
  ghost predicate IsChain<T>(nodes: seq<Node<T>>, contents: seq<T>, head: Node?<T>, tail: Node?<T>)
    reads nodes
  {
    && |nodes| == |contents|
    && head == HeadOf(nodes) && tail == LastOf(nodes)
    && (forall i {:trigger nodes[i].value} :: 0 <= i < |nodes| ==> nodes[i].value == contents[i])
    && (forall i {:trigger nodes[i].next} :: 0 <= i < |nodes| ==> nodes[i].next == Succ(nodes, i))
    && Distinct(nodes)
  }

  /** Putting a fresh cell whose link is the old head in front of a chain gives a chain. */
  lemma ChainCons<T>(nodes: seq<Node<T>>, contents: seq<T>, head: Node?<T>, tail: Node?<T>, n: Node<T>)
    requires IsChain(nodes, contents, head, tail)
    requires n !in nodes && n.next == head
    ensures IsChain([n] + nodes, [n.value] + contents, n, if tail == null then n else tail)
  {
    var nodes', contents' := [n] + nodes, [n.value] + contents;
    forall i | 0 <= i < |nodes'|
      ensures nodes'[i].value == contents'[i] && nodes'[i].next == Succ(nodes', i)
    {
      if i > 0 {
        assert nodes'[i] == nodes[i - 1];
      }
    }
    forall i, j | 0 <= i < j < |nodes'|
      ensures Apart(nodes', i, j)
    {
      if i > 0 {
        assert Apart(nodes, i - 1, j - 1);
      }
    }
  }

  /** The entry cell of a chain laid out as `nodes`. */
  function HeadOf<T>(nodes: seq<Node<T>>): Node?<T>
  {
    if |nodes| == 0 then null else nodes[0]
  }

  /** The last cell of a chain laid out as `nodes`. */
  function LastOf<T>(nodes: seq<Node<T>>): Node?<T>
  {
    if |nodes| == 0 then null else nodes[|nodes| - 1]
  }

  /**
   * Cell `k` of a chain now links to a fresh cell `m`, which links to cell
   * `k`'s old successor, and no other link or value differs: the cells,
   * with `m` spliced in after position `k`, form a chain again.
   */
  lemma ChainInsert<T>(nodes: seq<Node<T>>, contents: seq<T>, head: Node?<T>, tail: Node?<T>, k: int, m: Node<T>)
    requires 0 <= k < |nodes| == |contents| && m !in nodes && Distinct(nodes)
    requires head == HeadOf(nodes) && tail == LastOf(nodes)
    requires forall i :: 0 <= i < |nodes| ==> nodes[i].value == contents[i]
    requires forall i :: 0 <= i < |nodes| && i != k ==> nodes[i].next == Succ(nodes, i)
    requires nodes[k].next == m && m.next == Succ(nodes, k)
    ensures IsChain(Sequences.InsertAfter(nodes, k, m), Sequences.InsertAfter(contents, k, m.value),
      head, if tail == nodes[k] then m else tail)
  {
    var nodes', contents' := Sequences.InsertAfter(nodes, k, m), Sequences.InsertAfter(contents, k, m.value);
    forall i | 0 <= i < |nodes'|
      ensures nodes'[i].value == contents'[i] && nodes'[i].next == Succ(nodes', i)
    {
      if i <= k {
        assert nodes'[i] == nodes[i];
        if i < k {
          assert nodes'[i + 1] == nodes[i + 1];
        }
      } else if k + 1 < i {
        assert nodes'[i] == nodes[i - 1];
        if i + 1 < |nodes'| {
          assert nodes'[i + 1] == nodes[i];
        }
      } else if i + 1 < |nodes'| {
        assert nodes'[i + 1] == nodes[k + 1];
      }
    }
    forall i, j | 0 <= i < j < |nodes'|
      ensures Apart(nodes', i, j)
    {
      if i != k + 1 && j != k + 1 {
        var i0, j0 := if i <= k then i else i - 1, if j <= k then j else j - 1;
        assert nodes'[i] == nodes[i0] && nodes'[j] == nodes[j0];
        assert Apart(nodes, i0, j0);
      } else if i == k + 1 {
        assert nodes'[j] == nodes[j - 1];
      } else {
        assert nodes'[i] == nodes[i];
      }
    }
  }

  /**
   * The predecessor of cell `k` (if there is one) now links to cell `k`'s
   * successor, and no other link or value differs: the cells without cell
   * `k` form a chain again, entered at the old successor of cell `k` when
   * `k` was the head, and ending at the predecessor when `k` was the tail.
   */
  lemma ChainRemove<T>(nodes: seq<Node<T>>, contents: seq<T>, head: Node?<T>, tail: Node?<T>, k: int)
    requires 0 <= k < |nodes| == |contents| && Distinct(nodes)
    requires head == HeadOf(nodes) && tail == LastOf(nodes)
    requires forall i :: 0 <= i < |nodes| ==> nodes[i].value == contents[i]
    requires forall i :: 0 <= i < |nodes| && i != k - 1 ==> nodes[i].next == Succ(nodes, i)
    requires 0 < k ==> nodes[k - 1].next == Succ(nodes, k)
    ensures IsChain(Sequences.RemoveAt(nodes, k), Sequences.RemoveAt(contents, k),
      if k == 0 then Succ(nodes, 0) else head,
      if nodes[k] == tail then (if k == 0 then null else nodes[k - 1]) else tail)
  {
    var nodes', contents' := Sequences.RemoveAt(nodes, k), Sequences.RemoveAt(contents, k);
    forall i | 0 <= i < |nodes'|
      ensures nodes'[i].value == contents'[i] && nodes'[i].next == Succ(nodes', i)
    {
      if i < k {
        assert nodes'[i] == nodes[i];
        if i + 1 < |nodes'| {
          assert nodes'[i + 1] == if i + 1 < k then nodes[i + 1] else nodes[i + 2];
        }
      } else {
        assert nodes'[i] == nodes[i + 1];
        if i + 1 < |nodes'| {
          assert nodes'[i + 1] == nodes[i + 2];
        }
      }
    }
    forall i, j | 0 <= i < j < |nodes'|
      ensures Apart(nodes', i, j)
    {
      var i0, j0 := if i < k then i else i + 1, if j < k then j else j + 1;
      assert nodes'[i] == nodes[i0] && nodes'[j] == nodes[j0];
      assert Apart(nodes, i0, j0);
    }
    if k < |nodes| - 1 {
      assert Apart(nodes, k, |nodes| - 1);
    }
  }
}
