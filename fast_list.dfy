/**
 * FastList: a singly-linked list with array-like indexed access, accelerated
 * by a bounded position cache (index -> node).  The cache is a pure
 * accelerator: `Valid()` demands that every entry names the node that is
 * currently at its index, so a cache hit reads exactly what a walk from the
 * head would read.
 */
module FastLists {
  import opened Wrappers
  import opened Sequences
  import opened Nodes

  /** The entries of `cache` at positions up to and including `k`. */
  function UpTo<V>(cache: map<int, V>, k: int): (r: map<int, V>)
    ensures forall key :: key in r <==> key in cache && key <= k
    ensures forall key :: key in r ==> r[key] == cache[key]
    ensures |r| <= |cache|
  {
    var r := map key | key in cache && key <= k :: cache[key];
    assert r.Keys <= cache.Keys;
    SubsetCard(r.Keys, cache.Keys);
    r
  }

  /**
   * The position-cache invariant: at most `capacity` entries, each naming
   * the element now at its position of `s`.
   */
  ghost predicate Coherent<V>(cache: map<int, V>, s: seq<V>, capacity: nat)
  {
    && |cache| <= capacity
    && forall key :: key in cache ==> 0 <= key < |s| && cache[key] == s[key]
  }

  /**
   * Dropping the entries after `k` keeps a cache coherent with any `s'`
   * that agrees with `s` up to position `k`.
   */
  lemma CoherentUpTo<V>(cache: map<int, V>, s: seq<V>, s': seq<V>, k: int, capacity: nat)
    requires Coherent(cache, s, capacity)
    requires k < |s'| && forall i :: 0 <= i <= k && i < |s| ==> s'[i] == s[i]
    ensures Coherent(UpTo(cache, k), s', capacity)
  {
  }

  lemma SubsetCard<K>(a: set<K>, b: set<K>)
    requires a <= b
    ensures |a| <= |b|
  {
    assert b == a + (b - a);
  }

  class FastList<T> {
    var head: Node?<T>
    var tail: Node?<T>
    var length: nat
    var isInitialized: bool
    /** The position cache; its eviction order (least recently used) is not modelled. */
    var cache: map<int, Node<T>>
    /** Capacity of the position cache. */
    const capacity: nat

    /** The cells from head to tail. */
    ghost var nodes: seq<Node<T>>
    /** The values from head to tail: what iteration and `toArray` produce. */
    ghost var Contents: seq<T>
    ghost var Repr: set<object>

    /**
     * The representation invariant of a state given field by field: the
     * cells form a chain from `head` to `tail` holding `contents`, `length`
     * counts them, the list is initialized exactly when it is non-empty, and
     * the cache is coherent.  `Valid()` is this invariant of the current fields.
     */
    ghost predicate WellFormed(head: Node?<T>, tail: Node?<T>, length: nat, isInitialized: bool,
                               nodes: seq<Node<T>>, contents: seq<T>, repr: set<object>, cache: map<int, Node<T>>)
      reads repr
    {
      && this in repr
      && (forall i :: 0 <= i < |nodes| ==> nodes[i] in repr)
      && IsChain(nodes, contents, head, tail)
      && length == |nodes|
      && (length == 0 <==> !isInitialized)
      && Coherent(cache, nodes, capacity)
    }

    ghost predicate Valid()
      reads this, Repr
      ensures Valid() ==> this in Repr
    {
      WellFormed(head, tail, length, isInitialized, nodes, Contents, Repr, cache)
    }

    /** A new, uninitialized, empty list. */
    constructor (capacity: nat)
      ensures Valid() && fresh(Repr)
      ensures Contents == [] && cache == map[] && this.capacity == capacity
      ensures head == null && tail == null && length == 0 && !isInitialized
    {
      head, tail, length, isInitialized := null, null, 0, false;
      cache := map[];
      this.capacity := capacity;
      nodes, Contents := [], [];
      Repr := {this};
    }

    /**
     * The shape of a valid list: it is empty exactly when it has no head,
     * exactly when it has no tail, and exactly when it is not initialized.
     */
    lemma EmptyShape()
      requires Valid()
      ensures length == |Contents|
      ensures length == 0 <==> head == null
      ensures length == 0 <==> tail == null
      ensures length == 0 <==> !isInitialized
    {
    }

    /** A cache hit is observationally transparent: the cached node holds the value at that index. */
    lemma CacheHit(k: int)
      requires Valid() && k in cache
      ensures 0 <= k < |Contents| && cache[k].value == Contents[k]
    {
    }

    /** Walks `i` links from the head, without consulting the cache. */
    method Walk(i: int) returns (n: Node<T>)
      requires Valid() && 0 <= i < length
      ensures n == nodes[i] && n.value == Contents[i]
    {
      n := head;
      var j := 0;
      while j < i
        invariant 0 <= j <= i
        invariant n == nodes[j]
      {
        n := n.next;
        j := j + 1;
      }
    }

    /** Records `i -> n` in the cache, evicting some other entry if the cache is full. */
    method Record(i: int, n: Node<T>)
      requires Valid() && 0 <= i < length && n == nodes[i]
      modifies this`cache
      ensures Valid()
      ensures capacity > 0 ==> i in cache
      ensures i in old(cache) ==> cache == old(cache)
      ensures cache.Keys <= old(cache.Keys) + {i}
    {
      if i !in cache && |cache| >= capacity {
        if capacity == 0 {
          return;
        }
        if forall key :: key !in cache {
          assert false;
        }
        var victim :| victim in cache;
        cache := cache - {victim};
      }
      cache := cache[i := n];
    }

    /**
     * Resolves an in-range index to its node: an exact cache hit is answered
     * from the cache, otherwise the node is found by a walk from the head.
     */
    method Find(i: int) returns (n: Node<T>)
      requires Valid() && 0 <= i < length
      ensures n == nodes[i] && n.value == Contents[i]
    {
      if i in cache {
        n := cache[i];
      } else {
        n := Walk(i);
      }
    }

    /** Resolution as `get` performs it: `Find`, then record the position found. */
    method Locate(i: int) returns (n: Node<T>)
      requires Valid() && 0 <= i < length
      modifies this`cache
      ensures Valid()
      ensures n == nodes[i] && n.value == Contents[i]
      ensures capacity > 0 ==> i in cache
      ensures i in old(cache) ==> cache == old(cache)
      ensures cache.Keys <= old(cache.Keys) + {i}
    {
      n := Find(i);
      Record(i, n);
    }

    /** `get(i)`: the value at `i`, or `None` (the source's `null`) for any index outside `[0, length)`. */
    method Get(i: int) returns (r: Option<T>)
      requires Valid()
      modifies this`cache
      ensures Valid()
      ensures r == if 0 <= i < |Contents| then Some(Contents[i]) else None
      ensures 0 <= i < |Contents| && capacity > 0 ==> i in cache
      ensures i in old(cache) || !(0 <= i < |Contents|) ==> cache == old(cache)
      ensures cache.Keys <= old(cache.Keys) + {i}
    {
      if 0 <= i < length {
        var n := Locate(i);
        r := Some(n.value);
      } else {
        r := None;
      }
    }

    /**
     * Installs a whole new, well-formed list state at once.  The structural
     * operations relink the cells first and commit the new fields in one step.
     */
    method Commit(head: Node?<T>, tail: Node?<T>, length: nat, isInitialized: bool,
                  ghost nodes: seq<Node<T>>, ghost contents: seq<T>, ghost repr: set<object>, cache: map<int, Node<T>>)
      requires WellFormed(head, tail, length, isInitialized, nodes, contents, repr, cache)
      modifies this
      ensures Valid()
      ensures this.head == head && this.tail == tail && this.length == length && this.isInitialized == isInitialized
      ensures this.nodes == nodes && this.Contents == contents && this.Repr == repr && this.cache == cache
    {
      this.head, this.tail, this.length, this.isInitialized := head, tail, length, isInitialized;
      this.nodes, this.Contents, this.Repr, this.cache := nodes, contents, repr, cache;
    }

    /** Overwrites the value of node `n`, which sits at position `i`; the cache is untouched. */
    method Overwrite(i: int, n: Node<T>, v: T)
      requires Valid() && 0 <= i < length && n == nodes[i]
      modifies Repr
      ensures Valid() && Repr == old(Repr) && nodes == old(nodes)
      ensures Contents == old(Contents)[i := v]
      ensures head == old(head) && tail == old(tail) && length == old(length)
      ensures isInitialized == old(isInitialized) && cache == old(cache)
    {
      DistinctAt(nodes, i);
      n.value := v;
      Contents := Contents[i := v];
    }

    /**
     * `set(i, v)`: overwrites the value at `i` and returns the list itself, or
     * returns `null` and changes nothing when `i` is out of range.  The node
     * at `i` keeps its identity, so every cache entry stays valid.
     */
    method Set(i: int, v: T) returns (r: FastList?<T>)
      requires Valid()
      modifies Repr
      ensures Valid() && Repr == old(Repr)
      ensures r == if 0 <= i < old(|Contents|) then this else null
      ensures Contents == if 0 <= i < old(|Contents|) then old(Contents)[i := v] else old(Contents)
      ensures head == old(head) && tail == old(tail) && length == old(length) && isInitialized == old(isInitialized)
      ensures !(0 <= i < old(|Contents|)) ==> cache == old(cache)
      ensures cache.Keys <= old(cache.Keys) + {i}
    {
      if 0 <= i < length {
        var n := Locate(i);
        Overwrite(i, n, v);
        r := this;
      } else {
        r := null;
      }
    }

    /**
     * `push(v)`: appends `v` at the tail and returns the list, so that calls
     * chain; cached positions stay valid and are kept.
     */
    method Push(v: T) returns (r: FastList<T>)
      requires Valid()
      modifies Repr
      ensures Valid() && fresh(Repr - old(Repr))
      ensures Contents == old(Contents) + [v]
      ensures isInitialized && cache == old(cache) && r == this
    {
      var n := new Node(v, null);
      if tail == null {
        ChainCons(nodes, Contents, head, tail, n);
        Commit(n, n, 1, true, [n], [v], Repr + {n}, cache);
      } else {
        var last := length - 1;
        DistinctAt(nodes, last);
        tail.next := n;
        ChainInsert(nodes, Contents, head, tail, last, n);
        AppendIsInsertAfterLast(nodes, n);
        AppendIsInsertAfterLast(Contents, v);
        Commit(head, n, length + 1, true, nodes + [n], Contents + [v], Repr + {n}, cache);
      }
      r := this;
    }

    /** `pushHead(v)`: prepends `v` and returns the list; every position shifts up by one, so the cache is emptied. */
    method PushHead(v: T) returns (r: FastList<T>)
      requires Valid()
      modifies Repr
      ensures Valid() && fresh(Repr - old(Repr))
      ensures Contents == [v] + old(Contents)
      ensures isInitialized && cache == map[] && r == this
    {
      var n := new Node(v, head);
      ChainCons(nodes, Contents, head, tail, n);
      Commit(n, if tail == null then n else tail, length + 1, true, [n] + nodes, [v] + Contents, Repr + {n}, map[]);
      r := this;
    }

    /**
     * Splices a new node holding `v` in after node `n`, which sits at
     * position `k`.  Cache entries after `k` are dropped, since they shift.
     */
    method SpliceAfter(k: int, n: Node<T>, v: T) returns (m: Node<T>)
      requires Valid() && 0 <= k < length && n == nodes[k]
      modifies Repr
      ensures Valid() && fresh(m) && Repr == old(Repr) + {m}
      ensures Contents == InsertAfter(old(Contents), k, v)
      ensures cache == UpTo(old(cache), k)
    {
      m := new Node(v, n.next);
      DistinctAt(nodes, k);
      n.next := m;
      ChainInsert(nodes, Contents, head, tail, k, m);
      CoherentUpTo(cache, nodes, InsertAfter(nodes, k, m), k, capacity);
      Commit(head, if tail == n then m else tail, length + 1, isInitialized,
        InsertAfter(nodes, k, m), InsertAfter(Contents, k, v), Repr + {m}, UpTo(cache, k));
    }

    /**
     * `pushAfter(k, v)`: splices `v` in directly after position `k` and returns
     * the list, or returns `null` and changes nothing when `k` is out of range.
     * Position `k` is resolved as `get` resolves it.
     */
    method PushAfter(k: int, v: T) returns (r: FastList?<T>)
      requires Valid()
      modifies Repr
      ensures Valid() && fresh(Repr - old(Repr))
      ensures r == if 0 <= k < old(|Contents|) then this else null
      ensures Contents == if 0 <= k < old(|Contents|) then InsertAfter(old(Contents), k, v) else old(Contents)
      ensures !(0 <= k < old(|Contents|)) ==> cache == old(cache)
      ensures 0 <= k < old(|Contents|) ==> forall key :: key in cache ==> key <= k
    {
      if !(0 <= k < length) {
        return null;
      }
      var n := Locate(k);
      var m := SpliceAfter(k, n, v);
      r := this;
    }

    /** Unlinks the head node.  Removing the last element returns the list to the uninitialized empty state. */
    method UnlinkHead()
      requires Valid() && 0 < length
      modifies Repr
      ensures Valid() && Repr == old(Repr)
      ensures Contents == RemoveAt(old(Contents), 0)
      ensures cache == map[]
    {
      var gone := head;
      var empty := length == 1;
      ChainRemove(nodes, Contents, head, tail, 0);
      Commit(gone.next, if empty then null else tail, length - 1, !empty,
        RemoveAt(nodes, 0), RemoveAt(Contents, 0), Repr, map[]);
    }

    /** Unlinks the node after `prev`, which sits at position `k - 1`; cache entries from `k` on are dropped. */
    method UnlinkAfter(k: int, prev: Node<T>)
      requires Valid() && 0 < k < length && prev == nodes[k - 1]
      modifies Repr
      ensures Valid() && Repr == old(Repr)
      ensures Contents == RemoveAt(old(Contents), k)
      ensures cache == UpTo(old(cache), k - 1)
    {
      var gone := prev.next;
      DistinctAt(nodes, k - 1);
      prev.next := gone.next;
      ChainRemove(nodes, Contents, head, tail, k);
      CoherentUpTo(cache, nodes, RemoveAt(nodes, k), k - 1, capacity);
      Commit(head, if gone == tail then prev else tail, length - 1, isInitialized,
        RemoveAt(nodes, k), RemoveAt(Contents, k), Repr, UpTo(cache, k - 1));
    }

    /**
     * `remove(k)`: unlinks the element at `k`; out of range it does nothing.
     * Removing the last element returns the list to its uninitialized empty
     * state.  Cache entries at `k` and after are dropped, since they shift.
     */
    method Remove(k: int)
      requires Valid()
      modifies Repr
      ensures Valid() && Repr <= old(Repr)
      ensures Contents == if 0 <= k < old(|Contents|) then RemoveAt(old(Contents), k) else old(Contents)
      ensures !(0 <= k < old(|Contents|)) ==> cache == old(cache)
      ensures 0 <= k < old(|Contents|) ==> forall key :: key in cache ==> key < k
    {
      if !(0 <= k < length) {
        return;
      }
      if k == 0 {
        UnlinkHead();
      } else {
        var prev := Locate(k - 1);
        UnlinkAfter(k, prev);
      }
    }

    /** `first`: the head value, or `None` exactly when the list is empty. */
    method First() returns (r: Option<T>)
      requires Valid()
      ensures r == if Contents == [] then None else Some(Contents[0])
    {
      if head == null {
        r := None;
      } else {
        r := Some(head.value);
      }
    }

    /** `toArray()` (and iteration): the values from head to tail, `length` of them. */
    method ToArray() returns (a: seq<T>)
      requires Valid()
      ensures a == Contents && |a| == length
    {
      a := [];
      var cur := head;
      while cur != null
        invariant |a| <= |nodes|
        invariant a == Contents[..|a|]
        invariant cur == if |a| < |nodes| then nodes[|a|] else null
        decreases |nodes| - |a|
      {
        a := a + [cur.value];
        cur := cur.next;
      }
    }

    /** `FastList.from(a)`: a new list holding the elements of `a` in order. */
    static method From(a: seq<T>, capacity: nat) returns (l: FastList<T>)
      ensures l.Valid() && fresh(l.Repr)
      ensures l.Contents == a && l.capacity == capacity
    {
      l := new FastList(capacity);
      var i := 0;
      while i < |a|
        invariant 0 <= i <= |a|
        invariant l.Valid() && fresh(l.Repr)
        invariant l.Contents == a[..i] && l.capacity == capacity
      {
        var _ := l.Push(a[i]);
        TakeSnoc(a, i);
        i := i + 1;
      }
    }

    /**
     * `forEach(fn)`: calls `fn` on each value from head to tail.  The
     * callback's effect on its environment is modelled as `visit`, threading
     * that environment from `env` through the calls.
     */
    method ForEach<S>(visit: (S, T) -> S, env: S) returns (out: S)
      requires Valid()
      ensures out == FoldLeft(visit, env, Contents)
    {
      out := env;
      var cur := head;
      var i := 0;
      while cur != null
        invariant 0 <= i <= |nodes|
        invariant out == FoldLeft(visit, env, Contents[..i])
        invariant cur == if i < |nodes| then nodes[i] else null
        decreases |nodes| - i
      {
        FoldLeftSnoc(visit, env, Contents[..i], Contents[i]);
        TakeSnoc(Contents, i);
        out := visit(out, cur.value);
        cur := cur.next;
        i := i + 1;
      }
      assert Contents[..i] == Contents;
    }

    /** `reduce(fn, init)`: the left fold of the values, starting from `init`. */
    method ReduceWith<A>(f: (A, T) -> A, init: A) returns (acc: A)
      requires Valid()
      ensures acc == FoldLeft(f, init, Contents)
    {
      acc := ForEach(f, init);
    }

    /**
     * `reduce(fn)` without an initial value: the left fold of the values after
     * the first, starting from the first; `None` on an empty list.
     */
    method Reduce(f: (T, T) -> T) returns (r: Option<T>)
      requires Valid()
      ensures r == if Contents == [] then None else Some(FoldLeft(f, Contents[0], Contents[1..]))
    {
      if head == null {
        return None;
      }
      var acc := head.value;
      var cur := head.next;
      var i := 1;
      while cur != null
        invariant 1 <= i <= |nodes|
        invariant acc == FoldLeft(f, Contents[0], Contents[1..i])
        invariant cur == if i < |nodes| then nodes[i] else null
        decreases |nodes| - i
      {
        FoldLeftSnoc(f, Contents[0], Contents[1..i], Contents[i]);
        SliceSnoc(Contents, 1, i);
        acc := f(acc, cur.value);
        cur := cur.next;
        i := i + 1;
      }
      assert Contents[1..i] == Contents[1..];
      r := Some(acc);
    }

    /** `map(fn)`: a new list holding the image of every value, in order. */
    method Map<U>(f: T -> U) returns (l: FastList<U>)
      requires Valid()
      ensures l.Valid() && fresh(l.Repr)
      ensures l.Contents == MapSeq(f, Contents)
    {
      l := new FastList(capacity);
      var cur := head;
      var i := 0;
      while cur != null
        invariant 0 <= i <= |nodes|
        invariant l.Valid() && fresh(l.Repr)
        invariant l.Contents == MapSeq(f, Contents[..i])
        invariant cur == if i < |nodes| then nodes[i] else null
        decreases |nodes| - i
      {
        var _ := l.Push(f(cur.value));
        MapSeqSnoc(f, Contents[..i], Contents[i]);
        TakeSnoc(Contents, i);
        cur := cur.next;
        i := i + 1;
      }
      assert Contents[..i] == Contents;
    }

    /** `filter(fn)`: a new list holding, in order, the values that satisfy `p`. */
    method Filter(p: T -> bool) returns (l: FastList<T>)
      requires Valid()
      ensures l.Valid() && fresh(l.Repr)
      ensures l.Contents == FilterSeq(p, Contents)
    {
      l := new FastList(capacity);
      var cur := head;
      var i := 0;
      while cur != null
        invariant 0 <= i <= |nodes|
        invariant l.Valid() && fresh(l.Repr)
        invariant l.Contents == FilterSeq(p, Contents[..i])
        invariant cur == if i < |nodes| then nodes[i] else null
        decreases |nodes| - i
      {
        if p(cur.value) {
          var _ := l.Push(cur.value);
        }
        FilterSeqSnoc(p, Contents[..i], Contents[i]);
        TakeSnoc(Contents, i);
        cur := cur.next;
        i := i + 1;
      }
      assert Contents[..i] == Contents;
    }
  }
}
