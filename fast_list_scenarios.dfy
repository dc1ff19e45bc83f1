/**
 * The usage scenarios written against FastList: a stack and a queue built
 * on it, and the behaviour each scenario expects of the list, stated as the
 * result of running the scenario on the model.  The capacity of the
 * position cache of each new list is a parameter.
 */
module FastListScenarios {
  import opened Wrappers
  import opened Sequences
  import opened FastLists

  /** A stack whose top is the head of the list: `push` is `pushHead`, `pop` reads `first` and removes index 0. */
  class Stack<T> {
    var lst: FastList<T>
    ghost var Repr: set<object>

    ghost predicate Valid()
      reads this, Repr
      ensures Valid() ==> this in Repr
    {
      && this in Repr && lst in Repr && lst.Repr <= Repr && this !in lst.Repr
      && lst.Valid()
    }

    /** The values on the stack, top first. */
    ghost function Elements(): seq<T>
      reads this, lst
    {
      lst.Contents
    }

    constructor (capacity: nat)
      ensures Valid() && fresh(Repr)
      ensures Elements() == []
    {
      lst := new FastList(capacity);
      new;
      Repr := {this} + lst.Repr;
    }

    method Push(v: T)
      requires Valid()
      modifies Repr
      ensures Valid() && fresh(Repr - old(Repr))
      ensures Elements() == [v] + old(Elements())
    {
      var _ := lst.PushHead(v);
      Repr := Repr + lst.Repr;
    }

    /** The top value, or `None` on an empty stack. */
    method Peek() returns (r: Option<T>)
      requires Valid()
      ensures r == if Elements() == [] then None else Some(Elements()[0])
    {
      r := lst.First();
    }

    /** Removes and returns the top value; on an empty stack returns `None` and changes nothing. */
    method Pop() returns (r: Option<T>)
      requires Valid()
      modifies Repr
      ensures Valid() && Repr == old(Repr)
      ensures r == if old(Elements()) == [] then None else Some(old(Elements())[0])
      ensures Elements() == if old(Elements()) == [] then [] else old(Elements())[1..]
    {
      r := lst.First();
      lst.Remove(0);
      if old(Elements()) != [] {
        assert RemoveAt(old(Elements()), 0) == old(Elements())[1..];
      }
    }
  }

  /** A queue whose front is the head of the list: `enqueue` is `push`, `dequeue` reads `first` and removes index 0. */
  class Queue<T> {
    var lst: FastList<T>
    ghost var Repr: set<object>

    ghost predicate Valid()
      reads this, Repr
      ensures Valid() ==> this in Repr
    {
      && this in Repr && lst in Repr && lst.Repr <= Repr && this !in lst.Repr
      && lst.Valid()
    }

    /** The values in the queue, front first. */
    ghost function Elements(): seq<T>
      reads this, lst
    {
      lst.Contents
    }

    constructor (capacity: nat)
      ensures Valid() && fresh(Repr)
      ensures Elements() == []
    {
      lst := new FastList(capacity);
      new;
      Repr := {this} + lst.Repr;
    }

    method Enqueue(v: T)
      requires Valid()
      modifies Repr
      ensures Valid() && fresh(Repr - old(Repr))
      ensures Elements() == old(Elements()) + [v]
    {
      var _ := lst.Push(v);
      Repr := Repr + lst.Repr;
    }

    /** The front value, or `None` on an empty queue. */
    method Peek() returns (r: Option<T>)
      requires Valid()
      ensures r == if Elements() == [] then None else Some(Elements()[0])
    {
      r := lst.First();
    }

    /** Removes and returns the front value; on an empty queue returns `None` and changes nothing. */
    method Dequeue() returns (r: Option<T>)
      requires Valid()
      modifies Repr
      ensures Valid() && Repr == old(Repr)
      ensures r == if old(Elements()) == [] then None else Some(old(Elements())[0])
      ensures Elements() == if old(Elements()) == [] then [] else old(Elements())[1..]
    {
      r := lst.First();
      lst.Remove(0);
      if old(Elements()) != [] {
        assert RemoveAt(old(Elements()), 0) == old(Elements())[1..];
      }
    }
  }

  /** Pushes `1, ..., n` onto a new stack, in that order. */
  method FillStack(n: nat, capacity: nat) returns (stack: Stack<int>)
    ensures stack.Valid() && fresh(stack.Repr)
    ensures stack.Elements() == CountDown(n)
  {
    stack := new Stack<int>(capacity);
    var i := 1;
    while i <= n
      invariant 1 <= i <= n + 1
      invariant stack.Valid() && fresh(stack.Repr)
      invariant stack.Elements() == CountDown(i - 1)
    {
      stack.Push(i);
      i := i + 1;
    }
  }

  /**
   * Peeks and pops until the peek comes back empty: the peeks and the pops
   * both read the stack from top to bottom, and the stack ends up empty.
   */
  method DrainStack(stack: Stack<int>) returns (peeked: seq<int>, popped: seq<int>)
    requires stack.Valid()
    modifies stack.Repr
    ensures stack.Valid() && stack.Elements() == []
    ensures peeked == old(stack.Elements()) && popped == old(stack.Elements())
  {
    peeked, popped := [], [];
    var top := stack.Peek();
    while top != None
      invariant stack.Valid() && stack.Repr <= old(stack.Repr)
      invariant popped + stack.Elements() == old(stack.Elements())
      invariant peeked == popped
      invariant top == if stack.Elements() == [] then None else Some(stack.Elements()[0])
      decreases |stack.Elements()|
    {
      MoveFirst(popped, stack.Elements());
      var v := stack.Pop();
      peeked, popped := peeked + [top.value], popped + [v.value];
      top := stack.Peek();
    }
  }

  /**
   * Pushes `1, ..., n` onto a stack, then peeks and pops until the peek
   * comes back empty: the peeks and the pops both read `n, ..., 1`.
   */
  method StackDrill(n: nat, capacity: nat) returns (peeked: seq<int>, popped: seq<int>)
    ensures peeked == CountDown(n) && popped == CountDown(n)
  {
    var stack := FillStack(n, capacity);
    peeked, popped := DrainStack(stack);
  }

  /** Enqueues `1, ..., n` onto a new queue, in that order. */
  method FillQueue(n: nat, capacity: nat) returns (queue: Queue<int>)
    ensures queue.Valid() && fresh(queue.Repr)
    ensures queue.Elements() == CountUp(n)
  {
    queue := new Queue<int>(capacity);
    var i := 1;
    while i <= n
      invariant 1 <= i <= n + 1
      invariant queue.Valid() && fresh(queue.Repr)
      invariant queue.Elements() == CountUp(i - 1)
    {
      queue.Enqueue(i);
      i := i + 1;
    }
  }

  /**
   * Peeks and dequeues until the peek comes back empty: the peeks and the
   * dequeued values both read the queue from front to back, and the queue
   * ends up empty.
   */
  method DrainQueue(queue: Queue<int>) returns (peeked: seq<int>, dequeued: seq<int>)
    requires queue.Valid()
    modifies queue.Repr
    ensures queue.Valid() && queue.Elements() == []
    ensures peeked == old(queue.Elements()) && dequeued == old(queue.Elements())
  {
    peeked, dequeued := [], [];
    var front := queue.Peek();
    while front != None
      invariant queue.Valid() && queue.Repr <= old(queue.Repr)
      invariant dequeued + queue.Elements() == old(queue.Elements())
      invariant peeked == dequeued
      invariant front == if queue.Elements() == [] then None else Some(queue.Elements()[0])
      decreases |queue.Elements()|
    {
      MoveFirst(dequeued, queue.Elements());
      var v := queue.Dequeue();
      peeked, dequeued := peeked + [front.value], dequeued + [v.value];
      front := queue.Peek();
    }
  }

  /**
   * Enqueues `1, ..., n`, then peeks and dequeues until the peek comes back
   * empty: the peeks and the dequeued values both read `1, ..., n`.
   */
  method QueueDrill(n: nat, capacity: nat) returns (peeked: seq<int>, dequeued: seq<int>)
    ensures peeked == CountUp(n) && dequeued == CountUp(n)
  {
    var queue := FillQueue(n, capacity);
    peeked, dequeued := DrainQueue(queue);
  }

  /** A new list with `values` pushed onto it one by one, in order. */
  method PushAll<T>(values: seq<T>, capacity: nat) returns (l: FastList<T>)
    ensures l.Valid() && fresh(l.Repr)
    ensures l.Contents == values && l.length == |values|
    ensures l.cache == map[] && l.capacity == capacity
  {
    l := new FastList<T>(capacity);
    for i := 0 to |values|
      invariant l.Valid() && fresh(l.Repr)
      invariant l.Contents == values[..i]
      invariant l.cache == map[] && l.capacity == capacity
    {
      l := l.Push(values[i]);
      TakeSnoc(values, i);
    }
  }

  /** A new list iterates over nothing and has nothing at index 0. */
  method EmptyList(capacity: nat) returns (items: seq<int>, first: Option<int>)
    ensures items == [] && first == None
  {
    var l := new FastList<int>(capacity);
    items := l.ToArray();
    first := l.Get(0);
  }

  /** After pushing 0, 1, 2, iteration yields them in order and each value, used as an index, finds itself. */
  method IterateInOrder(capacity: nat) returns (items: seq<int>, looked: seq<Option<int>>)
    ensures items == [0, 1, 2]
    ensures looked == [Some(0), Some(1), Some(2)]
  {
    var l := PushAll([0, 1, 2], capacity);
    items := l.ToArray();
    looked := [];
    for k := 0 to |items|
      invariant l.Valid() && fresh(l.Repr) && l.Contents == [0, 1, 2]
      invariant |looked| == k
      invariant forall j :: 0 <= j < k ==> looked[j] == Some(j)
    {
      var v := l.Get(items[k]);
      looked := looked + [v];
    }
  }

  /** After pushing 0, 1, 2, `get(i)` reads `i` for each of the three indexes. */
  method GetEachIndex(capacity: nat) returns (got: seq<Option<int>>)
    ensures got == [Some(0), Some(1), Some(2)]
  {
    var l := PushAll([0, 1, 2], capacity);
    got := [];
    for i := 0 to 3
      invariant l.Valid() && fresh(l.Repr) && l.Contents == [0, 1, 2]
      invariant |got| == i
      invariant forall j :: 0 <= j < i ==> got[j] == Some(j)
    {
      var v := l.Get(i);
      got := got + [v];
    }
  }

  /** An empty list has nothing at index 0, 1 or 99999. */
  method MissingIndexes(capacity: nat) returns (a: Option<int>, b: Option<int>, c: Option<int>)
    ensures a == None && b == None && c == None
  {
    var l := new FastList<int>(capacity);
    a := l.Get(0);
    b := l.Get(1);
    c := l.Get(99999);
  }

  /** In `[10, 20]`, setting index 2 yields `null`; setting 0 and 1 returns the list, which then reads the new values. */
  method SetIndex(capacity: nat) returns (outOfRange: FastList?<int>, a: Option<int>, b: Option<int>)
    ensures outOfRange == null && a == Some(100) && b == Some(200)
  {
    var l := PushAll([10, 20], capacity);
    outOfRange := l.Set(2, 50);
    var r := l.Set(0, 100);
    assert r == l && l.Contents == [100, 20];
    a := r.Get(0);
    r := l.Set(1, 200);
    assert r == l && l.Contents == [100, 200];
    b := r.Get(1);
  }

  /** Removing index 0 of `[0, 1, 2, 3]` four times shrinks the length by one each time. */
  method RemoveHeadRepeatedly(capacity: nat) returns (initial: nat, lengths: seq<nat>)
    ensures initial == 4 && lengths == [3, 2, 1, 0]
  {
    var l := PushAll([0, 1, 2, 3], capacity);
    initial := l.length;
    lengths := [];
    var i := l.length;
    while i != 0
      invariant 0 <= i <= 4 && l.Valid() && fresh(l.Repr) && l.length == i == |l.Contents|
      invariant lengths == [3, 2, 1, 0][..4 - i]
    {
      l.Remove(0);
      TakeSnoc([3, 2, 1, 0], 4 - i);
      lengths := lengths + [l.length];
      i := i - 1;
    }
  }

  /** Removing the only element leaves an uninitialized list with no head and no tail. */
  method RemoveOnlyElement(capacity: nat) returns (length: nat, initialized: bool, noHead: bool, noTail: bool)
    ensures length == 0 && !initialized && noHead && noTail
  {
    var l := PushAll([0], capacity);
    l.Remove(0);
    l.EmptyShape();
    length, initialized := l.length, l.isInitialized;
    noHead, noTail := l.head == null, l.tail == null;
  }

  /** Removing index 0 of `[0, 1, 2]` leaves `[1, 2]`. */
  method RemoveHead(capacity: nat) returns (length: nat, a: Option<int>, b: Option<int>)
    ensures length == 2 && a == Some(1) && b == Some(2)
  {
    var l := PushAll([0, 1, 2], capacity);
    l.Remove(0);
    length := l.length;
    a := l.Get(0);
    b := l.Get(1);
  }

  /** Removing index 1 of `[0, 1, 2]` leaves `[0, 2]`. */
  method RemoveMiddle(capacity: nat) returns (length: nat, a: Option<int>, b: Option<int>)
    ensures length == 2 && a == Some(0) && b == Some(2)
  {
    var l := PushAll([0, 1, 2], capacity);
    l.Remove(1);
    length := l.length;
    a := l.Get(0);
    b := l.Get(1);
  }

  /** Pushing `0, ..., 9` gives a list of length 10 whose array holds `i` at each index `i`. */
  method ToArrayOfTen(capacity: nat) returns (length: nat, arr: seq<int>)
    ensures length == 10 && |arr| == 10
    ensures forall i :: 0 <= i < 10 ==> arr[i] == i
  {
    var l := new FastList<int>(capacity);
    for i := 0 to 10
      invariant l.Valid() && fresh(l.Repr)
      invariant |l.Contents| == i
      invariant forall j :: 0 <= j < i ==> l.Contents[j] == j
    {
      var _ := l.Push(i);
    }
    length := l.length;
    arr := l.ToArray();
  }

  /**
   * In `[0, 1, 2, 3]`, the first `get(3)` misses the cache (nothing is
   * cached at 3) and leaves position 3 cached, so the second one hits;
   * both read 3.
   */
  method CacheHitOnSecondGet(capacity: nat) returns (firstHit: bool, secondHit: bool, a: Option<int>, b: Option<int>)
    requires capacity > 0
    ensures !firstHit && secondHit && a == Some(3) && b == Some(3)
  {
    var l := PushAll([0, 1, 2, 3], capacity);
    firstHit := 3 in l.cache;
    a := l.Get(3);
    secondHit := 3 in l.cache;
    b := l.Get(3);
  }

  /** `FastList.from([1, 2, 3, 4, 5]).toArray()` is `[1, 2, 3, 4, 5]`. */
  method FromThenToArray(capacity: nat) returns (arr: seq<int>)
    ensures arr == [1, 2, 3, 4, 5]
  {
    var l := FastList.From([1, 2, 3, 4, 5], capacity);
    arr := l.ToArray();
  }

  /** `pushAfter(2, 99)` on `[10, 20, 30, 40, 50]` gives `[10, 20, 30, 99, 40, 50]`. */
  method PushAfterThenToArray(capacity: nat) returns (arr: seq<int>)
    ensures arr == [10, 20, 30, 99, 40, 50]
  {
    var l := FastList.From([10, 20, 30, 40, 50], capacity);
    var r := l.PushAfter(2, 99);
    arr := r.ToArray();
  }

  function Square(x: int): int { x * x }

  function IsEven(x: int): bool { x % 2 == 0 }

  function Add(x: int, y: int): int { x + y }

  /** The squares of `1, ..., 10`. */
  lemma SquaresUpToTen()
    ensures MapSeq(Square, CountUp(10)) == [1, 4, 9, 16, 25, 36, 49, 64, 81, 100]
  {
  }

  /** The sum of `2, ..., 10`, starting from 1. */
  lemma SumUpToTen()
    ensures FoldLeft(Add, 1, CountUp(10)[1..]) == 55
  {
  }

  /** Mapping `Square` over the list of `1, ..., 10` gives what mapping it over the array gives: the squares. */
  method MapSquares(capacity: nat) returns (arr: seq<int>)
    ensures arr == MapSeq(Square, CountUp(10))
    ensures arr == [1, 4, 9, 16, 25, 36, 49, 64, 81, 100]
  {
    var l := FastList.From(CountUp(10), capacity);
    var m := l.Map(Square);
    arr := m.ToArray();
    SquaresUpToTen();
  }

  /** Filtering the list of `1, ..., 10` by evenness gives what filtering the array gives. */
  method FilterEvens(capacity: nat) returns (arr: seq<int>)
    ensures arr == FilterSeq(IsEven, CountUp(10))
  {
    var l := FastList.From(CountUp(10), capacity);
    var m := l.Filter(IsEven);
    arr := m.ToArray();
  }

  /** Reducing the list of `1, ..., 10` by addition, with no initial value, gives what reducing the array gives: 55. */
  method ReduceSum(capacity: nat) returns (r: Option<int>)
    ensures r == Some(FoldLeft(Add, 1, CountUp(10)[1..]))
    ensures r == Some(55)
  {
    var l := FastList.From(CountUp(10), capacity);
    r := l.Reduce(Add);
    SumUpToTen();
  }

  /** A record with a name and an id. */
  datatype Person = Person(name: string, id: int)

  /**
   * Reducing a list of people into a table keyed by name, starting from the
   * empty table, files each person under their own name.
   */
  method LookupTable(capacity: nat) returns (lookup: map<string, Person>)
    ensures "fred" in lookup && lookup["fred"].id == 1
    ensures "steve" in lookup && lookup["steve"].id == 2
    ensures "chris" in lookup && lookup["chris"].id == 3
    ensures "john" in lookup && lookup["john"].id == 4
  {
    var people := [Person("fred", 1), Person("steve", 2), Person("chris", 3), Person("john", 4)];
    var l := FastList.From(people, capacity);
    lookup := l.ReduceWith((acc: map<string, Person>, p: Person) => acc[p.name := p], map[]);
  }

  /** A `forEach` callback that adds each value to a running sum leaves 55 for the list of `1, ..., 10`. */
  method ForEachSum(capacity: nat) returns (sum: int)
    ensures sum == 55
  {
    var l := FastList.From([1, 2, 3, 4, 5, 6, 7, 8, 9, 10], capacity);
    sum := l.ForEach((total, x) => total + x, 0);
  }
}
