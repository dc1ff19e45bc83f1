# Indexed-access linked lists

This project models the two list classes of the `modern-list` repository.

- **`FastList`** is a singly-linked list. It has `head`, `tail`, `length` and `isInitialized` fields, and a bounded position cache (index → node) that `get` fills and that lets a repeated `get` skip the walk from the head.
- **`LinkedList`** has the same list operations. Its usage scenarios observe no position cache, so none is modelled for it. Its operations are also reachable through bracket sugar: `lst[i]`, `lst[i] = v`, `delete lst[i]`.

Each list is described by the behaviour its usage scenarios expect. This covers `push`, `pushHead`, `pushAfter`, `get`, `set`, `remove`, `first`, `toArray`, `from`, `map`, `filter`, `reduce` and `forEach`. It also covers the stacks and queues those scenarios build on top of the lists.

The project has these modules:

- `Wrappers` has `Option`, which stands for the source's `null` results.
- `Sequences` gives the abstract meaning of each operation on the sequence of values from head to tail:
  - `InsertAfter` and `RemoveAt` describe splicing in and removing;
  - `MapSeq`, `FilterSeq` and `FoldLeft` follow `Array.prototype.map`, `filter` and `reduce`;
  - it also holds the lemmas the loops and clients use.
- `Nodes` has the heap cell (`value`, `next`) and `IsChain`. `IsChain` says that a ghost sequence of distinct cells is a null-terminated chain from `head` to `tail` that holds a given sequence of values. It comes with one lemma per relinking step:
  - `ChainCons` for prepending;
  - `ChainInsert` for splicing a cell in;
  - `ChainRemove` for unlinking a cell.
- `FastLists` has the `FastList` class. Its `Valid()` invariant says four things:
  - the cells form a chain holding the ghost `Contents`;
  - `length` counts them;
  - `isInitialized` holds exactly when the list is non-empty;
  - every cache entry `k ↦ n` names the cell now at position `k`, and there are at most `capacity` entries.

  Together with the chain, that gives `length == 0 ⟺ head == null ⟺ tail == null ⟺ !isInitialized`, and that a cache hit reads what a walk would read. Every mutating method is specified by the new `Contents` as a function of the old one, and by what happens to the cache.
- `LinkedLists` has the `LinkedList` class, with the same invariant and no cache. Bracket reads, writes and deletes are `Get`, `Set` and `Remove`.
- `FastListScenarios` and `LinkedListScenarios` hold the `Stack` and `Queue` classes built on each list, and one method per usage scenario. Each method runs the scenario on the model and states what the scenario observes.

## Model

| member | source | states |
|---|---|---|
| Sequences.InsertAfter | modern-list/src/lib/fast-list.spec.ts:201-204 | the result is one longer, holds `v` at `k + 1`, keeps every element up to `k`, and shifts every later element up by one |
| Sequences.RemoveAt | modern-list/src/lib/fast-list.spec.ts:90-100 | the result is one shorter, keeps every element before `k`, and shifts every later element down by one |
| Sequences.RemoveAfterInsert | modern-list/src/lib/fast-list.spec.ts:201-204 | removing position `k + 1` after splicing in after `k` gives back the original sequence |
| Sequences.RemoveFirstAfterPrepend | modern-list/src/lib/fast-list.spec.ts:115-141 | removing the first element undoes a prepend (last in, first out) |
| Sequences.RemoveFirstBeforeAppend | modern-list/src/lib/fast-list.spec.ts:143-170 | on a non-empty sequence, removing the first element commutes with appending (first in, first out) |
| Sequences.MapSeq | modern-list/src/lib/fast-list.spec.ts:206-213 | the image has the same length and holds `f(s[i])` at each index `i` |
| Sequences.MapSeqSnoc | modern-list/src/lib/fast-list.spec.ts:206-213 | mapping a sequence extended by `x` extends the image by `f(x)` |
| Sequences.FilterSeq | modern-list/src/lib/fast-list.spec.ts:215-222 | the result is no longer than the input, and every element of it satisfies `p` |
| Sequences.FilterSeqMembers | modern-list/src/lib/fast-list.spec.ts:215-222 | a value occurs in the filtered sequence if and only if it occurs in the input and satisfies `p` |
| Sequences.FilterSeqSnoc | modern-list/src/lib/fast-list.spec.ts:215-222 | filtering a sequence extended by `x` appends `x` exactly when `p(x)` holds |
| Sequences.FoldLeft | modern-list/src/lib/fast-list.spec.ts:224-257 | the left fold of `s` from `a`, applying `f` to the running value and each element from first to last: the meaning of `reduce` with and without an initial value, and of `forEach` with a threaded environment |
| Sequences.FoldLeftSnoc | modern-list/src/lib/fast-list.spec.ts:224-257 | folding a sequence extended by `x` applies `f` once more, to the previous fold and `x` |
| Sequences.CountDown | src/lib/list.spec.ts:179-182 | `n` values with `n - i` at index `i`: the order in which the stack drill pops |
| Sequences.CountUp | src/lib/list.spec.ts:207-210 | `n` values with `i + 1` at index `i`: the order in which the queue drill dequeues |
| Nodes.IsChain | modern-list/src/lib/fast-list.spec.ts:66-76 | the cells are pairwise distinct, link each to the next and the last to `null`, hold `contents` in order, and are entered at `head` and end at `tail`; an empty chain has neither head nor tail |
| Nodes.ChainCons | modern-list/src/lib/fast-list.spec.ts:129-131 | a fresh cell linked to the old head, put in front of a chain, gives a chain holding `[v] + contents` |
| Nodes.ChainInsert | modern-list/src/lib/fast-list.spec.ts:201-204 | relinking cell `k` to a fresh cell that links to `k`'s old successor gives a chain holding `InsertAfter(contents, k, v)`; the tail moves only when `k` was the tail |
| Nodes.ChainRemove | modern-list/src/lib/fast-list.spec.ts:53-100 | relinking `k`'s predecessor past `k` gives a chain holding `RemoveAt(contents, k)`; the head moves when `k == 0` and the tail moves to the predecessor when `k` was the tail |
| FastLists.Coherent | modern-list/src/lib/fast-list.spec.ts:172-195 | the cache invariant: at most `capacity` entries, and every entry `k` lies in range and names the element at position `k` |
| FastLists.UpTo | modern-list/src/lib/fast-list.spec.ts:201-204 | keeps exactly the cache entries at positions up to `k`, with the same nodes, and never enlarges the cache |
| FastLists.CoherentUpTo | modern-list/src/lib/fast-list.spec.ts:201-204 | cutting the cache after `k` keeps it correct for any new chain that agrees with the old one up to `k` |
| FastLists.FastList.constructor | modern-list/src/lib/fast-list.spec.ts:6-12 | a new list is valid, empty, uninitialized, with neither head nor tail, and an empty cache |
| FastLists.FastList.EmptyShape | modern-list/src/lib/fast-list.spec.ts:66-76 | in a valid list `length` is the number of values, and the list is empty exactly when it has no head, exactly when it has no tail, and exactly when it is not initialized |
| FastLists.FastList.CacheHit | modern-list/src/lib/fast-list.spec.ts:172-195 | a cached node holds the value at its index, so a hit reads what a walk reads |
| FastLists.FastList.Walk | modern-list/src/lib/fast-list.spec.ts:28-36 | walking `i` links from the head reaches the cell at position `i`, whose value is `Contents[i]` |
| FastLists.FastList.Record | modern-list/src/lib/fast-list.spec.ts:172-195 | after recording, position `i` is cached whenever the capacity is positive; an existing entry leaves the cache unchanged; no key other than `i` is added |
| FastLists.FastList.Find | modern-list/src/lib/fast-list.spec.ts:172-195 | a hit or a walk resolves index `i` to the cell at position `i` |
| FastLists.FastList.Locate | modern-list/src/lib/fast-list.spec.ts:172-195 | resolves index `i` to its cell and leaves `i` cached whenever the capacity is positive |
| FastLists.FastList.Get | modern-list/src/lib/fast-list.spec.ts:28-44 | `Some(Contents[i])` for `0 <= i < length` and `None` otherwise; a hit or an out-of-range index leaves the cache unchanged |
| FastLists.FastList.Overwrite | modern-list/src/lib/fast-list.spec.ts:46-51 | writes `v` at position `i` in place; the chain, the fields and the cache are unchanged |
| FastLists.FastList.Set | modern-list/src/lib/fast-list.spec.ts:46-51 | in range, returns the list and `Contents` becomes `old(Contents)[i := v]`; out of range, returns `null` and changes neither the contents nor the cache |
| FastLists.FastList.Push | modern-list/src/lib/fast-list.spec.ts:14-26 | appends `v` (`Contents == old(Contents) + [v]`), is initialized afterwards, keeps the cache, and returns the list |
| FastLists.FastList.PushHead | modern-list/src/lib/fast-list.spec.ts:129-131 | prepends `v`, is initialized afterwards, empties the cache (every position shifts), and returns the list |
| FastLists.FastList.SpliceAfter | modern-list/src/lib/fast-list.spec.ts:201-204 | splicing a fresh cell in after cell `k` makes `Contents == InsertAfter(old(Contents), k, v)` and keeps only cache entries up to `k` |
| FastLists.FastList.PushAfter | modern-list/src/lib/fast-list.spec.ts:201-204 | in range, `Contents == InsertAfter(old(Contents), k, v)`, the list is returned, and only positions up to `k` stay cached; out of range, `null` and no change |
| FastLists.FastList.UnlinkHead | modern-list/src/lib/fast-list.spec.ts:53-88 | removes position 0 (`RemoveAt(old(Contents), 0)`) and empties the cache |
| FastLists.FastList.UnlinkAfter | modern-list/src/lib/fast-list.spec.ts:90-100 | removes position `k` and keeps only the cache entries before `k` |
| FastLists.FastList.Remove | modern-list/src/lib/fast-list.spec.ts:53-100 | in range, `Contents == RemoveAt(old(Contents), k)` and only positions before `k` stay cached; out of range, nothing changes |
| FastLists.FastList.First | modern-list/src/lib/fast-list.spec.ts:121-128 | `None` exactly when the list is empty, otherwise the head value |
| FastLists.FastList.ToArray | modern-list/src/lib/fast-list.spec.ts:102-113 | the values from head to tail, exactly `length` of them |
| FastLists.FastList.From | modern-list/src/lib/fast-list.spec.ts:197-199 | a new valid list whose contents are `a`, in order |
| FastLists.FastList.ForEach | modern-list/src/lib/fast-list.spec.ts:251-257 | the callback's environment after visiting every value in order is the left fold over `Contents` |
| FastLists.FastList.ReduceWith | modern-list/src/lib/fast-list.spec.ts:233-249 | with an initial value, the result is the left fold over `Contents` |
| FastLists.FastList.Reduce | modern-list/src/lib/fast-list.spec.ts:224-231 | without an initial value, the left fold of the rest from the first value; `None` on an empty list |
| FastLists.FastList.Map | modern-list/src/lib/fast-list.spec.ts:206-213 | a new valid list holding `MapSeq(f, Contents)` |
| FastLists.FastList.Filter | modern-list/src/lib/fast-list.spec.ts:215-222 | a new valid list holding `FilterSeq(p, Contents)` |
| LinkedLists.LinkedList.constructor | src/lib/list.spec.ts:6-12 | a new list is valid, empty and uninitialized, with neither head nor tail |
| LinkedLists.LinkedList.EmptyShape | src/lib/list.spec.ts:96-106 | in a valid list `length` is the number of values, and the list is empty exactly when it has no head, exactly when it has no tail, and exactly when it is not initialized |
| LinkedLists.LinkedList.Walk | src/lib/list.spec.ts:41-49 | walking `i` links from the head reaches the cell at position `i`, whose value is `Contents[i]` |
| LinkedLists.LinkedList.Get | src/lib/list.spec.ts:28-57 | `lst[i]` and `get(i)` are `Some(Contents[i])` for `0 <= i < length` and `None` otherwise |
| LinkedLists.LinkedList.Overwrite | src/lib/list.spec.ts:59-81 | writes `v` at position `i` in place; the chain and the other fields are unchanged |
| LinkedLists.LinkedList.Set | src/lib/list.spec.ts:59-81 | in range, returns the list and `Contents` becomes `old(Contents)[i := v]`; out of range, returns `null` and changes nothing |
| LinkedLists.LinkedList.Push | src/lib/list.spec.ts:14-26 | appends `v`, is initialized afterwards, and returns the list |
| LinkedLists.LinkedList.PushHead | src/lib/list.spec.ts:171-173 | prepends `v`, is initialized afterwards, and returns the list |
| LinkedLists.LinkedList.UnlinkHead | src/lib/list.spec.ts:83-118 | removes position 0 (`RemoveAt(old(Contents), 0)`) |
| LinkedLists.LinkedList.UnlinkAfter | src/lib/list.spec.ts:120-142 | removes position `k` |
| LinkedLists.LinkedList.Remove | src/lib/list.spec.ts:83-142 | `remove(k)` and `delete lst[k]`: in range, `Contents == RemoveAt(old(Contents), k)`; out of range, nothing changes |
| LinkedLists.LinkedList.First | src/lib/list.spec.ts:163-170 | `None` exactly when the list is empty, otherwise the head value |
| LinkedLists.LinkedList.ToArray | src/lib/list.spec.ts:144-155 | the values from head to tail, exactly `length` of them |
| FastListScenarios.Stack.constructor | modern-list/src/lib/fast-list.spec.ts:118-120 | a new stack is empty |
| FastListScenarios.Stack.Push | modern-list/src/lib/fast-list.spec.ts:129-131 | the value goes on top: `Elements() == [v] + old(Elements())` |
| FastListScenarios.Stack.Peek | modern-list/src/lib/fast-list.spec.ts:126-128 | the top value, or `None` exactly when the stack is empty |
| FastListScenarios.Stack.Pop | modern-list/src/lib/fast-list.spec.ts:121-125 | returns the old top and drops it; on an empty stack, `None` and no change |
| FastListScenarios.Queue.constructor | modern-list/src/lib/fast-list.spec.ts:147-149 | a new queue is empty |
| FastListScenarios.Queue.Enqueue | modern-list/src/lib/fast-list.spec.ts:158-160 | the value goes to the back: `Elements() == old(Elements()) + [v]` |
| FastListScenarios.Queue.Peek | modern-list/src/lib/fast-list.spec.ts:155-157 | the front value, or `None` exactly when the queue is empty |
| FastListScenarios.Queue.Dequeue | modern-list/src/lib/fast-list.spec.ts:150-154 | returns the old front and drops it; on an empty queue, `None` and no change |
| FastListScenarios.FillStack | modern-list/src/lib/fast-list.spec.ts:133-136 | pushing `1, ..., n` leaves `n, ..., 1` on the stack, top first |
| FastListScenarios.DrainStack | modern-list/src/lib/fast-list.spec.ts:137-140 | on an `int` stack, peeking and popping until the peek is empty reads the whole stack top to bottom, twice over, and leaves it empty |
| FastListScenarios.StackDrill | modern-list/src/lib/fast-list.spec.ts:133-140 | the peeks and the pops both read `n, ..., 1` |
| FastListScenarios.FillQueue | modern-list/src/lib/fast-list.spec.ts:162-165 | enqueueing `1, ..., n` leaves `1, ..., n` in the queue, front first |
| FastListScenarios.DrainQueue | modern-list/src/lib/fast-list.spec.ts:166-169 | on an `int` queue, peeking and dequeueing until the peek is empty reads the whole queue front to back, twice over, and leaves it empty |
| FastListScenarios.QueueDrill | modern-list/src/lib/fast-list.spec.ts:162-169 | the peeks and the dequeued values both read `1, ..., n` |
| FastListScenarios.PushAll | modern-list/src/lib/fast-list.spec.ts:14-19 | pushing `values` one by one onto a new list gives a list holding `values` and an empty cache |
| FastListScenarios.EmptyList | modern-list/src/lib/fast-list.spec.ts:6-12 | a new list iterates nothing, and `get(0)` is `None` |
| FastListScenarios.IterateInOrder | modern-list/src/lib/fast-list.spec.ts:14-26 | after pushing 0, 1, 2, iteration yields `[0, 1, 2]` and `get(num)` yields `num` for each |
| FastListScenarios.GetEachIndex | modern-list/src/lib/fast-list.spec.ts:28-36 | after pushing 0, 1, 2, `get(i)` is `i` for `i < 3` |
| FastListScenarios.MissingIndexes | modern-list/src/lib/fast-list.spec.ts:38-44 | on an empty list, `get` of 0, 1 and 99999 is `None` |
| FastListScenarios.SetIndex | modern-list/src/lib/fast-list.spec.ts:46-51 | on `[10, 20]`, `set(2, 50)` is `null`, and `set(0, 100).get(0)` and `set(1, 200).get(1)` read 100 and 200 |
| FastListScenarios.RemoveHeadRepeatedly | modern-list/src/lib/fast-list.spec.ts:53-64 | removing index 0 of a four-element list four times reads lengths 4, then 3, 2, 1, 0 |
| FastListScenarios.RemoveOnlyElement | modern-list/src/lib/fast-list.spec.ts:66-76 | removing the only element leaves length 0, not initialized, no head and no tail |
| FastListScenarios.RemoveHead | modern-list/src/lib/fast-list.spec.ts:78-88 | removing index 0 of `[0, 1, 2]` leaves length 2 and reads 1, 2 |
| FastListScenarios.RemoveMiddle | modern-list/src/lib/fast-list.spec.ts:90-100 | removing index 1 of `[0, 1, 2]` leaves length 2 and reads 0, 2 |
| FastListScenarios.ToArrayOfTen | modern-list/src/lib/fast-list.spec.ts:102-113 | pushing `0, ..., 9` gives length 10 and an array holding `i` at each index `i` |
| FastListScenarios.CacheHitOnSecondGet | modern-list/src/lib/fast-list.spec.ts:172-195 | on `[0, 1, 2, 3]`, position 3 is not cached before the first `get(3)` and is cached before the second; both read 3 |
| FastListScenarios.FromThenToArray | modern-list/src/lib/fast-list.spec.ts:197-199 | `from([1, 2, 3, 4, 5]).toArray()` is `[1, 2, 3, 4, 5]` |
| FastListScenarios.PushAfterThenToArray | modern-list/src/lib/fast-list.spec.ts:201-204 | `from([10, 20, 30, 40, 50]).pushAfter(2, 99).toArray()` is `[10, 20, 30, 99, 40, 50]` |
| FastListScenarios.SquaresUpToTen | modern-list/src/lib/fast-list.spec.ts:206-213 | mapping the square over `1, ..., 10` gives `1, 4, ..., 100` |
| FastListScenarios.SumUpToTen | modern-list/src/lib/fast-list.spec.ts:224-231 | folding addition over `2, ..., 10` from 1 gives 55 |
| FastListScenarios.MapSquares | modern-list/src/lib/fast-list.spec.ts:206-213 | mapping the square over the list of `1, ..., 10` gives the same as mapping it over the sequence, namely `1, 4, ..., 100` |
| FastListScenarios.FilterEvens | modern-list/src/lib/fast-list.spec.ts:215-222 | filtering the list of `1, ..., 10` by evenness gives the same as filtering the sequence |
| FastListScenarios.ReduceSum | modern-list/src/lib/fast-list.spec.ts:224-231 | reducing the list of `1, ..., 10` by addition, with no initial value, gives the same as reducing the sequence, namely 55 |
| FastListScenarios.LookupTable | modern-list/src/lib/fast-list.spec.ts:233-249 | reducing four people into a table keyed by name files fred, steve, chris and john under ids 1 to 4 |
| FastListScenarios.ForEachSum | modern-list/src/lib/fast-list.spec.ts:251-257 | a summing callback over the list of `1, ..., 10` leaves 55 |
| LinkedListScenarios.Stack.constructor | src/lib/list.spec.ts:159-162 | a new stack is empty |
| LinkedListScenarios.Stack.Push | src/lib/list.spec.ts:171-173 | the value goes on top: `Elements() == [v] + old(Elements())` |
| LinkedListScenarios.Stack.Peek | src/lib/list.spec.ts:168-170 | the top value, or `None` exactly when the stack is empty |
| LinkedListScenarios.Stack.Pop | src/lib/list.spec.ts:163-167 | returns the old top and drops it; on an empty stack, `None` and no change |
| LinkedListScenarios.Queue.constructor | src/lib/list.spec.ts:187-190 | a new queue is empty |
| LinkedListScenarios.Queue.Enqueue | src/lib/list.spec.ts:199-201 | the value goes to the back: `Elements() == old(Elements()) + [v]` |
| LinkedListScenarios.Queue.Peek | src/lib/list.spec.ts:196-198 | the front value, or `None` exactly when the queue is empty |
| LinkedListScenarios.Queue.Dequeue | src/lib/list.spec.ts:191-195 | returns the old front and drops it; on an empty queue, `None` and no change |
| LinkedListScenarios.FillStack | src/lib/list.spec.ts:175-178 | pushing `1, ..., n` leaves `n, ..., 1` on the stack, top first |
| LinkedListScenarios.DrainStack | src/lib/list.spec.ts:179-182 | on an `int` stack, peeking and popping until the peek is empty reads the whole stack top to bottom, twice over, and leaves it empty |
| LinkedListScenarios.StackDrill | src/lib/list.spec.ts:175-182 | the peeks and the pops both read `n, ..., 1` |
| LinkedListScenarios.FillQueue | src/lib/list.spec.ts:203-206 | enqueueing `1, ..., n` leaves `1, ..., n` in the queue, front first |
| LinkedListScenarios.DrainQueue | src/lib/list.spec.ts:207-210 | on an `int` queue, peeking and dequeueing until the peek is empty reads the whole queue front to back, twice over, and leaves it empty |
| LinkedListScenarios.QueueDrill | src/lib/list.spec.ts:203-210 | the peeks and the dequeued values both read `1, ..., n` |
| LinkedListScenarios.PushAll | src/lib/list.spec.ts:14-20 | pushing `values` one by one onto a new list gives a list holding `values` |
| LinkedListScenarios.EmptyList | src/lib/list.spec.ts:6-12 | a new list iterates nothing, and `lst[0]` is `None` |
| LinkedListScenarios.IterateInOrder | src/lib/list.spec.ts:14-26 | after pushing 0, 1, 2, iteration yields `[0, 1, 2]` and `lst[num]` yields `num` for each |
| LinkedListScenarios.GetEachIndex | src/lib/list.spec.ts:28-49 | after pushing 0, 1, 2, `lst[i]` and `get(i)` are `i` for `i < 3` |
| LinkedListScenarios.MissingIndexes | src/lib/list.spec.ts:51-57 | on an empty list, indexes 0, 1 and 99999 read `None` |
| LinkedListScenarios.SetIndex | src/lib/list.spec.ts:59-64 | on `[10, 20]`, `set(2, 50)` is `null`, and `set(0, 100)[0]` and `set(1, 200)[1]` read 100 and 200 |
| LinkedListScenarios.CompoundAssignment | src/lib/list.spec.ts:66-72 | on `[0, 1]`, `lst[0] += 10` and `lst[1] *= 20` leave 10 and 20 |
| LinkedListScenarios.ChainedAssignment | src/lib/list.spec.ts:74-81 | on `[0, 1]`, `lst[0] = lst[1] = 10` leaves 10 at both indexes |
| LinkedListScenarios.RemoveHeadRepeatedly | src/lib/list.spec.ts:83-94 | removing index 0 of a four-element list four times reads lengths 4, then 3, 2, 1, 0 |
| LinkedListScenarios.RemoveOnlyElement | src/lib/list.spec.ts:96-106 | removing the only element leaves length 0, not initialized, no head and no tail |
| LinkedListScenarios.RemoveHead | src/lib/list.spec.ts:108-118 | removing index 0 of `[0, 1, 2]` leaves length 2 and reads 1, 2 |
| LinkedListScenarios.RemoveMiddle | src/lib/list.spec.ts:120-142 | `remove(1)` or `delete lst[1]` on `[0, 1, 2]` leaves length 2 and reads 0, 2 |
| LinkedListScenarios.ToArrayOfTen | src/lib/list.spec.ts:144-155 | pushing `0, ..., 9` gives length 10 and an array holding `i` at each index `i` |

## Left out

- The implementation files `fast-list.ts`, `list.ts` and `node.ts` are not part of this model. Every behaviour is pinned to what the usage scenarios observe. Where they observe nothing, the model chooses the simplest reading consistent with them:
  - `pushAfter` out of range returns `null` and changes nothing;
  - `remove` out of range does nothing;
  - the cache drops every entry whose position shifts.
- `FastLists.FastList.Reduce`: on an empty list, `reduce(fn)` without an initial value returns `None`, which is the model's choice. The array `reduce` that the scenario compares it with throws a `TypeError` on an empty array with no initial value, and that scenario reduces a non-empty list.
- `Wrappers.Option`: the source answers `null` both for "absent" and for a stored `null` value, and cannot tell the two apart. The model keeps them apart, with `None` for absent and `Some(v)` for a stored value. So `FastLists.FastList.Get`, `FastLists.FastList.First`, `LinkedLists.LinkedList.Get` and `LinkedLists.LinkedList.First` give `None` exactly when the index is out of range or the list is empty, and that matches the source only for lists holding no `null`. For the same reason the source's peek loops stop early at a stored `null`. The drain methods `DrainStack` and `DrainQueue` in both scenario modules therefore take the `int` stacks and queues the drills build, which cannot hold `null`.
- `LinkedLists.LinkedList`: whether the implementation of `LinkedList` caches positions is not visible. Its scenarios observe no cache, so the model has none. A correct cache could not change any result the model states, as `FastLists.FastList.CacheHit` shows for `FastList`.
- Cells are singly linked, with `value` and `next`. A backward link, if the implementation has one, is not modelled.
- The capacity of the position cache is a constructor parameter, because the default is not visible. The scenarios take it as a parameter too. The cache scenario requires it to be positive.
- The least-recently-used eviction order of the external `array-lru` cache is not modelled. When the cache is full, `Record` evicts an arbitrary entry. The model requires only that every entry is correct and that the number of entries is bounded.
- `FastLists.FastList.Find` answers from the cache only on an exact hit, and otherwise walks from the head. A shortcut that starts the walk from a nearby cached position or from the tail would give the same results; it is not modelled.
- `FastLists.FastList.Remove`, `FastLists.FastList.PushAfter`: they keep only the entries before (or up to) the changed position. An implementation that patches shifted entries instead would keep more. Only the weaker promise "what is left is correct" is stated.
- JavaScript `Proxy` and the iterator protocol are not modelled:
  - `lst[i]`, `lst[i] = v` and `delete lst[i]` are `Get`, `Set` and `Remove`;
  - iteration is `ToArray`.
- Indices are integers. A non-integer index such as `3.4` cannot be passed, although the scenarios expect it to read as `null`. JavaScript number semantics are not modelled.
- `FastListScenarios.StackDrill`, `FastListScenarios.QueueDrill`, `LinkedListScenarios.StackDrill`, `LinkedListScenarios.QueueDrill`: the drill size is a parameter `n` rather than the fixed 1000.
- `FastListScenarios.FilterEvens`: it states that filtering the list agrees with filtering the array, which is exactly what the scenario compares. The literal result `2, 4, 6, 8, 10` is not stated.
- The element values of the stack, queue and lookup-table scenarios are modelled as `int` and as a `Person` datatype rather than `any` and object literals. Object spread in the lookup-table reducer is modelled as a map update.
- A callback's side effects in `forEach` are modelled as an environment threaded through a pure function.
- The allocation benchmark `src/lib/perf/alloc/alloc-list-node-new.perf.ts` is only timing and console output, and is not modelled. Neither is its replaceable node allocator.
- `modern-list/src/types.d.ts` only declares the external cache library's types. It is not modelled beyond the abstract bounded cache.
