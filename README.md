# MyList.LinkedList in Dafny

A model of `MyList.LinkedList`, a singly linked list of non-null objects
with a cached element count, an indexer, value search, export to arrays and
a restartable enumerator, together with proofs of what its operations do.

The model keeps the program's own shape. `Element` is a class with the
mutable fields `data` and `next`. `LinkedList` is a class with the fields
`head` and `count`, and its methods relink nodes in place. `Enumerator` is a
class whose `run` field walks the chain. Three ghost fields give each list
its meaning:

- `Contents` is the sequence of stored values.
- `Nodes` is the chain of nodes from `head`.
- `Repr` is the set of objects the list owns.

`Valid()` ties these to the links and to `count`. The chain is acyclic, it
ends in null, node `i` stores `Contents[i]` and `count == |Contents|`.

Every list method states its result and the new `Contents` in terms of
the old `Contents`. `Insert`, `RemoveAt`, `Remove` and the splice helpers
are proved against functions on sequences in `ListSpec`: `InsertAt`,
`DeleteAt` and `RemoveFirst`. Lemmas there relate these functions to one
another, for example that a deletion undoes an insertion. The other
methods (the indexer, `Add`, `RemoveLast`, `GetLast`, the searches and the
exports) are stated directly with sequence indexing, slicing, concatenation
and membership.

The program's conventions are modelled as follows:

- A null reference argument is `Option.None`.
- A thrown exception is a `Failure`/`Fail` value naming the exception
  (`Outcomes.Error`).
- The enumerator's position is a ghost index, -1 when there is no current
  node. `ListSpec.NextPosition` and `ListSpec.Advance` describe how
  `MoveNext` moves it.

`Clients` holds callers proved from the contracts alone:

- draining an enumerator, which is what a `foreach` or `[.. list]` does;
- round trips over any list;
- concrete scenarios. Some restate expectations of the unit tests in
  `MyListTests/LinkedListTests.cs`: null items, clearing twice, duplicate
  values and the empty list. `AddScenario` states the order of successive
  `Add`s, which those tests check only by count and through enumeration.
  The others (`BuildScenario`, `RemoveScenario`, `EditScenario`,
  `OffByOneScenario`, `EnumeratorScenario` and the index reads in
  `SearchScenario`) exercise `Insert`, `CopyTo`, indices past the end and
  the enumerator's restart, which those tests do not cover.

Where the documentation and the code disagree:

- **Indexer bounds.** The comments on the indexer (`MyList/LinkedList.cs:56`)
  say an index equal to `Count` is rejected. The check at line 99 lets it
  through: the node walk then ends on null, and the indexer's `.Data`
  (lines 63 and 68) dereferences it. The model's `Get` and
  `Set` use the documented bound. The check as written is kept as
  `IndexOutOfRangeAsWritten`; `GetElementByIndex` is specified over the
  indices it admits and ends on null at `Count`. The discrepancy is listed
  under Findings.
- **Enumerator after the end.** `MoveNext` after the last element does not
  stay at the end. Its `run` is null again, so the next call starts from the
  head once more (lines 407-408). The model follows this code, and
  `ListSpec.RestartAfterEnd` states it.

## Model

| member | source | states |
|---|---|---|
| MyList.Element.constructor | MyList/LinkedList.cs:27-31 | the new node stores the given value and link |
| MyList.LinkedList.constructor | MyList/LinkedList.cs:111-115 | a new list is valid, owns only fresh objects and is empty |
| MyList.LinkedList.Count | MyList/LinkedList.cs:48 | the cached count equals the number of stored values, and is zero exactly when there is no head |
| MyList.IndexOutOfRangeAsWritten | MyList/LinkedList.cs:97-101 | the check as written accepts exactly the indices `0 .. Count`, including `Count` itself |
| MyList.IndexOutOfRange | MyList/LinkedList.cs:56 | the documented check rejects everything the check as written rejects, and the index `Count` besides |
| MyList.LinkedList.GetElementByIndex | MyList/LinkedList.cs:79-89 | for any index the check as written admits, walking `index` links from the head reaches the node holding value `index`; at `index == Count` it reaches null |
| MyList.LinkedList.Get | MyList/LinkedList.cs:57-64 | an index in `0 .. Count-1` yields the value stored there; any other index fails with ArgumentOutOfRange |
| MyList.LinkedList.Set | MyList/LinkedList.cs:65-69 | an index in range replaces exactly that value and leaves the others; an index out of range fails with ArgumentOutOfRange and changes nothing |
| MyList.LinkedList.Add | MyList/LinkedList.cs:125-147 | a null item fails with ArgumentNull and changes nothing; otherwise the item is appended after the last value |
| MyList.LinkedList.Clear | MyList/LinkedList.cs:152-156 | the list becomes empty and stays valid |
| MyList.LinkedList.UnlinkNext | MyList/LinkedList.cs:187 | bypassing the node after node `k` deletes the value at position `k + 1` |
| MyList.LinkedList.Remove | MyList/LinkedList.cs:163-193 | a null item fails with ArgumentNull; otherwise exactly the first occurrence of the item is removed, and nothing changes when it is absent |
| MyList.LinkedList.RemoveAt | MyList/LinkedList.cs:200-221 | an index in range deletes the value at that index; any other index fails with ArgumentOutOfRange and changes nothing |
| MyList.LinkedList.LinkFirst | MyList/LinkedList.cs:238-242 | linking a detached node in front puts its value at position 0 |
| MyList.LinkedList.LinkAfter | MyList/LinkedList.cs:252-253 | linking a detached node after node `k` puts its value at position `k + 1` and shifts the later values on |
| MyList.LinkedList.Insert | MyList/LinkedList.cs:229-257 | a null item fails with ArgumentNull, checked before the index; an index outside `0 .. Count` fails with ArgumentOutOfRange; otherwise the item is inserted before position `index`, and `index == Count` appends |
| MyList.LinkedList.CopyTo | MyList/LinkedList.cs:267-286 | the failures come in the source's order: a null array, then an index outside `0 .. Length`, then too little room; both index failures leave the array untouched; on success, positions `arrayIndex ..` hold the values in order and every other array slot keeps its old value |
| MyList.LinkedList.GetLast | MyList/LinkedList.cs:293-303 | an empty list fails with InvalidOperation; otherwise the result is the last value |
| MyList.LinkedList.RemoveLast | MyList/LinkedList.cs:309-327 | an empty list fails with InvalidOperation and changes nothing; otherwise only the last value is dropped |
| MyList.LinkedList.ContainsValue | MyList/LinkedList.cs:335-349 | a null value fails with ArgumentNull; otherwise the result is true exactly when the value is stored |
| MyList.LinkedList.IndexOfValue | MyList/LinkedList.cs:357-373 | a null value fails with ArgumentNull; otherwise the result is -1 exactly when the value is absent, and otherwise is the index of its first occurrence |
| MyList.LinkedList.ToArray | MyList/LinkedList.cs:379-391 | a fresh array of length `Count` holds the values in list order |
| MyList.LinkedList.GetEnumerator | MyList/LinkedList.cs:421 | a fresh enumerator that walks the list's own chain of nodes (its head captured), hence exactly the list's values, positioned before the first |
| MyList.Enumerator.constructor | MyList/LinkedList.cs:399-400 | an enumerator starts with no current node, before the first value |
| MyList.Enumerator.Current | MyList/LinkedList.cs:401 | the current value is the value at the enumerator's position |
| MyList.Enumerator.MoveNext | MyList/LinkedList.cs:405-412 | the position moves on by one; past the last value it goes to "none" and reports false; from "none" it moves to the first value |
| MyList.Enumerator.Reset | MyList/LinkedList.cs:414 | the enumerator returns to the state before the first value |
| MyList.AsWrittenCheckAdmitsCount | MyList/LinkedList.cs:97-101 | the bounds check as written accepts the index `Count`, which the documented check rejects |
| ListSpec.InsertAt | MyList/LinkedList.cs:229-257 | the inserted value sits at the index, the earlier values keep their positions, and the later ones move up by one |
| ListSpec.DeleteAt | MyList/LinkedList.cs:200-221 | the values before the index keep their positions and the later ones move down by one |
| ListSpec.RemoveFirst | MyList/LinkedList.cs:163-193 | removing a value shortens the sequence by one exactly when the value occurs |
| ListSpec.RemoveFirstAbsent | MyList/LinkedList.cs:183-192 | removing a value that does not occur changes nothing |
| ListSpec.RemoveFirstAt | MyList/LinkedList.cs:174-190 | when position `k` is the first occurrence, removing the value deletes position `k` |
| ListSpec.RemoveFirstMultiset | MyList/LinkedList.cs:163-193 | removal takes exactly one occurrence of the value out of the multiset of values |
| ListSpec.AppendIsInsertAtEnd | MyList/LinkedList.cs:125-147 | appending is inserting at index `Count` |
| ListSpec.DeleteAfterInsert | MyList/LinkedList.cs:229-257 | deleting at the index just inserted at restores the sequence |
| ListSpec.InsertAfterDelete | MyList/LinkedList.cs:200-221 | putting a deleted value back at its index restores the sequence |
| ListSpec.DeleteLastIsPrefix | MyList/LinkedList.cs:309-327 | removing the last value is deleting at index `Count - 1` |
| ListSpec.NextPosition | MyList/LinkedList.cs:405-412 | one `MoveNext` keeps the position within the values or at "none", moves it on by exactly one when it lands on a value, and lands on "none" exactly when the last value has been passed |
| ListSpec.Advance | MyList/LinkedList.cs:405-412 | any number of `MoveNext` calls keep the position within the values or at "none" |
| ListSpec.AdvanceWithin | MyList/LinkedList.cs:405-412 | before the end, each `MoveNext` moves exactly one value on |
| ListSpec.AdvanceSplit | MyList/LinkedList.cs:405-412 | `a + b` calls of `MoveNext` are `a` calls followed by `b` calls |
| ListSpec.FullPass | MyList/LinkedList.cs:405-412 | on `n` values, calls 1 to `n` reach values 0 to `n - 1` in order, and call `n + 1` reports the end |
| ListSpec.RestartAfterEnd | MyList/LinkedList.cs:407-408 | after the end is reported, further calls repeat the same pass from the first value |
| Clients.Collect | MyListTests/LinkedListTests.cs:359-378 | draining an enumerator with `MoveNext`/`Current` yields exactly the stored values in order |
| Clients.InsertThenRemoveAt | MyList/LinkedList.cs:200-257 | inserting at a valid index and then removing at the same index leaves the list unchanged |
| Clients.AddThenRemoveLast | MyList/LinkedList.cs:125-147 | adding a value and then removing the last one leaves the list unchanged |
| Clients.SetThenGet | MyList/LinkedList.cs:57-69 | writing at an index in range replaces only that value and reading it back yields the written value; out of range both the write and the read fail with ArgumentOutOfRange and the list is unchanged |
| Clients.AddScenario | MyList/LinkedList.cs:125-147 | adding four items in order to a new list stores them in that order |
| Clients.BuildScenario | MyList/LinkedList.cs:229-257 | inserting in the middle of a four-value list puts the item at that index |
| Clients.RemoveScenario | MyList/LinkedList.cs:163-221 | removing by value and then by index 0 leaves the expected three values |
| Clients.DuplicateList | MyListTests/LinkedListTests.cs:328-340 | adding 1, 2, 1 keeps the duplicate |

## Left out

- MyList.LinkedList.Set: the source's setter stores a null value without complaint. The model's element type has no null, so that case cannot arise. At index `Count` the setter follows the documented bound, as `Get` does.
- MyList.LinkedList.Get: this follows the documented bound. The index `Count` fails with ArgumentOutOfRange. The source as written lets that index through and then raises a NullReferenceException. That path is described by `IndexOutOfRangeAsWritten`, `GetElementByIndex` and `AsWrittenCheckAdmitsCount`, not run through `Get`.
- MyList.Enumerator.Current: reading `Current` with no current node is a precondition. This covers before the first `MoveNext` and after the end. The source raises a NullReferenceException there.
- MyList.LinkedList.ToArray: the source allocates an array of nulls before filling it. The model's element type has no null, so a non-empty array starts out holding the first value; the loop overwrites every cell, so the result is the same.
- Mutating the list while an enumerator is live is not modelled. The enumerator's contract describes the chain as it was when the enumerator was created.
- `Dispose`, and the two explicit interface versions of `GetEnumerator`, are not modelled. `Dispose` does nothing, and the interface versions return the same enumerator as the public one.
- `count` is an unbounded integer. A 32-bit overflow after 2^31 additions is not modelled.
- Equality is Dafny's `==` on the element type, standing for `object.Equals`. Overridden `Equals` methods and their dispatch are not modelled.
- `CopyTo`'s `System.Array` is a Dafny `array?<T>`. The type and rank checks `Array.SetValue` performs are not modelled.
- Unlinked nodes stay in the ghost footprint `Repr`. Collecting them as garbage has no counterpart.
- `MyList/IList.cs` and `MyList/Program.cs` are not part of this model. They are an interface declaration and a console demo.
- Test-framework mechanics, such as attributes, `Assert` and expected exceptions, are outside the model. The `Clients` scenarios state the same expectations as proved assertions.

## Findings

| source | as written | input that shows it | evidently intended | confidence | as-written member | corrected member |
|---|---|---|---|---|---|---|
| MyList/LinkedList.cs:99 | `index < 0 \|\| index > Count` lets `index == Count` through to the node walk | a one-element list read or written at index 1: the walk ends on null and `.Data` dereferences it (`Clients.OffByOneScenario`) | `index < 0 \|\| index >= Count`, as the comments at lines 56, 78 and 96 state | high; not executed | MyList.LinkedList.GetElementByIndex | MyList.LinkedList.Get |
