/**
 * Callers of the list, proved from the list's contracts alone: draining an
 * enumerator, which is what a `foreach` or a collection spread `[.. list]`
 * does; round trips over any list; and concrete scenarios. Some scenarios
 * restate expectations of `MyListTests/LinkedListTests.cs` (null items,
 * clearing twice, duplicates, the empty list); the others exercise paths
 * those tests do not reach, such as `Insert`, `CopyTo`, an index past the
 * end and the enumerator's restart.
 */
module Clients {
  import opened Outcomes
  import opened ListSpec
  import opened MyList

  /**
   * Collects the values an enumerator of `l` yields, calling `MoveNext`
   * until it reports the end: exactly the stored values, in order.
   */
  method Collect<T(==)>(l: LinkedList<T>) returns (vals: seq<T>)
    requires l.Valid()
    ensures vals == l.Contents
  {
    var e := l.GetEnumerator();
    vals := [];
    var more := e.MoveNext();
    while more
      invariant e.Valid() && e.Values == l.Contents
      invariant more <==> e.Position >= 0
      invariant vals == if more then e.Values[..e.Position] else e.Values
      decreases if more then |e.Values| - e.Position else 0
    {
      vals := vals + [e.Current()];
      more := e.MoveNext();
    }
  }

  /** Inserting a value and then removing at the same index leaves the list as it was. */
  method InsertThenRemoveAt<T(==)>(l: LinkedList<T>, index: int, x: T)
    requires l.Valid() && 0 <= index <= |l.Contents|
    modifies l.Repr
    ensures l.Valid() && l.Contents == old(l.Contents)
  {
    var r := l.Insert(index, Some(x));
    r := l.RemoveAt(index);
    DeleteAfterInsert(old(l.Contents), index, x);
  }

  /** Adding a value and then removing the last one leaves the list as it was. */
  method AddThenRemoveLast<T(==)>(l: LinkedList<T>, x: T)
    requires l.Valid()
    modifies l.Repr
    ensures l.Valid() && l.Contents == old(l.Contents)
  {
    var r := l.Add(Some(x));
    r := l.RemoveLast();
    assert (old(l.Contents) + [x])[..|old(l.Contents)|] == old(l.Contents);
  }

  /**
   * A value stored through the indexer is what the indexer reads back; an
   * index out of range makes both accesses fail and changes nothing.
   */
  method SetThenGet<T(==)>(l: LinkedList<T>, index: int, x: T) returns (r: Outcome, g: Result<T>)
    requires l.Valid()
    modifies l.Repr
    ensures l.Valid()
    ensures l.Contents == if 0 <= index < |old(l.Contents)| then old(l.Contents)[index := x] else old(l.Contents)
    ensures 0 <= index < |old(l.Contents)| ==> r == Pass && g == Success(x)
    ensures !(0 <= index < |old(l.Contents)|) ==> r == Fail(ArgumentOutOfRange) && g == Failure(ArgumentOutOfRange)
  {
    r := l.Set(index, x);
    g := l.Get(index);
  }

  /** Adding appends in order. */
  method AddScenario() returns (l: LinkedList<char>)
    ensures l.Valid() && fresh(l.Repr) && l.Contents == ['A', 'B', 'C', 'D']
  {
    l := new LinkedList<char>();
    var r := l.Add(Some('A'));
    r := l.Add(Some('B'));
    r := l.Add(Some('C'));
    r := l.Add(Some('D'));
  }

  /** Inserting in the middle shifts the later values one place on. */
  method BuildScenario() returns (l: LinkedList<char>)
    ensures l.Valid() && fresh(l.Repr) && l.Contents == ['A', 'B', 'X', 'C', 'D']
  {
    l := AddScenario();
    var r := l.Insert(2, Some('X'));
  }

  /** Removal by value and by index. */
  method RemoveScenario() returns (l: LinkedList<char>)
    ensures l.Valid() && fresh(l.Repr) && l.Contents == ['X', 'C', 'D']
  {
    l := BuildScenario();
    RemoveFirstAt(l.Contents, 'B', 1);
    var r := l.Remove(Some('B'));
    assert l.Contents == ['A', 'X', 'C', 'D'];
    r := l.RemoveAt(0);
  }

  /** The last element, its removal and the exports. */
  method EditScenario()
  {
    var l := RemoveScenario();
    var r;
    var last := l.GetLast();
    assert last == Success('D');
    r := l.RemoveLast();
    var a := l.ToArray();
    assert a[..] == ['X', 'C'] && l.Count() == 2;
    var dest := new char[2];
    r := l.CopyTo(dest, 1);
    assert r == Fail(InsufficientSpace);
  }

  /** Null arguments and an empty list. */
  method EmptyScenario()
  {
    var l := new LinkedList<int>();
    var r := l.Add(None);
    assert r == Fail(ArgumentNull) && l.Contents == [];
    r := l.Remove(Some(1));
    assert r == Pass && l.Contents == [];
    var last := l.GetLast();
    assert last == Failure(InvalidOperation);
    r := l.RemoveLast();
    assert r == Fail(InvalidOperation);
    var i := l.IndexOfValue(Some(5));
    assert i == Success(-1);
    var c := l.ContainsValue(None);
    assert c == Failure(ArgumentNull);
    l.Clear();
    assert l.Count() == 0;
  }

  /** A list holding a duplicate value. */
  method DuplicateList() returns (l: LinkedList<int>)
    ensures l.Valid() && fresh(l.Repr) && l.Contents == [1, 2, 1]
  {
    l := new LinkedList<int>();
    var r := l.Add(Some(1));
    r := l.Add(Some(2));
    r := l.Add(Some(1));
  }

  /** Searching finds the first occurrence; absent values and an index past the end. */
  method SearchScenario()
  {
    var l := DuplicateList();
    var i := l.IndexOfValue(Some(1));
    assert i == Success(0);
    var c := l.ContainsValue(Some(3));
    assert c == Success(false);
    var g := l.Get(2);
    assert g == Success(1);
    g := l.Get(3);
    assert g == Failure(ArgumentOutOfRange);
  }

  /** Removing a duplicated value takes only its first occurrence; `Clear` twice. */
  method DuplicateRemovalScenario()
  {
    var l := DuplicateList();
    RemoveFirstAt(l.Contents, 1, 0);
    var r := l.Remove(Some(1));
    assert l.Contents == [2, 1];
    l.Clear();
    l.Clear();
    assert l.Count() == 0;
  }

  /**
   * The indexer's bounds check as written lets the index `Count` through:
   * on a one-element list, index 1 passes it and the node walk ends on null,
   * while the documented check rejects it.
   */
  method OffByOneScenario()
  {
    var l := new LinkedList<int>();
    var r := l.Add(Some(7));
    AsWrittenCheckAdmitsCount(1);
    var e := l.GetElementByIndex(1);
    assert e == null;
    var g := l.Get(1);
    assert g == Failure(ArgumentOutOfRange);
  }

  /** A full pass, the end, the restart the source's `MoveNext` performs, and `Reset`. */
  method EnumeratorScenario()
  {
    var l := new LinkedList<int>();
    var r := l.Add(Some(1));
    r := l.Add(Some(2));
    var e := l.GetEnumerator();
    var more := e.MoveNext();
    assert more && e.Current() == 1;
    more := e.MoveNext();
    assert more && e.Current() == 2;
    more := e.MoveNext();
    assert !more;
    more := e.MoveNext();
    assert more && e.Current() == 1;
    e.Reset();
    more := e.MoveNext();
    assert more && e.Current() == 1;
  }
}
