/**
 * The singly linked list `MyList.LinkedList`: a chain of `Element` nodes
 * owned through `head`, a cached `count`, and a restartable `Enumerator`.
 *
 * Every list method is specified by what it does to the ghost sequence
 * `Contents` of stored values; `Valid()` ties that sequence, the ghost spine
 * `Nodes`, the node links and `count` together.
 */
module MyList {
  import opened Outcomes
  import opened ListSpec

  /** One node of the chain: a stored value and the link to the next node. */
  class Element<T> {
    var data: T
    var next: Element?<T>

    constructor (data: T, next: Element?<T>)
      ensures this.data == data && this.next == next
    {
      this.data := data;
      this.next := next;
    }
  }

  /**
   * `nodes` is the chain starting at `first`, in order, and `values` are the
   * values it stores: each node links to the following one, the last node
   * links to null, and no node occurs twice (the chain is acyclic).
   */
  ghost predicate IsChain<T>(first: Element?<T>, nodes: seq<Element<T>>, values: seq<T>)
    reads nodes
  {
    |nodes| == |values| &&
    first == (if |nodes| == 0 then null else nodes[0]) &&
    (forall i | 0 <= i < |nodes| :: nodes[i].data == values[i]) &&
    (forall i {:trigger nodes[i].next} | 0 <= i < |nodes| - 1 :: nodes[i].next == nodes[i + 1]) &&
    (|nodes| > 0 ==> nodes[|nodes| - 1].next == null) &&
    (forall i, j | 0 <= i < j < |nodes| :: nodes[i] != nodes[j])
  }

  /**
   * The bounds check of the indexer as written in the source: an index equal
   * to `count` is let through, so the indices it accepts are 0 .. count.
   */
  predicate IndexOutOfRangeAsWritten(index: int, count: int): (b: bool)
    ensures !b ==> 0 <= index <= count
    ensures 0 <= index <= count ==> !b
  {
    index < 0 || index > count
  }

  /**
   * The bounds check the indexer documents: the valid indices are
   * 0 .. count - 1. The model's indexer uses this one; it rejects what the
   * check as written rejects, and the index `count` besides.
   */
  predicate IndexOutOfRange(index: int, count: int): (b: bool)
    ensures b <==> IndexOutOfRangeAsWritten(index, count) || index == count
  {
    index < 0 || index >= count
  }

  /**
   * The check as written accepts index `count`, which no element has: on a
   * list of `count` elements the node walk then ends on null (see
   * `GetElementByIndex`) and the indexer dereferences it.
   */
  lemma AsWrittenCheckAdmitsCount(count: nat)
    ensures !IndexOutOfRangeAsWritten(count, count)
    ensures IndexOutOfRange(count, count)
  {
  }

  /**
   * A forward cursor over the chain that started at `head` when it was
   * created. `Position` is the index of the current node in `Chain`, or -1
   * while `run` is null (before the first `MoveNext` and after the end).
   */
  class Enumerator<T> {
    var run: Element?<T>
    const head: Element?<T>
    ghost const Chain: seq<Element<T>>
    ghost const Values: seq<T>
    ghost var Position: int

    ghost predicate Valid()
      reads this, Chain
    {
      IsChain(head, Chain, Values) &&
      -1 <= Position < |Chain| &&
      run == if Position < 0 then null else Chain[Position]
    }

    constructor (head: Element?<T>, ghost chain: seq<Element<T>>, ghost values: seq<T>)
      requires IsChain(head, chain, values)
      ensures Valid() && Chain == chain && Values == values && Position == -1
    {
      this.head := head;
      Chain := chain;
      Values := values;
      run := null;
      Position := -1;
    }

    /** The value of the current node; reading it with no current node is left out. */
    function Current(): (v: T)
      reads this, Chain
      requires Valid() && Position >= 0
      ensures v == Values[Position]
    {
      run.data
    }

    /**
     * Steps to the next node, or to the captured head when there is no
     * current node, so a call after the end starts a new pass.
     */
    method MoveNext() returns (more: bool)
      requires Valid()
      modifies this
      ensures Valid()
      ensures Position == NextPosition(old(Position), |Values|)
      ensures more == (Position >= 0)
    {
      if run == null {
        run := head;
      } else {
        run := run.next;
      }
      Position := NextPosition(Position, |Values|);
      more := run != null;
    }

    method Reset()
      requires Valid()
      modifies this
      ensures Valid() && Position == -1
    {
      run := null;
      Position := -1;
    }
  }

  class LinkedList<T(==)> {
    var head: Element?<T>
    var count: int
    ghost var Contents: seq<T>
    ghost var Nodes: seq<Element<T>>
    ghost var Repr: set<object>

    /**
     * The list's invariant. `Repr` holds the list and its live nodes, and
     * nothing but the list and nodes (unlinked nodes may stay in it).
     */
    ghost predicate Valid()
      reads this, Repr
      ensures Valid() ==> this in Repr
    {
      this in Repr &&
      (forall i | 0 <= i < |Nodes| :: Nodes[i] in Repr) &&
      (forall o: object | o in Repr :: o == this as object || o is Element<T>) &&
      count == |Nodes| &&
      IsChain(head, Nodes, Contents)
    }

    constructor ()
      ensures Valid() && fresh(Repr) && Contents == []
    {
      head := null;
      count := 0;
      Contents := [];
      Nodes := [];
      Repr := {this};
    }

    /** The cached count is the number of nodes, which is zero exactly when there is no head. */
    function Count(): (n: int)
      reads this, Repr
      requires Valid()
      ensures n == |Contents|
      ensures n == 0 <==> head == null
    {
      count
    }

    /**
     * Walks `index` links from the head, for an index the check as written
     * accepts. Below `count` it reaches the node holding `Contents[index]`;
     * at `count`, which that check lets through, it ends on null, and the
     * indexer's `.Data` then dereferences null.
     */
    method GetElementByIndex(index: int) returns (e: Element?<T>)
      requires Valid()
      requires !IndexOutOfRangeAsWritten(index, count)
      ensures index < |Contents| ==> e != null && e == Nodes[index] && e.data == Contents[index]
      ensures index == |Contents| ==> e == null
    {
      var run := head;
      var counter := 0;
      while counter < index
        invariant 0 <= counter <= index
        invariant run == if counter < |Nodes| then Nodes[counter] else null
      {
        run := run.next;
        counter := counter + 1;
      }
      e := run;
    }

    /** The indexer's getter, with the documented bounds check. */
    method Get(index: int) returns (r: Result<T>)
      requires Valid()
      ensures 0 <= index < |Contents| ==> r == Success(Contents[index])
      ensures !(0 <= index < |Contents|) ==> r == Failure(ArgumentOutOfRange)
    {
      if IndexOutOfRange(index, count) {
        return Failure(ArgumentOutOfRange);
      }
      var element := GetElementByIndex(index);
      return Success(element.data);
    }

    /** The indexer's setter, with the documented bounds check. */
    method Set(index: int, value: T) returns (r: Outcome)
      requires Valid()
      modifies Repr
      ensures Valid() && Repr == old(Repr)
      ensures 0 <= index < |old(Contents)| ==> r == Pass && Contents == old(Contents)[index := value]
      ensures !(0 <= index < |old(Contents)|) ==> r == Fail(ArgumentOutOfRange) && Contents == old(Contents)
    {
      if IndexOutOfRange(index, count) {
        return Fail(ArgumentOutOfRange);
      }
      var element := GetElementByIndex(index);
      element.data := value;
      Contents := Contents[index := value];
      return Pass;
    }

    method Add(item: Option<T>) returns (r: Outcome)
      requires Valid()
      modifies Repr
      ensures Valid() && fresh(Repr - old(Repr))
      ensures item.None? ==> r == Fail(ArgumentNull) && Contents == old(Contents)
      ensures item.Some? ==> r == Pass && Contents == old(Contents) + [item.value]
    {
      if item.None? {
        return Fail(ArgumentNull);
      }
      var newElement := new Element(item.value, null);
      if head == null {
        head := newElement;
      } else {
        var current := head;
        ghost var k := 0;
        while current.next != null
          invariant 0 <= k < |Nodes| && current == Nodes[k]
          decreases |Nodes| - k
        {
          current := current.next;
          k := k + 1;
        }
        current.next := newElement;
      }
      count := count + 1;
      Nodes := Nodes + [newElement];
      Contents := Contents + [item.value];
      Repr := Repr + {newElement};
      return Pass;
    }

    method Clear()
      requires Valid()
      modifies this
      ensures Valid() && Repr == old(Repr)
      ensures Contents == []
    {
      head := null;
      count := 0;
      Nodes := [];
      Contents := [];
    }

    /**
     * The splice shared by `Remove` and `RemoveAt`: the node after `prev`,
     * at position `k + 1`, is unlinked by `prev.Next = prev.Next.Next`.
     */
    method UnlinkNext(prev: Element<T>, ghost k: int)
      requires Valid() && 0 <= k < |Nodes| - 1 && prev == Nodes[k]
      modifies this, prev
      ensures Valid() && Repr == old(Repr)
      ensures Contents == DeleteAt(old(Contents), k + 1)
    {
      prev.next := prev.next.next;
      count := count - 1;
      Nodes := DeleteAt(Nodes, k + 1);
      Contents := DeleteAt(Contents, k + 1);
    }

    method Remove(item: Option<T>) returns (r: Outcome)
      requires Valid()
      modifies Repr
      ensures Valid() && Repr == old(Repr)
      ensures item.None? ==> r == Fail(ArgumentNull) && Contents == old(Contents)
      ensures item.Some? ==> r == Pass && Contents == RemoveFirst(old(Contents), item.value)
    {
      if item.None? {
        return Fail(ArgumentNull);
      }
      var x := item.value;
      if head == null {
        return Pass;
      }
      if head.data == x {
        head := head.next;
        count := count - 1;
        Nodes := Nodes[1..];
        Contents := Contents[1..];
        return Pass;
      }
      var run := head;
      ghost var k := 0;
      while run.next != null
        invariant Valid() && Repr == old(Repr)
        invariant Nodes == old(Nodes) && Contents == old(Contents)
        invariant 0 <= k < |Nodes| && run == Nodes[k]
        invariant forall j | 0 <= j <= k :: Contents[j] != x
        decreases |Nodes| - k
      {
        if run.next.data == x {
          RemoveFirstAt(Contents, x, k + 1);
          UnlinkNext(run, k);
          return Pass;
        }
        run := run.next;
        k := k + 1;
      }
      RemoveFirstAbsent(Contents, x);
      return Pass;
    }

    method RemoveAt(index: int) returns (r: Outcome)
      requires Valid()
      modifies Repr
      ensures Valid() && Repr == old(Repr)
      ensures 0 <= index < |old(Contents)| ==> r == Pass && Contents == DeleteAt(old(Contents), index)
      ensures !(0 <= index < |old(Contents)|) ==> r == Fail(ArgumentOutOfRange) && Contents == old(Contents)
    {
      if index < 0 || index >= count {
        return Fail(ArgumentOutOfRange);
      }
      if index == 0 {
        head := head.next;
      } else {
        var current := head;
        for i := 0 to index - 1
          invariant current == Nodes[i]
        {
          current := current.next;
        }
        UnlinkNext(current, index - 1);
        return Pass;
      }
      count := count - 1;
      Nodes := Nodes[1..];
      Contents := Contents[1..];
      return Pass;
    }

    method Insert(index: int, item: Option<T>) returns (r: Outcome)
      requires Valid()
      modifies Repr
      ensures Valid() && fresh(Repr - old(Repr))
      ensures item.None? ==> r == Fail(ArgumentNull) && Contents == old(Contents)
      ensures item.Some? && !(0 <= index <= |old(Contents)|) ==>
                r == Fail(ArgumentOutOfRange) && Contents == old(Contents)
      ensures item.Some? && 0 <= index <= |old(Contents)| ==>
                r == Pass && Contents == InsertAt(old(Contents), index, item.value)
    {
      if item.None? {
        return Fail(ArgumentNull);
      }
      if index < 0 || index > count {
        return Fail(ArgumentOutOfRange);
      }
      var newElement := new Element(item.value, null);
      if head == null || index == 0 {
        LinkFirst(newElement);
        assert Contents == InsertAt(old(Contents), 0, item.value);
      } else {
        var current := head;
        var counter := 0;
        while counter < index - 1
          invariant 0 <= counter <= index - 1 && current == Nodes[counter]
        {
          current := current.next;
          counter := counter + 1;
        }
        LinkAfter(current, counter, newElement);
      }
      return Pass;
    }

    /**
     * The splice of `Insert` at the head: the detached node `e` becomes the
     * first node, by `e.Next = head` and `head = e`.
     */
    method LinkFirst(e: Element<T>)
      requires Valid() && e !in Repr
      modifies this, e
      ensures Valid() && Repr == old(Repr) + {e}
      ensures Contents == [old(e.data)] + old(Contents)
    {
      e.next := head;
      head := e;
      count := count + 1;
      Nodes := [e] + Nodes;
      Contents := [e.data] + Contents;
      Repr := Repr + {e};
    }

    /**
     * The splice of `Insert` past the head: the detached node `e` is linked
     * in after `prev`, at position `k + 1`, by `e.Next = prev.Next` and
     * `prev.Next = e`.
     */
    method LinkAfter(prev: Element<T>, ghost k: int, e: Element<T>)
      requires Valid() && 0 <= k < |Nodes| && prev == Nodes[k] && e !in Repr
      modifies this, prev, e
      ensures Valid() && Repr == old(Repr) + {e}
      ensures Contents == InsertAt(old(Contents), k + 1, old(e.data))
    {
      e.next := prev.next;
      prev.next := e;
      count := count + 1;
      Nodes := InsertAt(Nodes, k + 1, e);
      Contents := InsertAt(Contents, k + 1, e.data);
      Repr := Repr + {e};
    }

    method CopyTo(a: array?<T>, arrayIndex: int) returns (r: Outcome)
      requires Valid()
      modifies a
      ensures Valid()
      ensures a == null ==> r == Fail(ArgumentNull)
      ensures a != null && (arrayIndex < 0 || arrayIndex > a.Length) ==>
                r == Fail(ArgumentOutOfRange) && a[..] == old(a[..])
      ensures a != null && 0 <= arrayIndex <= a.Length && |Contents| > a.Length - arrayIndex ==>
                r == Fail(InsufficientSpace) && a[..] == old(a[..])
      ensures a != null && 0 <= arrayIndex && |Contents| <= a.Length - arrayIndex ==>
                r == Pass &&
                forall j | 0 <= j < a.Length ::
                  a[j] == if arrayIndex <= j < arrayIndex + |Contents| then Contents[j - arrayIndex] else old(a[j])
    {
      if a == null {
        return Fail(ArgumentNull);
      }
      if arrayIndex < 0 || arrayIndex > a.Length {
        return Fail(ArgumentOutOfRange);
      }
      if count > a.Length - arrayIndex {
        return Fail(InsufficientSpace);
      }
      var current := head;
      var i := arrayIndex;
      while current != null
        invariant arrayIndex <= i <= arrayIndex + |Nodes|
        invariant current == if i - arrayIndex < |Nodes| then Nodes[i - arrayIndex] else null
        invariant forall j | 0 <= j < a.Length ::
                    a[j] == if arrayIndex <= j < i then Contents[j - arrayIndex] else old(a[j])
        decreases arrayIndex + |Nodes| - i
      {
        a[i] := current.data;
        current := current.next;
        i := i + 1;
      }
      return Pass;
    }

    method GetLast() returns (r: Result<T>)
      requires Valid()
      ensures |Contents| == 0 ==> r == Failure(InvalidOperation)
      ensures |Contents| > 0 ==> r == Success(Contents[|Contents| - 1])
    {
      if head == null {
        return Failure(InvalidOperation);
      }
      var current := head;
      ghost var k := 0;
      while current.next != null
        invariant 0 <= k < |Nodes| && current == Nodes[k]
        decreases |Nodes| - k
      {
        current := current.next;
        k := k + 1;
      }
      return Success(current.data);
    }

    method RemoveLast() returns (r: Outcome)
      requires Valid()
      modifies Repr
      ensures Valid() && Repr == old(Repr)
      ensures |old(Contents)| == 0 ==> r == Fail(InvalidOperation) && Contents == old(Contents)
      ensures |old(Contents)| > 0 ==> r == Pass && Contents == old(Contents)[..|old(Contents)| - 1]
    {
      if head == null {
        return Fail(InvalidOperation);
      }
      if head.next == null {
        head := null;
        count := count - 1;
        Nodes := [];
        Contents := [];
        return Pass;
      }
      var current := head;
      ghost var k := 0;
      while current.next.next != null
        invariant 0 <= k < |Nodes| - 1 && current == Nodes[k]
        decreases |Nodes| - k
      {
        current := current.next;
        k := k + 1;
      }
      current.next := null;
      count := count - 1;
      Nodes := Nodes[..k + 1];
      Contents := Contents[..k + 1];
      return Pass;
    }

    method ContainsValue(value: Option<T>) returns (r: Result<bool>)
      requires Valid()
      ensures value.None? ==> r == Failure(ArgumentNull)
      ensures value.Some? ==> r == Success(value.value in Contents)
    {
      if value.None? {
        return Failure(ArgumentNull);
      }
      var current := head;
      ghost var k := 0;
      while current != null
        invariant 0 <= k <= |Nodes|
        invariant current == if k < |Nodes| then Nodes[k] else null
        invariant value.value !in Contents[..k]
        decreases |Nodes| - k
      {
        if current.data == value.value {
          return Success(true);
        }
        current := current.next;
        k := k + 1;
      }
      assert Contents[..k] == Contents;
      return Success(false);
    }

    method IndexOfValue(value: Option<T>) returns (r: Result<int>)
      requires Valid()
      ensures value.None? ==> r == Failure(ArgumentNull)
      ensures value.Some? ==> r.Success? && -1 <= r.value < |Contents|
      ensures value.Some? ==> (r.value == -1 <==> value.value !in Contents)
      ensures value.Some? && r.value >= 0 ==>
                Contents[r.value] == value.value &&
                forall j | 0 <= j < r.value :: Contents[j] != value.value
    {
      if value.None? {
        return Failure(ArgumentNull);
      }
      var index := 0;
      var current := head;
      while current != null
        invariant 0 <= index <= |Nodes|
        invariant current == if index < |Nodes| then Nodes[index] else null
        invariant forall j | 0 <= j < index :: Contents[j] != value.value
        decreases |Nodes| - index
      {
        if current.data == value.value {
          return Success(index);
        }
        current := current.next;
        index := index + 1;
      }
      return Success(-1);
    }

    method ToArray() returns (a: array<T>)
      requires Valid()
      ensures fresh(a) && a[..] == Contents
    {
      // The source allocates an array of nulls; the model's element type has
      // no null, so a non-empty array starts out filled with the first value,
      // and every cell is overwritten by the loop.
      if head == null {
        return new T[0];
      }
      var first := head.data;
      a := new T[count](_ => first);
      var i := 0;
      var current := head;
      while current != null
        invariant 0 <= i <= |Nodes|
        invariant current == if i < |Nodes| then Nodes[i] else null
        invariant a[..i] == Contents[..i]
        decreases |Nodes| - i
      {
        a[i] := current.data;
        current := current.next;
        i := i + 1;
      }
    }

    /** An enumerator over the chain as it is now, positioned before the first element. */
    method GetEnumerator() returns (e: Enumerator<T>)
      requires Valid()
      ensures fresh(e) && e.Valid() && e.Chain == Nodes && e.Values == Contents && e.Position == -1
    {
      e := new Enumerator(head, Nodes, Contents);
    }
  }
}
