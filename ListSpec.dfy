/**
 * The abstract meaning of the list operations, stated on sequences of
 * stored values, together with the behaviour of an enumerator's position.
 * The linked list's methods are proved against these definitions.
 */
module ListSpec {

  /** `s` with `x` spliced in before position `i`. */
  function InsertAt<T>(s: seq<T>, i: int, x: T): (r: seq<T>)
    requires 0 <= i <= |s|
    ensures |r| == |s| + 1 && r[i] == x
    ensures forall j | 0 <= j < i :: r[j] == s[j]
    ensures forall j | i < j < |r| :: r[j] == s[j - 1]
  {
    s[..i] + [x] + s[i..]
  }

  /** `s` without the element at position `i`. */
  function DeleteAt<T>(s: seq<T>, i: int): (r: seq<T>)
    requires 0 <= i < |s|
    ensures |r| == |s| - 1
    ensures forall j | 0 <= j < i :: r[j] == s[j]
    ensures forall j | i <= j < |r| :: r[j] == s[j + 1]
  {
    s[..i] + s[i + 1..]
  }

  /** `s` without its first element equal to `x`; `s` itself when there is none. */
  function RemoveFirst<T(==)>(s: seq<T>, x: T): (r: seq<T>)
    ensures |r| == if x in s then |s| - 1 else |s|
  {
    if s == [] then []
    else if s[0] == x then s[1..]
    else [s[0]] + RemoveFirst(s[1..], x)
  }

  /** Appending is inserting at the end. */
  lemma AppendIsInsertAtEnd<T>(s: seq<T>, x: T)
    ensures InsertAt(s, |s|, x) == s + [x]
  {
    assert s[..|s|] == s;
  }

  /** Deleting what was just inserted at the same position restores the sequence. */
  lemma DeleteAfterInsert<T>(s: seq<T>, i: int, x: T)
    requires 0 <= i <= |s|
    ensures DeleteAt(InsertAt(s, i, x), i) == s
  {
    var t := InsertAt(s, i, x);
    var d := DeleteAt(t, i);
    assert |d| == |s|;
    forall j | 0 <= j < |s| ensures d[j] == s[j] {
      if j < i {
        assert d[j] == t[j];
      } else {
        assert d[j] == t[j + 1];
      }
    }
  }

  /** Inserting the deleted element back at its position restores the sequence. */
  lemma InsertAfterDelete<T>(s: seq<T>, i: int)
    requires 0 <= i < |s|
    ensures InsertAt(DeleteAt(s, i), i, s[i]) == s
  {
    var d := DeleteAt(s, i);
    var t := InsertAt(d, i, s[i]);
    assert |t| == |s|;
    forall j | 0 <= j < |s| ensures t[j] == s[j] {
      if j < i {
        assert t[j] == d[j];
      } else if i < j {
        assert t[j] == d[j - 1];
      }
    }
  }

  /** Deleting at the last position drops the last element. */
  lemma DeleteLastIsPrefix<T>(s: seq<T>)
    requires |s| > 0
    ensures DeleteAt(s, |s| - 1) == s[..|s| - 1]
  {
    assert s[|s|..] == [];
  }

  /** Removing a value that does not occur changes nothing. */
  lemma {:induction false} RemoveFirstAbsent<T>(s: seq<T>, x: T)
    requires x !in s
    ensures RemoveFirst(s, x) == s
  {
    if s != [] {
      assert s[0] != x;
      assert x !in s[1..];
      RemoveFirstAbsent(s[1..], x);
      assert [s[0]] + s[1..] == s;
    }
  }

  /** When position `k` holds the first occurrence of `x`, removing `x` deletes position `k`. */
  lemma {:induction false} RemoveFirstAt<T>(s: seq<T>, x: T, k: int)
    requires 0 <= k < |s| && s[k] == x
    requires forall j | 0 <= j < k :: s[j] != x
    ensures RemoveFirst(s, x) == DeleteAt(s, k)
  {
    if k == 0 {
      assert s[..0] + s[1..] == s[1..];
    } else {
      var t := s[1..];
      assert t[k - 1] == x;
      forall j | 0 <= j < k - 1 ensures t[j] != x {
        assert t[j] == s[j + 1];
      }
      RemoveFirstAt(t, x, k - 1);
      assert [s[0]] + (t[..k - 1] + t[k..]) == s[..k] + s[k + 1..];
    }
  }

  /** Removing `x` takes exactly one occurrence of `x` out of the multiset of values. */
  lemma {:induction false} RemoveFirstMultiset<T>(s: seq<T>, x: T)
    ensures multiset(RemoveFirst(s, x)) == multiset(s) - multiset{x}
  {
    if s != [] {
      assert s == [s[0]] + s[1..];
      if s[0] != x {
        RemoveFirstMultiset(s[1..], x);
      }
    }
  }

  /**
   * The enumerator's position after one `MoveNext` over `n` values:
   * -1 stands for "no current element", which is both the state before the
   * first call and the state after the last element has been passed.
   */
  function NextPosition(p: int, n: nat): (r: int)
    ensures -1 <= p < n ==> -1 <= r < n
    ensures r >= 0 ==> r == p + 1
    ensures -1 <= p ==> (r == -1 <==> p + 1 >= n)
  {
    if p + 1 < n then p + 1 else -1
  }

  /** The position after `k` consecutive calls of `MoveNext`, starting from `p`. */
  function Advance(p: int, n: nat, k: nat): (r: int)
    ensures -1 <= p < n ==> -1 <= r < n
    decreases k
  {
    if k == 0 then p else Advance(NextPosition(p, n), n, k - 1)
  }

  /** While the end is not reached, each call moves one element on. */
  lemma {:induction false} AdvanceWithin(p: int, n: nat, k: nat)
    requires -1 <= p && p + k < n
    ensures Advance(p, n, k) == p + k
    decreases k
  {
    if k > 0 {
      AdvanceWithin(p + 1, n, k - 1);
    }
  }

  /** `a + b` calls are `a` calls followed by `b` calls. */
  lemma {:induction false} AdvanceSplit(p: int, n: nat, a: nat, b: nat)
    ensures Advance(p, n, a + b) == Advance(Advance(p, n, a), n, b)
    decreases a
  {
    if a > 0 {
      AdvanceSplit(NextPosition(p, n), n, a - 1, b);
    }
  }

  /**
   * A fresh enumerator over `n` values: calls 1 to `n` reach positions 0 to
   * `n - 1` in order, and call `n + 1` reports the end.
   */
  lemma {:induction false} FullPass(n: nat, k: nat)
    requires k <= n
    ensures Advance(-1, n, k) == k - 1
    ensures Advance(-1, n, n + 1) == -1
  {
    AdvanceWithin(-1, n, k);
    AdvanceWithin(-1, n, n);
    AdvanceSplit(-1, n, n, 1);
    assert Advance(n - 1, n, 1) == Advance(NextPosition(n - 1, n), n, 0);
  }

  /**
   * After the end is reported, calling on does not stay at the end: the
   * enumerator starts the same pass over again.
   */
  lemma {:induction false} RestartAfterEnd(n: nat, k: nat)
    ensures Advance(-1, n, n + 1 + k) == Advance(-1, n, k)
  {
    AdvanceSplit(-1, n, n + 1, k);
    FullPass(n, 0);
  }
}
