/** The Java `null`-or-value idiom, as an explicit option type. */
module Options {

  datatype Option<+T> = None | Some(value: T)
}

/**
 * Sequence helpers shared by the expiry list and the pool buckets: the
 * identity scan and first-occurrence removal of `java.util.LinkedList`.
 */
module Seqs {

  /** No element occurs twice. */
  predicate NoDup<T(==)>(s: seq<T>) {
    forall i, j | 0 <= i < j < |s| :: s[i] != s[j]
  }

  /** Index of the first occurrence of `x`, or `|s|` when there is none. */
  function IndexOf<T(==)>(s: seq<T>, x: T): (i: nat)
    ensures i <= |s|
    ensures i < |s| <==> x in s
    ensures i < |s| ==> s[i] == x
    ensures forall j | 0 <= j < i :: s[j] != x
  {
    if |s| == 0 then 0
    else if s[0] == x then 0
    else 1 + IndexOf(s[1..], x)
  }

  /** `LinkedList.remove(Object)`: drops the first occurrence of `x`, if any. */
  function RemoveFirst<T(==)>(s: seq<T>, x: T): (r: seq<T>)
    ensures x !in s ==> r == s
    ensures x in s ==> |r| == |s| - 1
    ensures multiset(r) == multiset(s) - multiset{x}
  {
    var i := IndexOf(s, x);
    if i < |s| then
      assert s == s[..i] + [x] + s[i+1..];
      s[..i] + s[i+1..]
    else
      s
  }

  /** Membership after a removal: every other element stays, and on a
      duplicate-free sequence the removed one is gone. */
  lemma RemoveFirstMembership<T>(s: seq<T>, x: T)
    requires NoDup(s)
    ensures NoDup(RemoveFirst(s, x))
    ensures forall y :: y in RemoveFirst(s, x) <==> y in s && y != x
  {
    var i := IndexOf(s, x);
    if i < |s| {
      DeleteNoDup(s, i);
    }
  }

  /** Deleting the element at `i` from a duplicate-free sequence keeps it
      duplicate-free and removes exactly that element. */
  lemma DeleteNoDup<T>(s: seq<T>, i: nat)
    requires NoDup(s) && i < |s|
    ensures NoDup(s[..i] + s[i+1..])
    ensures forall y :: y in s[..i] + s[i+1..] <==> y in s && y != s[i]
  {
    var a, b := s[..i], s[i+1..];
    assert s == a + [s[i]] + b;
    SplitNoDup(s, i);
    SplitNoDup(s[i..], 1);
    assert s[i..] == [s[i]] + b;
    assert s[i..][1..] == b;
    forall j, k | 0 <= j < |a| && 0 <= k < |b|
      ensures a[j] != b[k]
    {
      assert a[j] == s[j] && b[k] == s[i + 1 + k];
    }
    AppendDisjointNoDup(a, b);
  }

  /** Two duplicate-free sequences with no common element concatenate to a
      duplicate-free sequence. */
  lemma AppendDisjointNoDup<T>(a: seq<T>, b: seq<T>)
    requires NoDup(a) && NoDup(b)
    requires forall j, k | 0 <= j < |a| && 0 <= k < |b| :: a[j] != b[k]
    ensures NoDup(a + b)
  {
    var r := a + b;
    forall j, k | 0 <= j < k < |r|
      ensures r[j] != r[k]
    {
      if k < |a| {
        assert r[j] == a[j] && r[k] == a[k];
      } else if j >= |a| {
        assert r[j] == b[j - |a|] && r[k] == b[k - |a|];
      } else {
        assert r[j] == a[j] && r[k] == b[k - |a|];
      }
    }
  }

  /** Appending an absent element keeps a sequence duplicate-free. */
  lemma AppendNoDup<T>(s: seq<T>, x: T)
    requires NoDup(s) && x !in s
    ensures NoDup(s + [x])
  {
  }

  /** Cutting a duplicate-free sequence in two gives two duplicate-free,
      disjoint halves that together hold every element. */
  lemma SplitNoDup<T>(s: seq<T>, k: nat)
    requires NoDup(s) && k <= |s|
    ensures NoDup(s[..k]) && NoDup(s[k..])
    ensures forall x :: x in s <==> x in s[..k] || x in s[k..]
    ensures forall x :: x in s[k..] ==> x !in s[..k]
  {
    assert s == s[..k] + s[k..];
  }

  /** Inserting an absent element anywhere keeps a sequence duplicate-free
      and adds exactly that element. */
  lemma InsertNoDup<T>(s: seq<T>, i: nat, x: T)
    requires NoDup(s) && x !in s && i <= |s|
    ensures NoDup(s[..i] + [x] + s[i..])
    ensures forall y :: y in s[..i] + [x] + s[i..] <==> y in s || y == x
  {
    var r := s[..i] + [x] + s[i..];
    assert s == s[..i] + s[i..];
    forall a, b | 0 <= a < b < |r|
      ensures r[a] != r[b]
    {
      if a == i {
        assert r[b] == s[b - 1];
      } else if b == i {
        assert r[a] == s[a];
      } else {
        var a' := if a < i then a else a - 1;
        var b' := if b < i then b else b - 1;
        assert r[a] == s[a'] && r[b] == s[b'];
      }
    }
  }

  /** Cutting a sequence after its head and `k` more elements. */
  lemma ConsSlices<T>(s: seq<T>, k: nat)
    requires k < |s|
    ensures s[..1 + k] == [s[0]] + s[1..][..k]
    ensures s[1 + k..] == s[1..][k..]
  {
  }

  /** The tail of a duplicate-free sequence is duplicate-free and does not
      hold its head. */
  lemma TailNoDup<T>(s: seq<T>)
    requires NoDup(s) && |s| > 0
    ensures NoDup(s[1..]) && s[0] !in s[1..]
  {
    forall j | 0 <= j < |s| - 1
      ensures s[1..][j] != s[0]
    {
      assert s[1..][j] == s[j + 1];
    }
  }

  /** Inserting an element that is already present makes a duplicate. */
  lemma InsertPresentDuplicates<T>(s: seq<T>, i: nat, x: T)
    requires x in s && i <= |s|
    ensures !NoDup(s[..i] + [x] + s[i..])
  {
    var r := s[..i] + [x] + s[i..];
    var j :| 0 <= j < |s| && s[j] == x;
    if j < i {
      assert r[j] == x && r[i] == x;
    } else {
      assert r[i] == x && r[j + 1] == x;
    }
  }

  /** Dropping the last element of a duplicate-free sequence removes exactly
      that element. */
  lemma DropLastMembership<T>(s: seq<T>)
    requires NoDup(s) && |s| > 0
    ensures NoDup(s[..|s| - 1])
    ensures forall y :: y in s[..|s| - 1] <==> y in s && y != s[|s| - 1]
  {
    var n := |s|;
    assert s == s[..n - 1] + [s[n - 1]];
  }
}
