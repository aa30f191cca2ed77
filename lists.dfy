/** The list operations of .NET's List<T> that the generator relies on. */
module Lists {

  /** List<T>.Remove: drops the first element equal to `v`, if there is one. */
  function RemoveFirst<T(==)>(s: seq<T>, v: T): (r: seq<T>)
    ensures v in s ==> |r| == |s| - 1
    ensures v !in s ==> r == s
  {
    if s == [] then []
    else if s[0] == v then s[1..]
    else [s[0]] + RemoveFirst(s[1..], v)
  }

  /** Remove takes away one occurrence of `v`, and only that. */
  lemma {:induction false} RemoveFirstMultiset<T>(s: seq<T>, v: T)
    ensures multiset(RemoveFirst(s, v)) == multiset(s) - multiset{v}
  {
    if s != [] {
      assert s == [s[0]] + s[1..];
      if s[0] != v {
        RemoveFirstMultiset(s[1..], v);
      }
    }
  }

  /** Remove passes over a prefix that does not hold the value. */
  lemma {:induction false} RemoveFirstSkips<T>(a: seq<T>, b: seq<T>, v: T)
    requires v !in a
    ensures RemoveFirst(a + b, v) == a + RemoveFirst(b, v)
  {
    if a == [] {
      assert a + b == b;
    } else {
      assert (a + b)[0] == a[0];
      assert (a + b)[1..] == a[1..] + b;
      RemoveFirstSkips(a[1..], b, v);
      assert a == [a[0]] + a[1..];
    }
  }

  /** When no earlier element equals s[k], Remove(s[k]) removes exactly index k. */
  lemma RemoveFirstAt<T>(s: seq<T>, k: nat)
    requires k < |s| && s[k] !in s[..k]
    ensures RemoveFirst(s, s[k]) == s[..k] + s[k + 1..]
  {
    var v, t := s[k], s[k..];
    assert s == s[..k] + t;
    RemoveFirstSkips(s[..k], t, v);
    assert t[0] == v && t[1..] == s[k + 1..];
    assert RemoveFirst(t, v) == s[k + 1..];
  }

  predicate Distinct<T(==)>(s: seq<T>)
  {
    forall i, j :: 0 <= i < j < |s| ==> s[i] != s[j]
  }

  /** In a list without duplicates every value occurs at most once. */
  lemma {:induction false} DistinctOnce<T>(s: seq<T>, v: T)
    requires Distinct(s)
    ensures multiset(s)[v] <= 1
  {
    if s != [] {
      assert s == [s[0]] + s[1..];
      DistinctOnce(s[1..], v);
      if s[0] == v {
        assert v !in s[1..];
      }
    }
  }

  lemma DistinctAppend<T>(s: seq<T>, t: seq<T>)
    requires Distinct(s) && Distinct(t)
    requires forall i, j :: 0 <= i < |s| && 0 <= j < |t| ==> s[i] != t[j]
    ensures Distinct(s + t)
  {
    var u := s + t;
    forall i, j | 0 <= i < j < |u|
      ensures u[i] != u[j]
    {
      if j < |s| {
        assert u[i] == s[i] && u[j] == s[j];
      } else if i >= |s| {
        assert u[i] == t[i - |s|] && u[j] == t[j - |s|];
      } else {
        assert u[i] == s[i] && u[j] == t[j - |s|];
      }
    }
  }

  lemma AppendFour<T>(q: seq<T>, a: seq<T>, b: seq<T>, c: seq<T>, d: seq<T>)
    ensures q + a + b + c + d == q + (a + b + c + d)
  {
  }

  /** A list drawn without repetition from a list without duplicates has
      no duplicates. */
  lemma SubDistinct<T>(a: seq<T>, s: seq<T>)
    requires multiset(a) <= multiset(s) && Distinct(s)
    ensures Distinct(a)
  {
    forall i, j | 0 <= i < j < |a|
      ensures a[i] != a[j]
    {
      if a[i] == a[j] {
        var v := a[i];
        assert a == a[..j] + [a[j]] + a[j + 1..];
        assert v in a[..j];
        assert multiset(a[..j])[v] >= 1;
        assert multiset(a)[v] >= 2;
        DistinctOnce(s, v);
      }
    }
  }
}
