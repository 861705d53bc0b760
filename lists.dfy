/** Python's `list.remove(x)`: the first occurrence of `x` is taken out of the
    list and the other elements keep their order. */
module Lists {

  /** No element occurs twice (the IFC schema types RelatedElements as a SET). */
  predicate NoDuplicates<T(==)>(s: seq<T>)
  {
    forall i, j :: 0 <= i < j < |s| ==> s[i] != s[j]
  }

  /** The position of the first occurrence of `x` in `s`. */
  function IndexOf<T(==)>(s: seq<T>, x: T): (i: nat)
    requires x in s
    ensures i < |s| && s[i] == x
    ensures x !in s[..i]
  {
    if s[0] == x then 0
    else
      var j := IndexOf(s[1..], x);
      assert s[..j + 1] == [s[0]] + s[1..][..j];
      1 + j
  }

  /** `s` with its first occurrence of `x` removed, as `list.remove` leaves it:
      everything before that occurrence, then everything after it. */
  function RemoveFirst<T(==)>(s: seq<T>, x: T): (r: seq<T>)
    requires x in s
    ensures |r| == |s| - 1
    ensures r == s[..IndexOf(s, x)] + s[IndexOf(s, x) + 1..]
  {
    if s[0] == x then
      assert s == [s[0]] + s[1..];
      s[1..]
    else
      var t := RemoveFirst(s[1..], x);
      var j := IndexOf(s[1..], x);
      assert IndexOf(s, x) == j + 1;
      assert [s[0]] + t == s[..j + 1] + s[j + 2..] by {
        assert s[..j + 1] == [s[0]] + s[1..][..j];
        assert s[j + 2..] == s[1..][j + 1..];
      }
      [s[0]] + t
  }

  /** `remove` takes away exactly one copy of `x` and keeps every other element
      with its multiplicity. */
  lemma RemoveFirstMultiset<T>(s: seq<T>, x: T)
    requires x in s
    ensures multiset(RemoveFirst(s, x)) == multiset(s) - multiset{x}
    ensures forall y :: y != x ==> (y in RemoveFirst(s, x) <==> y in s)
  {
    var i := IndexOf(s, x);
    assert s == s[..i] + [x] + s[i + 1..];
    assert multiset(s) == multiset(s[..i]) + multiset{x} + multiset(s[i + 1..]);
    forall y | y != x ensures y in RemoveFirst(s, x) <==> y in s {
      assert y in RemoveFirst(s, x) <==> y in multiset(RemoveFirst(s, x));
      assert y in s <==> y in multiset(s);
    }
  }

  /** In a duplicate-free list, `remove` takes out the only occurrence, and the
      rest stays duplicate-free. */
  lemma RemoveFirstNoDuplicates<T>(s: seq<T>, x: T)
    requires x in s && NoDuplicates(s)
    ensures x !in RemoveFirst(s, x)
    ensures NoDuplicates(RemoveFirst(s, x))
  {
    var i := IndexOf(s, x);
    var r := RemoveFirst(s, x);
    assert r == s[..i] + s[i + 1..];
    forall a, b | 0 <= a < b < |r| ensures r[a] != r[b] {
      var a' := if a < i then a else a + 1;
      var b' := if b < i then b else b + 1;
      assert r[a] == s[a'] && r[b] == s[b'];
    }
    forall k | 0 <= k < |r| ensures r[k] != x {
      var k' := if k < i then k else k + 1;
      assert r[k] == s[k'] && k' != i;
    }
  }
}
