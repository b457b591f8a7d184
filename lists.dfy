/** The java.util.List operations the user service applies to an account list. */
module Lists {

  /** No number occurs twice. */
  predicate NoDuplicates(s: seq<int>) {
    forall i, j :: 0 <= i < j < |s| ==> s[i] != s[j]
  }

  /** List.indexOf: the position of the first occurrence of `x`. */
  function IndexOf(s: seq<int>, x: int): (i: nat)
    requires x in s
    ensures i < |s| && s[i] == x && x !in s[..i]
  {
    if s[0] == x then 0 else 1 + IndexOf(s[1..], x)
  }

  /**
   * List.remove(Object): drop the first occurrence of `x`, keeping the order of
   * the rest; the list is unchanged when `x` does not occur.
   */
  function RemoveFirst(s: seq<int>, x: int): (r: seq<int>)
    ensures x !in s ==> r == s
    ensures x in s ==> r == s[..IndexOf(s, x)] + s[IndexOf(s, x) + 1..]
  {
    if s == [] then []
    else if s[0] == x then s[1..]
    else
      var rest := RemoveFirst(s[1..], x);
      if x in s[1..] then
        var i := IndexOf(s[1..], x);
        assert IndexOf(s, x) == i + 1;
        assert s[..i + 1] == [s[0]] + s[1..][..i];
        assert s[i + 2..] == s[1..][i + 1..];
        [s[0]] + rest
      else
        assert s == [s[0]] + s[1..];
        [s[0]] + rest
  }

  /** Removal takes exactly one occurrence of `x` out of the multiset of numbers. */
  lemma {:induction false} RemoveFirstCount(s: seq<int>, x: int)
    ensures multiset(RemoveFirst(s, x)) == multiset(s) - multiset{x}
  {
    if s != [] {
      assert s == [s[0]] + s[1..];
      if s[0] != x {
        RemoveFirstCount(s[1..], x);
      }
    }
  }

  /** Without duplicates, the number is gone and nothing else is lost. */
  lemma {:induction false} RemoveFirstOfDistinct(s: seq<int>, x: int)
    requires NoDuplicates(s)
    ensures x !in RemoveFirst(s, x)
    ensures NoDuplicates(RemoveFirst(s, x))
    ensures forall y :: y != x ==> (y in RemoveFirst(s, x) <==> y in s)
  {
    if x in s {
      var i := IndexOf(s, x);
      var r := RemoveFirst(s, x);
      assert r == s[..i] + s[i + 1..];
      assert |r| == |s| - 1;
      assert forall k :: 0 <= k < |r| ==> r[k] == s[if k < i then k else k + 1];
      forall k | 0 <= k < |r| ensures r[k] != x {
        if k < i { assert s[k] != s[i]; } else { assert s[k + 1] != s[i]; }
      }
      forall a, b | 0 <= a < b < |r| ensures r[a] != r[b] {
        var a', b' := if a < i then a else a + 1, if b < i then b else b + 1;
        assert a' < b' && r[a] == s[a'] && r[b] == s[b'];
      }
      forall y | y != x ensures y in r <==> y in s {
        if y in s {
          var j :| 0 <= j < |s| && s[j] == y;
          assert j != i;
          assert r[if j < i then j else j - 1] == y;
        }
      }
    }
  }

  /** Appending a number that is absent keeps a list free of duplicates. */
  lemma AppendFresh(s: seq<int>, x: int)
    requires NoDuplicates(s) && x !in s
    ensures NoDuplicates(s + [x])
  {
  }
}
