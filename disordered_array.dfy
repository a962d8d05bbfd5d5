/**
 * DisorderedArray: a growable array whose deleteByIndex moves the last element
 * into the freed slot and shrinks by one. Its own source is not part of this
 * model; the managers rely on exactly this behaviour (they do not advance their
 * index after a delete).
 */
module DisorderedArray {

  /** add: append at the end. */
  function Add<T>(s: seq<T>, x: T): (r: seq<T>)
    ensures |r| == |s| + 1 && r[|s|] == x && r[..|s|] == s
    ensures multiset(r) == multiset(s) + multiset{x}
  {
    s + [x]
  }

  /** deleteByIndex: the last element takes slot i, then the length drops by one. */
  function DeleteByIndex<T>(s: seq<T>, i: nat): (r: seq<T>)
    requires i < |s|
    ensures |r| == |s| - 1
    ensures r[..i] == s[..i]
    ensures i < |r| ==> r[i] == s[|s| - 1] && r[i + 1..] == s[i + 1..|s| - 1]
    ensures multiset(r) == multiset(s) - multiset{s[i]}
  {
    var last := |s| - 1;
    if i == last then
      assert s == s[..last] + [s[last]];
      s[..last]
    else
      var r := s[..i] + [s[last]] + s[i + 1..last];
      assert r[..i] == s[..i] && r[i + 1..] == s[i + 1..last];
      assert s == s[..i] + [s[i]] + s[i + 1..last] + [s[last]];
      r
  }

  /** Every element left after deleteByIndex was there before. */
  lemma DeleteByIndexWithin<T>(s: seq<T>, i: nat)
    requires i < |s|
    ensures forall x {:trigger x in DeleteByIndex(s, i)} :: x in DeleteByIndex(s, i) ==> x in s
  {
    var r := DeleteByIndex(s, i);
    forall x | x in r ensures x in s {
      assert x in multiset(r);
    }
  }

  /** No element occurs twice. */
  ghost predicate Distinct<T>(s: seq<T>) {
    forall j, k :: 0 <= j < k < |s| ==> s[j] != s[k]
  }

  /** Deleting from a sequence without repetitions leaves one without repetitions, minus exactly s[i]. */
  lemma DeleteByIndexDistinct<T>(s: seq<T>, i: nat)
    requires i < |s| && Distinct(s)
    ensures Distinct(DeleteByIndex(s, i))
    ensures forall x :: x in DeleteByIndex(s, i) <==> x in s && x != s[i]
  {
    var r := DeleteByIndex(s, i);
    forall j, k | 0 <= j < k < |r| ensures r[j] != r[k] {
      DeleteByIndexAt(s, i, j);
      DeleteByIndexAt(s, i, k);
    }
    forall x | x in s && x != s[i] ensures x in r {
      var p :| 0 <= p < |s| && s[p] == x;
      var q := if p == |s| - 1 then i else p;
      DeleteByIndexAt(s, i, q);
    }
    forall x | x in r ensures x in s && x != s[i] {
      var j :| 0 <= j < |r| && r[j] == x;
      DeleteByIndexAt(s, i, j);
    }
  }

  /** Slot j after deleteByIndex(i) holds the last element when j is i, and s[j] otherwise. */
  lemma DeleteByIndexAt<T>(s: seq<T>, i: nat, j: nat)
    requires i < |s| && j < |s| - 1
    ensures DeleteByIndex(s, i)[j] == s[if j == i then |s| - 1 else j]
  {
    var r := DeleteByIndex(s, i);
    if j < i {
      assert r[j] == r[..i][j];
    } else if i < j {
      assert r[j] == r[i + 1..][j - i - 1];
    }
  }

  /** A rearrangement of a sequence without repetitions has none either. */
  lemma PermutationDistinct<T>(a: seq<T>, b: seq<T>)
    requires multiset(a) == multiset(b) && Distinct(b)
    ensures Distinct(a)
  {
    forall j, k | 0 <= j < k < |a| ensures a[j] != a[k] {
      var x := a[k];
      var i :| 0 <= i < |b| && b[i] == x by {
        assert x in multiset(a);
      }
      DistinctCount(b, i);
      assert a == a[..k] + [x] + a[k + 1..];
      assert multiset(a[..k])[x] == 0;
      assert a[..k][j] == a[j];
    }
  }

  /** In a sequence without repetitions, s[i] occurs exactly once. */
  lemma DistinctCount<T>(s: seq<T>, i: nat)
    requires i < |s| && Distinct(s)
    ensures multiset(s)[s[i]] == 1
  {
    var x := s[i];
    assert s == s[..i] + [x] + s[i + 1..];
    assert x !in s[..i] && x !in s[i + 1..] by {
      forall k | 0 <= k < |s| && k != i ensures s[k] != x {}
    }
    assert multiset(s[..i])[x] == 0 && multiset(s[i + 1..])[x] == 0;
  }
}

/** The two JavaScript Array methods the core uses: indexOf and splice(i, 1). */
module JsArray {

  /** indexOf: the first position of x, or -1. */
  function IndexOf<T(==)>(s: seq<T>, x: T): (r: int)
    ensures -1 <= r < |s|
    ensures r == -1 <==> x !in s
    ensures r >= 0 ==> s[r] == x && x !in s[..r]
  {
    if |s| == 0 then -1
    else if s[0] == x then 0
    else
      var k := IndexOf(s[1..], x);
      assert s[1..][..(if k >= 0 then k else 0)] == s[1..(if k >= 0 then k + 1 else 1)];
      if k == -1 then -1 else k + 1
  }

  /** splice(i, 1): remove position i, keeping the order of the rest. */
  function RemoveAt<T>(s: seq<T>, i: nat): (r: seq<T>)
    requires i < |s|
    ensures |r| == |s| - 1
    ensures forall k :: 0 <= k < i ==> r[k] == s[k]
    ensures forall k :: i <= k < |r| ==> r[k] == s[k + 1]
  {
    s[..i] + s[i + 1..]
  }
}
