/**
 * The order in which _fireEvent walks its DisorderedArray of events, as a pure
 * function. The walk keeps an index i: an event to keep is fired and i moves
 * on; an event to drop is fired, deleted by index (the last event moves into
 * slot i) and i stays, so that the moved event is looked at next.
 */
module EventSweep {
  import DisorderedArray

  /** What a sweep leaves: the events still listed, the order they fired in, and the dropped ones in drop order. */
  datatype Swept<T> = Swept(remaining: seq<T>, fired: seq<T>, dropped: seq<T>)

  /**
   * The sweep from index i on, with the events fired and dropped before i
   * already in fired and dropped.
   */
  function Sweep<T(==)>(s: seq<T>, keep: set<T>, i: nat, fired: seq<T>, dropped: seq<T>): Swept<T>
    requires i <= |s|
    decreases |s| - i
  {
    if i == |s| then Swept(s, fired, dropped)
    else if s[i] in keep then Sweep(s, keep, i + 1, fired + [s[i]], dropped)
    else Sweep(DisorderedArray.DeleteByIndex(s, i), keep, i, fired + [s[i]], dropped + [s[i]])
  }

  /**
   * From any point of the walk: every event from i on fires once more, the
   * remaining and dropped events share out the list and what was dropped
   * before, every remaining event is one to keep and every newly dropped one
   * is not.
   */
  lemma {:induction false} SweepFrom<T>(s: seq<T>, keep: set<T>, i: nat, fired: seq<T>, dropped: seq<T>)
    requires i <= |s|
    requires forall k :: 0 <= k < i ==> s[k] in keep
    ensures var r := Sweep(s, keep, i, fired, dropped);
      && multiset(r.fired) == multiset(fired) + multiset(s[i..])
      && multiset(r.remaining) + multiset(r.dropped) == multiset(s) + multiset(dropped)
      && (forall x :: x in r.remaining ==> x in keep)
      && (forall x :: x in r.dropped ==> x in dropped || x !in keep)
    decreases |s| - i
  {
    if i < |s| {
      if s[i] in keep {
        assert s[i..] == [s[i]] + s[i + 1..];
        SweepFrom(s, keep, i + 1, fired + [s[i]], dropped + []);
        assert dropped + [] == dropped;
      } else {
        var t := DisorderedArray.DeleteByIndex(s, i);
        assert t[..i] == s[..i];
        forall k | 0 <= k < i ensures t[k] in keep {
          assert t[k] == t[..i][k];
        }
        SweepFrom(t, keep, i, fired + [s[i]], dropped + [s[i]]);
        DeleteTail(s, i);
        assert s[i..] == [s[i]] + s[i + 1..];
      }
    } else {
      assert s[i..] == [];
    }
  }

  /**
   * A whole sweep fires every event exactly as often as it is listed, keeps
   * exactly the events to keep and drops exactly the others.
   */
  lemma SweepPartition<T>(s: seq<T>, keep: set<T>)
    ensures var r := Sweep(s, keep, 0, [], []);
      && multiset(r.fired) == multiset(s)
      && multiset(r.remaining) + multiset(r.dropped) == multiset(s)
      && (forall x :: x in r.remaining <==> x in s && x in keep)
      && (forall x :: x in r.dropped <==> x in s && x !in keep)
  {
    var r := Sweep(s, keep, 0, [], []);
    SweepFrom(s, keep, 0, [], []);
    assert s[0..] == s;
    forall x ensures x in r.remaining <==> x in s && x in keep {
      if x in r.remaining {
        assert x in multiset(r.remaining);
      }
      if x in s && x in keep {
        assert x in multiset(s);
        assert x !in multiset(r.dropped);
      }
    }
    forall x ensures x in r.dropped <==> x in s && x !in keep {
      if x in r.dropped {
        assert x in multiset(r.dropped);
      }
      if x in s && x !in keep {
        assert x in multiset(s);
        assert x !in multiset(r.remaining);
      }
    }
  }

  /** One element at a time: x stays listed exactly when it is listed and to keep, and is dropped exactly when it is listed and not to keep. */
  lemma SweepMember<T>(s: seq<T>, keep: set<T>, x: T)
    ensures x in Sweep(s, keep, 0, [], []).remaining <==> x in s && x in keep
    ensures x in Sweep(s, keep, 0, [], []).dropped <==> x in s && x !in keep
  {
    SweepPartition(s, keep);
  }

  /** A sweep of a list without repetitions fires, keeps and drops without repetitions. */
  lemma SweepDistinct<T>(s: seq<T>, keep: set<T>)
    requires DisorderedArray.Distinct(s)
    ensures var r := Sweep(s, keep, 0, [], []);
      DisorderedArray.Distinct(r.fired) && DisorderedArray.Distinct(r.remaining) && DisorderedArray.Distinct(r.dropped)
  {
    var r := Sweep(s, keep, 0, [], []);
    SweepPartition(s, keep);
    DisorderedArray.PermutationDistinct(r.fired, s);
    SubDistinct(r.remaining, r.dropped, s);
    SubDistinct(r.dropped, r.remaining, s);
  }

  /** Part of a split of a list without repetitions has none either. */
  lemma SubDistinct<T>(a: seq<T>, b: seq<T>, s: seq<T>)
    requires multiset(a) + multiset(b) == multiset(s) && DisorderedArray.Distinct(s)
    ensures DisorderedArray.Distinct(a)
  {
    forall j, k | 0 <= j < k < |a| ensures a[j] != a[k] {
      if a[j] == a[k] {
        var x := a[j];
        assert a == a[..k] + [x] + a[k + 1..];
        assert a[..k][j] == x;
        assert multiset(a)[x] >= 2;
        var i :| 0 <= i < |s| && s[i] == x by {
          assert x in multiset(s);
        }
        DisorderedArray.DistinctCount(s, i);
        assert false;
      }
    }
  }

  /** After deleteByIndex(i), the list from i on holds what the old list held after i. */
  lemma DeleteTail<T>(s: seq<T>, i: nat)
    requires i < |s|
    ensures multiset(DisorderedArray.DeleteByIndex(s, i)[i..]) == multiset(s[i + 1..])
  {
    var t := DisorderedArray.DeleteByIndex(s, i);
    var last := |s| - 1;
    if i < last {
      assert t[i..] == [s[last]] + s[i + 1..last];
      assert s[i + 1..] == s[i + 1..last] + [s[last]];
    } else {
      assert t[i..] == [] && s[i + 1..] == [];
    }
  }
}
