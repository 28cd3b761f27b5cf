/**
 * The id lists that Experiment and ClinicalTest documents carry (a C# List<string>
 * on each side of the relation), and the list operations the manager applies to them.
 */
module IdLists {

  /** Document identifiers are the store's string ids. */
  type Id = string

  /**
   * The id at position i. NoDup is stated on At terms rather than on xs[i], so that its
   * quantifier fires only where a proof mentions At, which keeps instantiation small.
   */
  function At(xs: seq<Id>, i: nat): Id
    requires i < |xs|
  {
    xs[i]
  }

  /** No id occurs twice in the list. */
  ghost predicate NoDup(xs: seq<Id>) {
    forall i, j :: 0 <= i < j < |xs| ==> At(xs, i) != At(xs, j)
  }

  /** Ids at distinct positions of a list without duplicates differ. */
  lemma NoDupIndices(xs: seq<Id>)
    ensures NoDup(xs) <==> forall i, j :: 0 <= i < j < |xs| ==> xs[i] != xs[j]
  {
    if NoDup(xs) {
      forall i, j | 0 <= i < j < |xs| ensures xs[i] != xs[j] {
        assert At(xs, i) != At(xs, j);
      }
    }
    if forall i, j :: 0 <= i < j < |xs| ==> xs[i] != xs[j] {
      forall i, j | 0 <= i < j < |xs| ensures At(xs, i) != At(xs, j) {
        assert xs[i] != xs[j];
      }
    }
  }

  /** The two given positions of a list without duplicates hold different ids. */
  lemma NoDupAt(xs: seq<Id>, i: nat, j: nat)
    requires NoDup(xs) && i < |xs| && j < |xs| && i != j
    ensures xs[i] != xs[j]
  {
    if i < j {
      assert At(xs, i) != At(xs, j);
    } else {
      assert At(xs, j) != At(xs, i);
    }
  }

  /** The prefix one position longer ends with the id at that position. */
  lemma PrefixNext(xs: seq<Id>, i: nat)
    requires i < |xs|
    ensures xs[..i + 1] == xs[..i] + [xs[i]]
  {
  }

  /** In a list without duplicates, no id occurs before its own position. */
  lemma NoDupNotBefore(xs: seq<Id>, i: nat)
    requires NoDup(xs) && i < |xs|
    ensures xs[i] !in xs[..i]
  {
    forall k | 0 <= k < i ensures xs[..i][k] != xs[i] {
      NoDupAt(xs, k, i);
    }
  }

  /** The set of ids a list holds. */
  function Elems(xs: seq<Id>): set<Id> {
    set x | x in xs
  }

  /**
   * List.Remove: drops the first occurrence of x and keeps the order of the rest;
   * a list without x is returned as it is.
   */
  function RemoveFirst(xs: seq<Id>, x: Id): (r: seq<Id>)
    ensures |r| == if x in xs then |xs| - 1 else |xs|
    ensures x !in xs ==> r == xs
  {
    if xs == [] then []
    else if xs[0] == x then xs[1..]
    else
      assert x in xs <==> x in xs[1..];
      [xs[0]] + RemoveFirst(xs[1..], x)
  }

  /** Exactly one occurrence of x goes, if there is one, and nothing else. */
  lemma {:induction false} RemoveFirstMultiset(xs: seq<Id>, x: Id)
    ensures multiset(RemoveFirst(xs, x)) == multiset(xs) - multiset{x}
  {
    if xs != [] {
      assert xs == [xs[0]] + xs[1..];
      if xs[0] != x {
        RemoveFirstMultiset(xs[1..], x);
      }
    }
  }

  /**
   * It is the FIRST occurrence that goes: when x sits at position i and not before it,
   * the removal cuts out exactly position i and keeps the ids on either side in order.
   */
  lemma {:induction false} RemoveFirstAtFirst(xs: seq<Id>, x: Id, i: nat)
    requires i < |xs| && xs[i] == x && x !in xs[..i]
    ensures RemoveFirst(xs, x) == xs[..i] + xs[i + 1..]
  {
    if i == 0 {
      assert xs[..0] == [];
    } else {
      assert xs[0] in xs[..i];
      var tail := xs[1..];
      assert tail[..i - 1] == xs[1..i];
      RemoveFirstAtFirst(tail, x, i - 1);
      assert xs[..i] == [xs[0]] + tail[..i - 1];
    }
  }

  /** Every id other than x survives the removal, and nothing new appears. */
  lemma RemoveFirstMembers(xs: seq<Id>, x: Id)
    ensures forall y :: y in RemoveFirst(xs, x) ==> y in xs
    ensures forall y :: y in xs && y != x ==> y in RemoveFirst(xs, x)
  {
    RemoveFirstMultiset(xs, x);
    forall y ensures y in RemoveFirst(xs, x) <==> multiset(RemoveFirst(xs, x))[y] > 0 {
    }
  }

  /** Dropping the first id keeps a list free of duplicates, and that id does not recur. */
  lemma NoDupTail(xs: seq<Id>)
    requires NoDup(xs) && xs != []
    ensures NoDup(xs[1..]) && xs[0] !in xs[1..]
  {
    NoDupIndices(xs);
    NoDupIndices(xs[1..]);
    assert forall k :: 0 <= k < |xs[1..]| ==> xs[1..][k] == xs[k + 1];
  }

  /** Putting an id the list lacks in front keeps it free of duplicates. */
  lemma NoDupCons(x: Id, t: seq<Id>)
    requires NoDup(t) && x !in t
    ensures NoDup([x] + t)
  {
    NoDupIndices(t);
    var r := [x] + t;
    forall i, j | 0 <= i < j < |r| ensures r[i] != r[j] {
      assert r[j] == t[j - 1];
      if i > 0 {
        assert r[i] == t[i - 1];
      }
    }
    NoDupIndices(r);
  }

  /** On a list without duplicates, removing the first occurrence is removing the id. */
  lemma {:induction false} RemoveFirstNoDup(xs: seq<Id>, x: Id)
    requires NoDup(xs)
    ensures NoDup(RemoveFirst(xs, x))
    ensures forall y :: y in RemoveFirst(xs, x) <==> y in xs && y != x
  {
    if xs != [] {
      NoDupTail(xs);
      assert xs == [xs[0]] + xs[1..];
      if xs[0] != x {
        RemoveFirstNoDup(xs[1..], x);
        NoDupCons(xs[0], RemoveFirst(xs[1..], x));
      }
    }
  }

  /** Removing an id just appended to a list that lacked it gives the list back. */
  lemma {:induction false} RemoveFirstAppended(xs: seq<Id>, x: Id)
    requires x !in xs
    ensures RemoveFirst(xs + [x], x) == xs
  {
    if xs != [] {
      assert (xs + [x])[1..] == xs[1..] + [x];
      RemoveFirstAppended(xs[1..], x);
      assert [xs[0]] + xs[1..] == xs;
    }
  }

  /** A list loses everything by one removal exactly when it held at most that one id. */
  lemma RemoveFirstEmpty(xs: seq<Id>, x: Id)
    ensures RemoveFirst(xs, x) == [] <==> xs == [] || xs == [x]
  {
    if xs != [] && xs[0] == x && RemoveFirst(xs, x) == [] {
      assert xs == [xs[0]] + xs[1..];
    }
  }

  /** A non-empty list holds its first id. */
  lemma HeadIn(xs: seq<Id>)
    ensures xs != [] ==> xs[0] in xs
  {
  }

  /** A list that holds no id is empty. */
  lemma NoMembersEmpty(xs: seq<Id>)
    requires forall y :: y !in xs
    ensures xs == []
  {
    HeadIn(xs);
  }

  /** Appending an id the list lacks keeps it free of duplicates. */
  lemma NoDupAppend(xs: seq<Id>, x: Id)
    requires NoDup(xs) && x !in xs
    ensures NoDup(xs + [x])
  {
    NoDupIndices(xs);
    var r := xs + [x];
    forall i, j | 0 <= i < j < |r| ensures r[i] != r[j] {
      if j == |xs| {
        assert r[i] == xs[i] && xs[i] in xs;
      }
    }
    NoDupIndices(r);
  }

  /** Both parts of a list without duplicates are free of duplicates, and share no id. */
  lemma NoDupSplit(a: seq<Id>, b: seq<Id>)
    requires NoDup(a + b)
    ensures NoDup(a) && NoDup(b)
    ensures forall y :: y in a ==> y !in b
  {
    var r := a + b;
    NoDupIndices(r);
    forall i, j | 0 <= i < j < |a| ensures a[i] != a[j] {
      assert a[i] == r[i] && a[j] == r[j];
    }
    forall i, j | 0 <= i < j < |b| ensures b[i] != b[j] {
      assert b[i] == r[|a| + i] && b[j] == r[|a| + j];
    }
    forall y | y in a ensures y !in b {
      var i :| 0 <= i < |a| && a[i] == y;
      assert r[i] == y;
      forall j | 0 <= j < |b| ensures b[j] != y {
        assert b[j] == r[|a| + j];
      }
    }
    NoDupIndices(a);
    NoDupIndices(b);
  }

  /** In a list without duplicates every id it holds occurs exactly once. */
  lemma {:induction false} NoDupOnce(xs: seq<Id>, x: Id)
    requires NoDup(xs) && x in xs
    ensures multiset(xs)[x] == 1
  {
    NoDupTail(xs);
    assert xs == [xs[0]] + xs[1..];
    if xs[0] != x {
      NoDupOnce(xs[1..], x);
    }
  }

  /** The ids of xs that ys does not hold, in the order of xs. */
  function Without(xs: seq<Id>, ys: seq<Id>): seq<Id> {
    if xs == [] then []
    else (if xs[0] in ys then [] else [xs[0]]) + Without(xs[1..], ys)
  }

  /** Leaving out nothing keeps the whole list. */
  lemma {:induction false} WithoutNone(xs: seq<Id>)
    ensures Without(xs, []) == xs
  {
    if xs != [] {
      WithoutNone(xs[1..]);
      assert xs == [xs[0]] + xs[1..];
    }
  }

  /** An id survives exactly when xs holds it and ys does not. */
  lemma {:induction false} WithoutMembers(xs: seq<Id>, ys: seq<Id>)
    ensures forall y :: y in Without(xs, ys) <==> y in xs && y !in ys
  {
    if xs != [] {
      assert xs == [xs[0]] + xs[1..];
      WithoutMembers(xs[1..], ys);
    }
  }

  /** An id that ys does not hold survives exactly when xs holds it. */
  lemma WithoutKeeps(xs: seq<Id>, ys: seq<Id>, y: Id)
    requires y !in ys
    ensures y in Without(xs, ys) <==> y in xs
  {
    WithoutMembers(xs, ys);
  }

  /**
   * On a list without duplicates, removing one more id x from what is left is leaving
   * out x as well.
   */
  lemma {:induction false} RemoveFirstWithout(xs: seq<Id>, ys: seq<Id>, x: Id)
    requires NoDup(xs)
    ensures RemoveFirst(Without(xs, ys), x) == Without(xs, ys + [x])
  {
    if xs != [] {
      var h, t := xs[0], xs[1..];
      NoDupTail(xs);
      RemoveFirstWithout(t, ys, x);
      if h in ys {
        assert Without(xs, ys) == Without(t, ys);
        assert Without(xs, ys + [x]) == Without(t, ys + [x]);
      } else if h == x {
        assert Without(xs, ys) == [x] + Without(t, ys);
        assert Without(xs, ys + [x]) == Without(t, ys + [x]);
        WithoutAbsent(t, ys, x);
      } else {
        assert Without(xs, ys) == [h] + Without(t, ys);
        assert Without(xs, ys + [x]) == [h] + Without(t, ys + [x]);
      }
    }
  }

  /** Leaving out an id the list does not hold leaves out nothing more. */
  lemma {:induction false} WithoutAbsent(xs: seq<Id>, ys: seq<Id>, x: Id)
    requires x !in xs
    ensures Without(xs, ys + [x]) == Without(xs, ys)
  {
    if xs != [] {
      assert x !in xs[1..];
      WithoutAbsent(xs[1..], ys, x);
    }
  }
}
