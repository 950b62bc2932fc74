/** The list operations of the collection handlers: List<T>.Remove (first occurrence),
    Where(x => owner(x) == name).ToList(), and LINQ Distinct. */
module Sequences {

  /** List<T>.Remove(x): drops the first element equal to `x`; no change when there is none. */
  function RemoveFirst<T(==)>(s: seq<T>, x: T): (r: seq<T>)
    ensures x !in s ==> r == s
    ensures x in s ==> |r| == |s| - 1 && multiset(r) == multiset(s) - multiset{x}
  {
    RemoveFirstCount(s, x);
    RemoveFirstScan(s, x)
  }

  /** The scan List<T>.Remove performs: keep elements until the first `x`, skip it, keep the rest. */
  function RemoveFirstScan<T(==)>(s: seq<T>, x: T): seq<T>
  {
    if s == [] then [] else if s[0] == x then s[1..] else [s[0]] + RemoveFirstScan(s[1..], x)
  }

  lemma {:induction false} RemoveFirstCount<T>(s: seq<T>, x: T)
    ensures x !in s ==> RemoveFirstScan(s, x) == s
    ensures x in s ==> |RemoveFirstScan(s, x)| == |s| - 1 && multiset(RemoveFirstScan(s, x)) == multiset(s) - multiset{x}
  {
    if s != [] {
      assert s == [s[0]] + s[1..];
      RemoveFirstCount(s[1..], x);
    }
  }

  /** List<T>.IndexOf(x) for an `x` the list holds: the position of its first occurrence. */
  function FirstIndex<T(==)>(s: seq<T>, x: T): (i: nat)
    requires x in s
    ensures i < |s| && s[i] == x && x !in s[..i]
  {
    if s[0] == x then 0
    else
      assert s[1..][..FirstIndex(s[1..], x)] == s[1..FirstIndex(s[1..], x) + 1];
      1 + FirstIndex(s[1..], x)
  }

  /** Remove drops exactly the first occurrence; every other element keeps its place. */
  lemma RemoveFirstAt<T>(s: seq<T>, x: T)
    requires x in s
    ensures RemoveFirst(s, x) == s[..FirstIndex(s, x)] + s[FirstIndex(s, x) + 1..]
  {
    var i := FirstIndex(s, x);
    assert forall j :: 0 <= j < i ==> s[j] == s[..i][j];
    RemoveFirstSplit(s, x, i);
  }

  lemma {:induction false} RemoveFirstSplit<T>(s: seq<T>, x: T, i: nat)
    requires i < |s| && s[i] == x
    requires forall j :: 0 <= j < i ==> s[j] != x
    ensures RemoveFirstScan(s, x) == s[..i] + s[i + 1..]
  {
    if i == 0 {
      assert RemoveFirstScan(s, x) == s[1..];
    } else {
      var t := s[1..];
      assert forall j :: 0 <= j < i - 1 ==> t[j] == s[j + 1];
      RemoveFirstSplit(t, x, i - 1);
      assert s[..i] == [s[0]] + t[..i - 1];
      assert s[i + 1..] == t[i..];
    }
  }

  /** Appending `x` and then removing one `x` gives back the same multiset, though not
      always the same order: the removed `x` may be an earlier one. */
  lemma AddThenRemove<T>(s: seq<T>, x: T)
    ensures multiset(RemoveFirst(s + [x], x)) == multiset(s)
    ensures x !in s ==> RemoveFirst(s + [x], x) == s
  {
    assert x in s + [x];
    if x !in s {
      RemoveFirstFresh(s, x);
    }
  }

  lemma {:induction false} RemoveFirstFresh<T>(s: seq<T>, x: T)
    requires x !in s
    ensures RemoveFirst(s + [x], x) == s
  {
    if s != [] {
      assert (s + [x])[0] == s[0];
      assert (s + [x])[1..] == s[1..] + [x];
      RemoveFirstFresh(s[1..], x);
    }
  }

  /** Where(x => owner(x) == name).ToList(): the elements owned by `name`, in order. */
  function Owned<T>(s: seq<T>, owner: T -> string, name: string): (r: seq<T>)
  {
    if s == [] then [] else (if owner(s[0]) == name then [s[0]] else []) + Owned(s[1..], owner, name)
  }

  /** The elements not owned by `name`, in order. */
  function Unowned<T>(s: seq<T>, owner: T -> string, name: string): (r: seq<T>)
  {
    if s == [] then [] else (if owner(s[0]) != name then [s[0]] else []) + Unowned(s[1..], owner, name)
  }

  /** `s` with its first `k` elements owned by `name` dropped: the state of the removal loop
      after `k` rounds. */
  function DropOwned<T>(s: seq<T>, owner: T -> string, name: string, k: nat): seq<T>
  {
    if s == [] then []
    else if k > 0 && owner(s[0]) == name then DropOwned(s[1..], owner, name, k - 1)
    else [s[0]] + DropOwned(s[1..], owner, name, k)
  }

  lemma {:induction false} OwnedElements<T>(s: seq<T>, owner: T -> string, name: string)
    ensures forall i :: 0 <= i < |Owned(s, owner, name)| ==> owner(Owned(s, owner, name)[i]) == name
  {
    if s != [] {
      OwnedElements(s[1..], owner, name);
    }
  }

  lemma {:induction false} DropNone<T>(s: seq<T>, owner: T -> string, name: string)
    ensures DropOwned(s, owner, name, 0) == s
  {
    if s != [] {
      DropNone(s[1..], owner, name);
    }
  }

  lemma {:induction false} DropAll<T>(s: seq<T>, owner: T -> string, name: string)
    ensures DropOwned(s, owner, name, |Owned(s, owner, name)|) == Unowned(s, owner, name)
  {
    if s != [] {
      DropAll(s[1..], owner, name);
    }
  }

  /** One round of the removal loop: removing the next owned element (by value, first
      occurrence) drops exactly one more owned element. */
  lemma {:induction false} DropStep<T>(s: seq<T>, owner: T -> string, name: string, k: nat)
    requires k < |Owned(s, owner, name)|
    ensures RemoveFirst(DropOwned(s, owner, name, k), Owned(s, owner, name)[k])
         == DropOwned(s, owner, name, k + 1)
  {
    var x := Owned(s, owner, name)[k];
    if owner(s[0]) == name {
      if k > 0 {
        DropStep(s[1..], owner, name, k - 1);
      } else {
        DropNone(s, owner, name);
        DropNone(s[1..], owner, name);
      }
    } else {
      OwnedElements(s[1..], owner, name);
      assert owner(x) == name;
      DropStep(s[1..], owner, name, k);
    }
  }

  /** The removal loop's outcome: the unowned elements, in their original order. */
  lemma {:induction false} UnownedHasNoOwned<T>(s: seq<T>, owner: T -> string, name: string)
    ensures forall i :: 0 <= i < |Unowned(s, owner, name)| ==> owner(Unowned(s, owner, name)[i]) != name
    ensures forall x :: x in s && owner(x) != name ==> x in Unowned(s, owner, name)
  {
    if s != [] {
      UnownedHasNoOwned(s[1..], owner, name);
    }
  }

  lemma {:induction false} UnownedConcat<T>(a: seq<T>, b: seq<T>, owner: T -> string, name: string)
    ensures Unowned(a + b, owner, name) == Unowned(a, owner, name) + Unowned(b, owner, name)
  {
    if a == [] {
      assert a + b == b;
    } else {
      assert (a + b)[0] == a[0];
      assert (a + b)[1..] == a[1..] + b;
      UnownedConcat(a[1..], b, owner, name);
    }
  }

  /** Unowned leaves alone a list with nothing owned by `name`, and empties one with only such. */
  lemma {:induction false} UnownedExtremes<T>(s: seq<T>, owner: T -> string, name: string)
    ensures (forall i :: 0 <= i < |s| ==> owner(s[i]) != name) ==> Unowned(s, owner, name) == s
    ensures (forall i :: 0 <= i < |s| ==> owner(s[i]) == name) ==> Unowned(s, owner, name) == []
  {
    if s != [] {
      assert forall i :: 1 <= i < |s| ==> s[1..][i - 1] == s[i];
      UnownedExtremes(s[1..], owner, name);
    }
  }

  /** LINQ Distinct: the elements in order of first occurrence, each once. */
  function Distinct<T(==)>(s: seq<T>): (r: seq<T>)
    ensures forall i :: 0 <= i < |r| ==> r[i] in s
    ensures forall i :: 0 <= i < |s| ==> s[i] in r
    ensures forall i, j :: 0 <= i < j < |r| ==> r[i] != r[j]
  {
    if s == [] then []
    else
      var init := Distinct(s[..|s| - 1]);
      var last := s[|s| - 1];
      assert s == s[..|s| - 1] + [last];
      if last in init then init else init + [last]
  }

  lemma DistinctMember<T>(s: seq<T>, x: T)
    ensures x in Distinct(s) <==> x in s
  {
    var r := Distinct(s);
    if x in r {
      var i :| 0 <= i < |r| && r[i] == x;
    }
    if x in s {
      var i :| 0 <= i < |s| && s[i] == x;
    }
  }
}
