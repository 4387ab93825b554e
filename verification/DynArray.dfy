/** The resizable array of dynarray.c. Removal moves the last element into the gap. */
module DynArray {

  /** s with its last element moved into slot j. */
  function WithoutSlot<T>(s: seq<T>, j: nat): (r: seq<T>)
    requires j < |s|
    ensures |r| == |s| - 1
  {
    s[j := s[|s| - 1]][..|s| - 1]
  }

  /** Removing moves one element and loses exactly the removed one. */
  lemma WithoutSlotMultiset<T>(s: seq<T>, j: nat)
    requires j < |s|
    ensures multiset(WithoutSlot(s, j)) + multiset{s[j]} == multiset(s)
  {
    var n := |s| - 1;
    assert s == s[..n] + [s[n]];
    if j < n {
      assert multiset(s[..n][j := s[n]]) == multiset(s[..n]) - multiset{s[j]} + multiset{s[n]};
      assert WithoutSlot(s, j) == s[..n][j := s[n]];
    } else {
      assert WithoutSlot(s, j) == s[..n];
    }
  }

  class Dyn<T(==, 0)> {
    var pos: nat
    var items: array<T>

    ghost predicate Valid()
      reads this
    {
      pos <= items.Length
    }

    ghost function Contents(): (s: seq<T>)
      reads this, items
      requires Valid()
    {
      items[..pos]
    }

    constructor ()
      ensures Valid() && fresh(items) && Contents() == []
    {
      pos := 0;
      items := new T[0];
    }

    method EnsureLen(n: nat)
      requires Valid()
      modifies this`items
      ensures Valid() && n <= items.Length && (items == old(items) || fresh(items))
      ensures Contents() == old(Contents())
    {
      if n > items.Length {
        var bigger := new T[n];
        forall i | 0 <= i < items.Length {
          bigger[i] := items[i];
        }
        items := bigger;
      }
    }

    method Add(item: T)
      requires Valid()
      modifies this, items
      ensures Valid() && (items == old(items) || fresh(items))
      ensures Contents() == old(Contents()) + [item]
    {
      EnsureLen(pos + 1);
      items[pos] := item;
      pos := pos + 1;
    }

    method GetPos(i: nat) returns (item: T)
      requires Valid() && i < |Contents()|
      ensures item == Contents()[i]
    {
      item := items[i];
    }

    /** Remove the first occurrence of item, and tell where it was. */
    method Remove(item: T) returns (j: nat)
      requires Valid() && item in Contents()
      modifies this`pos, items
      ensures Valid() && j < |old(Contents())| && old(Contents())[j] == item && item !in old(Contents())[..j]
      ensures Contents() == WithoutSlot(old(Contents()), j)
    {
      j := 0;
      while items[j] != item
        invariant j < pos && item !in items[..j] && item in items[j..pos]
        decreases pos - j
      {
        j := j + 1;
      }
      items[j] := items[pos - 1];
      pos := pos - 1;
    }
  }
}
