/** The array collection: positions may be unused, and the array grows and shrinks on demand. */
module SparseArray {

  datatype Option<+T> = None | Some(value: T)

  /** The new allocation when `size` positions are asked for: growth happens in larger chunks, and a
      request below the used length is ignored. */
  function Resized(maxLength: nat, used: nat, size: nat): (r: nat)
    requires used <= maxLength
    ensures r >= used && (size > maxLength ==> r >= size)
    ensures size < used ==> r == maxLength
    ensures used <= size <= maxLength ==> r == size
    ensures size > maxLength ==> r == size || 2 * r <= 3 * (maxLength + 2) < 2 * r + 2
  {
    if size == maxLength || size < used then maxLength
    else if size > maxLength && size / 3 < (maxLength + 2) / 2 then 3 * (maxLength + 2) / 2
    else size
  }

  /** How many positions are used. */
  function Used<T>(slots: seq<Option<T>>): (n: nat)
    ensures n <= |slots|
  {
    if slots == [] then 0 else Used(slots[..|slots| - 1]) + if slots[|slots| - 1].Some? then 1 else 0
  }

  lemma {:induction false} UsedUpdate<T>(slots: seq<Option<T>>, i: nat, x: Option<T>)
    requires i < |slots|
    ensures Used(slots[i := x]) == Used(slots) + (if x.Some? then 1 else 0) - (if slots[i].Some? then 1 else 0)
  {
    var n := |slots| - 1;
    assert slots[i := x][..n] == if i == n then slots[..n] else slots[..n][i := x];
    if i < n {
      UsedUpdate(slots[..n], i, x);
    }
  }

  /** A position below the count of used ones leaves a used position at or above it. */
  lemma {:induction false} UsedPrefix<T>(slots: seq<Option<T>>, j: nat)
    requires j <= |slots|
    ensures Used(slots[..j]) <= Used(slots)
    ensures Used(slots[..j]) == Used(slots) ==> forall i :: j <= i < |slots| ==> slots[i].None?
  {
    if j < |slots| {
      var n := |slots| - 1;
      UsedPrefix(slots[..n], j);
      assert slots[..n][..j] == slots[..j];
      assert forall i :: j <= i < n ==> slots[..n][i] == slots[i];
    } else {
      assert slots[..j] == slots;
    }
  }

  /** `slots` holds the positions up to the last used one; `contents` are the used positions and what
      they hold. */
  class NAArray<T> {
    var slots: seq<Option<T>>
    var maxLength: nat
    var entries: nat
    ghost var contents: map<nat, T>

    constructor (initial: nat)
      ensures Valid() && contents == map[]
    {
      slots, maxLength, entries, contents := [], initial, 0, map[];
    }

    ghost predicate Holds()
      reads this
    {
      && |slots| <= maxLength && entries == Used(slots)
      && (forall i :: i in contents <==> IsUsed(i))
      && (forall i :: i in contents ==> contents[i] == slots[i].value)
    }

    ghost predicate Valid()
      reads this
    {
      Holds() && (slots != [] ==> slots[|slots| - 1].Some?)
    }

    predicate IsUsed(i: nat)
      reads this
    {
      i < |slots| && slots[i].Some?
    }

    /** As long as fewer positions were found than are used, there is another one to look at. */
    lemma MoreToCheck(j: nat)
      requires Valid() && j <= |slots| && Used(slots[..j]) < entries
      ensures j < |slots| && Used(slots[..j + 1]) == Used(slots[..j]) + if IsUsed(j) then 1 else 0
      ensures IsUsed(j) <==> j in contents
      ensures IsUsed(j) ==> contents[j] == slots[j].value
    {
      assert slots[..|slots|] == slots;
      assert slots[..j + 1][..j] == slots[..j];
    }

    /** Once as many positions were found as are used, there is none beyond. */
    lemma AllChecked(j: nat)
      requires Valid() && j <= |slots| && Used(slots[..j]) >= entries
      ensures forall i :: i in contents ==> i < j
    {
      UsedPrefix(slots, j);
    }

    method UnusedIndex() returns (i: nat)
      requires Valid()
      ensures i !in contents && i <= maxLength
      ensures if |slots| < maxLength then i == |slots| else forall k: nat :: k < i ==> k in contents
    {
      if |slots| < maxLength {
        return |slots|;
      }
      for k := 0 to |slots|
        invariant forall j: nat :: j < k ==> j in contents
      {
        if slots[k].None? {
          return k;
        }
      }
      i := maxLength;
    }

    method InsertAt(i: nat, x: T)
      requires Valid()
      modifies this
      ensures Valid() && contents == old(contents)[i := x]
    {
      Extend(i);
      UsedUpdate(slots, i, Some(x));
      if slots[i].None? {
        entries := entries + 1;
      }
      slots := slots[i := Some(x)];
      contents := contents[i := x];
    }

    /** Makes position `i` available, filling up with unused positions. */
    method Extend(i: nat)
      requires Valid()
      modifies this`slots, this`maxLength
      ensures Holds() && i < |slots|
      ensures slots[|slots| - 1].None? ==> |slots| == i + 1
    {
      if i >= maxLength {
        maxLength := Resized(maxLength, |slots|, i + 1);
      }
      while |slots| <= i
        invariant Holds() && i < maxLength
        invariant slots == old(slots) || |slots| <= i + 1
      {
        ghost var before := slots;
        slots := slots + [None];
        assert slots[..|slots| - 1] == before;
      }
    }

    method Remove(i: nat) returns (removed: bool)
      requires Valid()
      modifies this
      ensures Valid() && contents == old(contents) - {i} && removed == (i in old(contents))
    {
      removed := IsUsed(i);
      if removed {
        UsedUpdate(slots, i, None);
        slots, entries := slots[i := None], entries - 1;
        contents := contents - {i};
        if i == |slots| - 1 {
          Trim();
        }
      }
    }

    /** Gives up the unused positions at the end. */
    method Trim()
      requires Holds()
      modifies this`slots, this`maxLength
      ensures Valid()
    {
      while |slots| > 0 && slots[|slots| - 1].None?
        invariant Holds()
      {
        slots := slots[..|slots| - 1];
      }
      if maxLength > 10 && |slots| < maxLength / 4 {
        maxLength := Resized(maxLength, |slots|, |slots|);
      }
    }
  }
}
