/**
 * The hash-consing store behind an expression set: an append-only list of
 * word slices in which equal slices share one id. A slice is assembled in a
 * pending buffer and then either found among the stored ones or appended.
 */
module HashConses {
  import opened Words

  class HashCons {
    /** The stored slices; a slice's id is its index. */
    var entries: seq<seq<UInt32>>
    /** The slice being assembled by the current insertion. */
    var pending: seq<UInt32>

    /** Ids fit in 32 bits and no slice is stored twice. */
    ghost predicate Valid()
      reads this
    {
      |entries| <= 0x1_0000_0000 &&
      forall i, j :: 0 <= i < j < |entries| ==> entries[i] != entries[j]
    }

    constructor()
      ensures Valid() && entries == [] && pending == []
    {
      entries := [];
      pending := [];
    }

    /** `start_insert`: begin assembling a new slice. */
    method StartInsert()
      modifies this
      ensures entries == old(entries) && pending == []
    {
      pending := [];
    }

    /** `push_u32`: append one word to the slice being assembled. */
    method PushU32(x: UInt32)
      modifies this
      ensures entries == old(entries) && pending == old(pending) + [x]
    {
      pending := pending + [x];
    }

    /** `push_slice`: append words to the slice being assembled. */
    method PushSlice(xs: seq<UInt32>)
      modifies this
      ensures entries == old(entries) && pending == old(pending) + xs
    {
      pending := pending + xs;
    }

    /**
     * `finish_insert`: the id of the assembled slice, reusing the id of an
     * equal stored slice and appending the slice otherwise.
     */
    method FinishInsert() returns (id: UInt32)
      requires Valid() && |entries| < 0x1_0000_0000
      modifies this
      ensures Valid() && pending == []
      ensures id < |entries| && entries[id] == old(pending)
      ensures old(pending) in old(entries) ==> entries == old(entries)
      ensures old(pending) !in old(entries) ==>
        entries == old(entries) + [old(pending)] && id == |old(entries)|
    {
      var s := pending;
      pending := [];
      var i := 0;
      while i < |entries|
        invariant 0 <= i <= |entries|
        invariant forall j :: 0 <= j < i ==> entries[j] != s
      {
        if entries[i] == s {
          return i;
        }
        i := i + 1;
      }
      id := |entries|;
      entries := entries + [s];
    }

    /** `insert`: store a whole slice at once. */
    method Insert(s: seq<UInt32>) returns (id: UInt32)
      requires Valid() && |entries| < 0x1_0000_0000
      modifies this
      ensures Valid() && pending == []
      ensures id < |entries| && entries[id] == s
      ensures s in old(entries) ==> entries == old(entries)
      ensures s !in old(entries) ==> entries == old(entries) + [s] && id == |old(entries)|
    {
      StartInsert();
      PushSlice(s);
      id := FinishInsert();
    }
  }
}
