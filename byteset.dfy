/**
 * Byte sets: a bitset over byte values stored as a slice of 32-bit words.
 * Value `b` lives in word `b / 32` at bit position `b % 32`.
 */
module ByteSets {
  import opened Words
  import opened Bits

  /** `byteset_contains`: whether value `b` is in the set. */
  predicate Contains(s: seq<UInt32>, b: nat)
    requires b / 32 < |s|
  {
    TestBit(s[b / 32], b % 32)
  }

  /** `Contains` is the source's test `s[b / 32] & (1 << (b % 32)) != 0`. */
  lemma ContainsWord(s: seq<UInt32>, b: nat)
    requires b / 32 < |s|
    ensures Contains(s, b) <==> And32(s[b / 32], Bit32(b % 32)) != 0
  {
    var w := And32(s[b / 32], Bit32(b % 32));
    if Contains(s, b) {
      TestBitZero(b % 32);
    } else {
      Pow2Is32();
      forall k | 0 <= k < 32
        ensures TestBit(w, k) == TestBit(0, k)
      {
        TestBitZero(k);
      }
      BitsDetermine(w, 0, 32);
    }
  }

  /** The values the words of `s` can represent. */
  predicate InUniverse(s: seq<UInt32>, b: int)
  {
    0 <= b && b / 32 < |s|
  }

  /** The words of `s` after setting value `b`: only `b` joins the set. */
  function WithValue(s: seq<UInt32>, b: nat): (r: seq<UInt32>)
    requires b / 32 < |s|
    ensures |r| == |s| && Contains(r, b)
    ensures forall i :: InUniverse(s, i) && i != b ==> Contains(r, i) == Contains(s, i)
  {
    s[b / 32 := Or32(s[b / 32], Bit32(b % 32))]
  }

  /** The words of `s` after clearing value `b`: only `b` leaves the set. */
  function WithoutValue(s: seq<UInt32>, b: nat): (r: seq<UInt32>)
    requires b / 32 < |s|
    ensures |r| == |s| && !Contains(r, b)
    ensures forall i :: InUniverse(s, i) && i != b ==> Contains(r, i) == Contains(s, i)
  {
    s[b / 32 := And32(s[b / 32], Not32(Bit32(b % 32)))]
  }

  /** Word-wise OR of `s` with the first `|s|` words of `other`: the set union. */
  function UnionWords(s: seq<UInt32>, other: seq<UInt32>): (r: seq<UInt32>)
    requires |s| <= |other|
    ensures |r| == |s|
    ensures forall i :: InUniverse(s, i) ==> Contains(r, i) == (Contains(s, i) || Contains(other, i))
  {
    seq(|s|, k requires 0 <= k < |s| => Or32(s[k], other[k]))
  }

  /** Word-wise AND of `s` with the first `|s|` words of `other`: the set intersection. */
  function IntersectionWords(s: seq<UInt32>, other: seq<UInt32>): (r: seq<UInt32>)
    requires |s| <= |other|
    ensures |r| == |s|
    ensures forall i :: InUniverse(s, i) ==> Contains(r, i) == (Contains(s, i) && Contains(other, i))
  {
    seq(|s|, k requires 0 <= k < |s| => And32(s[k], other[k]))
  }

  /** `byteset_set`: add value `b` to the set in place. */
  method Set(s: array<UInt32>, b: nat)
    requires b / 32 < s.Length
    modifies s
    ensures s[..] == WithValue(old(s[..]), b)
  {
    s[b / 32] := Or32(s[b / 32], Bit32(b % 32));
  }

  /** `byteset_clear`: remove value `b` from the set in place. */
  method Clear(s: array<UInt32>, b: nat)
    requires b / 32 < s.Length
    modifies s
    ensures s[..] == WithoutValue(old(s[..]), b)
  {
    s[b / 32] := And32(s[b / 32], Not32(Bit32(b % 32)));
  }

  /**
   * `byteset_set_range`: add every value of the inclusive range `start..=end`
   * (nothing when `start > end`); values outside the range keep their membership.
   */
  method SetRange(s: array<UInt32>, start: UInt8, end: UInt8)
    requires start <= end ==> end / 32 < s.Length
    modifies s
    ensures forall i :: InUniverse(old(s[..]), i) ==>
      Contains(s[..], i) == (Contains(old(s[..]), i) || start <= i <= end)
  {
    var elt: int := start;
    while elt <= end
      invariant start <= elt && (elt == start || elt <= end + 1)
      invariant s.Length == |old(s[..])|
      invariant forall i :: InUniverse(old(s[..]), i) ==>
        Contains(s[..], i) == (Contains(old(s[..]), i) || start <= i < elt)
    {
      Set(s, elt);
      elt := elt + 1;
    }
  }

  /** `byteset_union`: `s` becomes `s ∪ other`; `other` is untouched. */
  method Union(s: array<UInt32>, other: seq<UInt32>)
    requires s.Length <= |other|
    modifies s
    ensures s[..] == UnionWords(old(s[..]), other)
  {
    for i := 0 to s.Length
      invariant forall k :: 0 <= k < i ==> s[k] == Or32(old(s[k]), other[k])
      invariant forall k :: i <= k < s.Length ==> s[k] == old(s[k])
    {
      s[i] := Or32(s[i], other[i]);
    }
  }

  /** `byteset_intersection`: `s` becomes `s ∩ other`; `other` is untouched. */
  method Intersection(s: array<UInt32>, other: seq<UInt32>)
    requires s.Length <= |other|
    modifies s
    ensures s[..] == IntersectionWords(old(s[..]), other)
  {
    for i := 0 to s.Length
      invariant forall k :: 0 <= k < i ==> s[k] == And32(old(s[k]), other[k])
      invariant forall k :: i <= k < s.Length ==> s[k] == old(s[k])
    {
      s[i] := And32(s[i], other[i]);
    }
  }

  /** `byteset_256`: a fresh empty set sized for all 256 byte values. */
  method Byteset256() returns (s: array<UInt32>)
    ensures fresh(s) && s.Length == 256 / 32
    ensures forall i :: 0 <= i < 256 ==> !Contains(s[..], i)
  {
    s := new UInt32[256 / 32](_ => 0);
    forall i | 0 <= i < 256 ensures !Contains(s[..], i) {
      TestBitZero(i % 32);
    }
  }

  /** `byteset_from_range`: the 8 words holding exactly the bytes `start..=end`. */
  method FromRange(start: UInt8, end: UInt8) returns (r: seq<UInt32>)
    ensures |r| == 8
    ensures forall i :: 0 <= i < 256 ==> (Contains(r, i) <==> start <= i <= end)
  {
    var s := Byteset256();
    SetRange(s, start, end);
    r := s[..];
  }
}
