/**
 * Regular-expression nodes as stored in an expression set: flags, tags, the
 * `Expr` value itself and its encoding as a slice of 32-bit words.
 *
 * The first word of an encoded node packs the flags (bits 8 and up) with the
 * tag (the low byte); the remaining words are the node's payload.
 */
module Exprs {
  import opened Words
  import opened Bits
  import opened ByteSets
  import opened HashConses

  /** `ExprRef`: an index into an expression set; 0 is reserved as invalid. */
  type ExprRef = UInt32

  const INVALID: ExprRef := 0
  const EMPTY_STRING: ExprRef := 1
  const NO_MATCH: ExprRef := 2
  const ANY_BYTE: ExprRef := 3
  const ANY_BYTE_STRING: ExprRef := 4
  const NON_EMPTY_BYTE_STRING: ExprRef := 5

  /** The flag word of a node: bit 8 is "nullable", bit 9 is "positive". */
  datatype ExprFlags = ExprFlags(bits: UInt32)
  {
    predicate IsNullable()
    {
      TestBit(bits, 8)
    }

    predicate IsPositive()
    {
      TestBit(bits, 9)
    }

    /** The low byte is left free for the tag. */
    predicate Wf()
    {
      forall k: nat :: k < 8 ==> !TestBit(bits, k)
    }

    /** `encode`: the first word of a node, flags OR tag. */
    function Encode(tag: ExprTag): (w: UInt32)
    {
      Or32(bits, tag.Code())
    }
  }

  /** `1 << 8` */
  const NULLABLE: ExprFlags := ExprFlags(0x100)
  /** `1 << 9` */
  const POSITIVE: ExprFlags := ExprFlags(0x200)
  const ZERO: ExprFlags := ExprFlags(0)
  /** `POSITIVE | NULLABLE` */
  const POSITIVE_NULLABLE: ExprFlags := ExprFlags(0x300)

  /** The flag constants are the shifts and the union the source writes them as. */
  lemma FlagConstantValues()
    ensures NULLABLE.bits == Bit32(8) && POSITIVE.bits == Bit32(9)
    ensures POSITIVE_NULLABLE.bits == Or32(POSITIVE.bits, NULLABLE.bits)
  {
    assert Pow2(8) == 0x100;
    assert BitOr(0x200, 0x100) == 0x300;
  }

  /** What each named flag constant says. */
  lemma FlagConstants()
    ensures NULLABLE.Wf() && NULLABLE.IsNullable() && !NULLABLE.IsPositive()
    ensures POSITIVE.Wf() && !POSITIVE.IsNullable() && POSITIVE.IsPositive()
    ensures ZERO.Wf() && !ZERO.IsNullable() && !ZERO.IsPositive()
    ensures POSITIVE_NULLABLE.Wf() && POSITIVE_NULLABLE.IsNullable() && POSITIVE_NULLABLE.IsPositive()
  {
    FlagsWf();
  }

  /** Every named flag constant leaves the tag byte clear. */
  lemma FlagsWf()
    ensures NULLABLE.Wf() && POSITIVE.Wf() && ZERO.Wf() && POSITIVE_NULLABLE.Wf()
  {
    LowByteClear(NULLABLE, 1);
    LowByteClear(POSITIVE, 2);
    LowByteClear(ZERO, 0);
    LowByteClear(POSITIVE_NULLABLE, 3);
  }

  /** A multiple of 256 leaves the tag byte clear. */
  lemma LowByteClear(f: ExprFlags, m: nat)
    requires f.bits == 0x100 * m
    ensures f.Wf()
  {
    Pow2Is8();
    forall k: nat | k < 8 ensures !TestBit(f.bits, k) {
      LowBitsOfMultiple(m, 8, k);
    }
  }

  /**
   * `from_nullable_positive`: anything nullable is also positive, and the
   * flags never touch the tag byte.
   */
  function FromNullablePositive(nullable: bool, positive: bool): (f: ExprFlags)
    ensures f.Wf()
    ensures f.IsNullable() == nullable
    ensures f.IsPositive() == (nullable || positive)
  {
    FlagConstants();
    if nullable then POSITIVE_NULLABLE
    else if positive then POSITIVE
    else ZERO
  }

  /** `ExprTag`: the low byte of a node's first word. */
  datatype ExprTag =
    | EmptyString | NoMatch | Byte | ByteSet | RemainderIs | Lookahead
    | Not | Repeat | Concat | Or | And
  {
    function Code(): (c: UInt8)
      ensures 1 <= c <= MAX_TAG
    {
      match this
      case EmptyString => 1
      case NoMatch => 2
      case Byte => 3
      case ByteSet => 4
      case RemainderIs => 5
      case Lookahead => 6
      case Not => 7
      case Repeat => 8
      case Concat => 9
      case Or => 10
      case And => 11
    }
  }

  /** `ExprTag::MAX_VAL`, the code of the last tag. */
  const MAX_TAG: UInt8 := 11

  /**
   * `ExprTag::from_u8`: the tag with code `x`; `None` models the panic on 0
   * and on codes above `MAX_TAG`.
   */
  function FromU8(x: UInt8): (r: Option<ExprTag>)
    ensures r.Some? <==> 1 <= x <= MAX_TAG
    ensures forall t: ExprTag :: r == Some(t) <==> t.Code() == x
  {
    if x == 0 || x > MAX_TAG then None
    else if x == 1 then Some(ExprTag.EmptyString)
    else if x == 2 then Some(ExprTag.NoMatch)
    else if x == 3 then Some(ExprTag.Byte)
    else if x == 4 then Some(ExprTag.ByteSet)
    else if x == 5 then Some(ExprTag.RemainderIs)
    else if x == 6 then Some(ExprTag.Lookahead)
    else if x == 7 then Some(ExprTag.Not)
    else if x == 8 then Some(ExprTag.Repeat)
    else if x == 9 then Some(ExprTag.Concat)
    else if x == 10 then Some(ExprTag.Or)
    else Some(ExprTag.And)
  }

  /**
   * `Expr`: one node. Children are `ExprRef`s into the owning set; a byte set
   * is its slice of words.
   */
  datatype Expr =
    | EmptyString
    | NoMatch
    | Byte(b: UInt8)
    | ByteSet(words: seq<UInt32>)
    /** Numbers `N` with `N % divisor == remainder`. */
    | RemainderIs(divisor: UInt32, remainder: UInt32)
    | Lookahead(flags: ExprFlags, e: ExprRef, n: UInt32)
    | Not(flags: ExprFlags, e: ExprRef)
    | Repeat(flags: ExprFlags, e: ExprRef, min: UInt32, max: UInt32)
    | Concat(flags: ExprFlags, es: seq<ExprRef>)
    | Or(flags: ExprFlags, es: seq<ExprRef>)
    | And(flags: ExprFlags, es: seq<ExprRef>)
  {
    /** Nodes that consume exactly one byte or nothing: the ones `matches_byte` accepts. */
    predicate IsSimple()
    {
      EmptyString? || NoMatch? || Byte? || ByteSet?
    }

    /** Nodes that carry their own flags. */
    predicate HasFlags()
    {
      Lookahead? || Not? || Repeat? || Concat? || Or? || And?
    }

    /**
     * Nodes the encoding can carry: stored flags leave the tag byte free,
     * and a single child is never the reserved reference 0.
     */
    predicate Wf()
    {
      (HasFlags() ==> flags.Wf()) &&
      ((Lookahead? || Not? || Repeat?) ==> e != INVALID)
    }

    /** `surely_no_match`: true only when byte `x` certainly cannot start a match. */
    predicate SurelyNoMatch(x: UInt8)
      requires ByteSet? ==> x / 32 < |words|
    {
      match this
      case EmptyString => true
      case NoMatch => true
      case Byte(b2) => x != b2
      case ByteSet(s) => !Contains(s, x)
      case _ => false
    }

    /** `matches_byte`: whether the one-byte string `[x]` matches a simple node. */
    predicate MatchesByte(x: UInt8)
      requires IsSimple()
      requires ByteSet? ==> x / 32 < |words|
    {
      match this
      case EmptyString => false
      case NoMatch => false
      case Byte(b2) => x == b2
      case ByteSet(s) => Contains(s, x)
    }

    /** `args`: the children, in order. */
    function Args(): (r: seq<ExprRef>)
      ensures (Concat? || Or? || And?) ==> r == es
      ensures (Lookahead? || Not? || Repeat?) ==> r == [e]
      ensures IsSimple() || RemainderIs? ==> r == []
    {
      match this
      case Concat(_, es) => es
      case Or(_, es) => es
      case And(_, es) => es
      case Lookahead(_, e, _) => [e]
      case Not(_, e) => [e]
      case Repeat(_, e, _, _) => [e]
      case _ => []
    }

    /**
     * `get_flags`: stored flags for compound nodes, fixed flags for leaves.
     * The empty string is nullable, a remainder test is nullable exactly when
     * it accepts remainder 0, byte classes are positive but not nullable and
     * `NoMatch` is neither.
     */
    function Flags(): (f: ExprFlags)
      ensures HasFlags() ==> f == flags
      ensures EmptyString? ==> f.IsNullable() && f.IsPositive()
      ensures NoMatch? ==> !f.IsNullable() && !f.IsPositive()
      ensures (Byte? || ByteSet?) ==> !f.IsNullable() && f.IsPositive()
      ensures RemainderIs? ==> f.IsPositive() && (f.IsNullable() <==> remainder == 0)
      ensures Wf() ==> f.Wf()
    {
      FlagsWf();
      match this
      case EmptyString => POSITIVE_NULLABLE
      case RemainderIs(_, k) => if k == 0 then POSITIVE_NULLABLE else POSITIVE
      case NoMatch => ZERO
      case Byte(_) => POSITIVE
      case ByteSet(_) => POSITIVE
      case Lookahead(f, _, _) => f
      case Not(f, _) => f
      case Repeat(f, _, _, _) => f
      case Concat(f, _) => f
      case Or(f, _) => f
      case And(f, _) => f
    }

    /** `nullable`: whether the node matches the empty string. */
    predicate Nullable()
    {
      Flags().IsNullable()
    }

    /**
     * Which nodes are nullable: the empty string always, a remainder test
     * exactly when it accepts remainder 0, `NoMatch` and byte classes never,
     * and a compound node exactly when its stored flags say so.
     */
    lemma NullableCases()
      ensures EmptyString? ==> Nullable()
      ensures NoMatch? || Byte? || ByteSet? ==> !Nullable()
      ensures RemainderIs? ==> (Nullable() <==> remainder == 0)
      ensures HasFlags() ==> (Nullable() <==> flags.IsNullable())
    {
    }

    /** The tag this node is serialized under. */
    function Tag(): (t: ExprTag)
    {
      match this
      case EmptyString => ExprTag.EmptyString
      case NoMatch => ExprTag.NoMatch
      case Byte(_) => ExprTag.Byte
      case ByteSet(_) => ExprTag.ByteSet
      case RemainderIs(_, _) => ExprTag.RemainderIs
      case Lookahead(_, _, _) => ExprTag.Lookahead
      case Not(_, _) => ExprTag.Not
      case Repeat(_, _, _, _) => ExprTag.Repeat
      case Concat(_, _) => ExprTag.Concat
      case Or(_, _) => ExprTag.Or
      case And(_, _) => ExprTag.And
    }
  }

  /**
   * On simple nodes `surely_no_match` is exactly the negation of
   * `matches_byte`; on every other node it answers false.
   */
  lemma SurelyNoMatchExact(x: Expr, b: UInt8)
    requires x.ByteSet? ==> b / 32 < |x.words|
    ensures x.IsSimple() ==> (x.SurelyNoMatch(b) <==> !x.MatchesByte(b))
    ensures !x.IsSimple() ==> !x.SurelyNoMatch(b)
  {
  }

  /** The words stored after the first word: the node's payload. */
  function Payload(x: Expr): (p: seq<UInt32>)
  {
    match x
    case EmptyString => []
    case NoMatch => []
    case RemainderIs(d, r) => [d, r]
    case Byte(b) => [b]
    case ByteSet(s) => s
    case Lookahead(_, e, n) => [e, n]
    case Not(_, e) => [e]
    case Repeat(_, e, a, b) => [e, a, b]
    case Concat(_, es) => es
    case Or(_, es) => es
    case And(_, es) => es
  }

  /** `serialize`: the words a node is stored as, its packed first word then its payload. */
  function Encode(x: Expr): (w: seq<UInt32>)
  {
    [x.Flags().Encode(x.Tag())] + Payload(x)
  }

  /** `push_u32` of the packed first word, then `push_slice` of the payload. */
  method PushHeadThenSlice(trg: HashCons, head: UInt32, payload: seq<UInt32>)
    modifies trg
    ensures trg.entries == old(trg.entries)
    ensures trg.pending == old(trg.pending) + ([head] + payload)
  {
    trg.PushU32(head);
    trg.PushSlice(payload);
  }

  /** `nary_serialize`: the packed first word, then the children. */
  method NarySerialize(trg: HashCons, head: UInt32, es: seq<ExprRef>)
    modifies trg
    ensures trg.entries == old(trg.entries)
    ensures trg.pending == old(trg.pending) + ([head] + es)
  {
    PushHeadThenSlice(trg, head, es);
  }

  /** `serialize`: push the words of `x` onto the slice `trg` is assembling. */
  method Serialize(x: Expr, trg: HashCons)
    modifies trg
    ensures trg.entries == old(trg.entries)
    ensures trg.pending == old(trg.pending) + Encode(x)
  {
    var flags := x.Flags();
    if x.HasFlags() {
      SerializeCompound(x, trg);
    } else {
      SerializeLeaf(x, flags, trg);
    }
  }

  /** The leaf arms of `serialize`: the first word packs `flags` with the leaf's tag. */
  method SerializeLeaf(x: Expr, flags: ExprFlags, trg: HashCons)
    requires !x.HasFlags()
    modifies trg
    ensures trg.entries == old(trg.entries)
    ensures trg.pending == old(trg.pending) + ([flags.Encode(x.Tag())] + Payload(x))
  {
    match x
    case EmptyString => trg.PushU32(flags.Encode(ExprTag.EmptyString));
    case NoMatch => trg.PushU32(flags.Encode(ExprTag.NoMatch));
    case RemainderIs(d, r) => trg.PushSlice([flags.Encode(ExprTag.RemainderIs), d, r]);
    case Byte(b) => trg.PushSlice([flags.Encode(ExprTag.Byte), b]);
    case ByteSet(s) => PushHeadThenSlice(trg, flags.Encode(ExprTag.ByteSet), s);
  }

  /** The arms of `serialize` for nodes that carry their own flags. */
  method SerializeCompound(x: Expr, trg: HashCons)
    requires x.HasFlags()
    modifies trg
    ensures trg.entries == old(trg.entries)
    ensures trg.pending == old(trg.pending) + ([x.flags.Encode(x.Tag())] + Payload(x))
  {
    match x
    case Lookahead(f, e, n) => trg.PushSlice([f.Encode(ExprTag.Lookahead), e, n]);
    case Not(f, e) => trg.PushSlice([f.Encode(ExprTag.Not), e]);
    case Repeat(f, e, a, b) => trg.PushSlice([f.Encode(ExprTag.Repeat), e, a, b]);
    case Concat(f, es) => NarySerialize(trg, f.Encode(ExprTag.Concat), es);
    case Or(f, es) => NarySerialize(trg, f.Encode(ExprTag.Or), es);
    case And(f, es) => NarySerialize(trg, f.Encode(ExprTag.And), es);
  }

  /** `s[0] & !0xff`: the flags of a first word; the tag byte is always clear. */
  function FlagsOfWord(w: UInt32): (f: ExprFlags)
    ensures f.Wf()
  {
    var r := And32(w, Not32(0xff));
    forall k: nat | k < 8 ensures !TestBit(r, k) {
      LowByteMask(k);
    }
    ExprFlags(r)
  }

  /** `ExprTag::from_u8((s[0] & 0xff) as u8)`: the tag of a first word, if it is one. */
  function TagOfWord(w: UInt32): (t: Option<ExprTag>)
  {
    FromU8(And32(w, 0xff) % 0x100)
  }

  /** Bit `k` of `0xff` is set exactly for `k < 8`. */
  lemma LowByteMask(k: nat)
    ensures TestBit(0xff, k) == (k < 8)
  {
    Pow2Is8();
    TestComplement(0, 8, k);
    TestBitZero(k);
  }

  /** Masking off the tag byte of a packed first word leaves the flags. */
  lemma FlagsOfEncode(f: ExprFlags, t: ExprTag)
    requires f.Wf()
    ensures FlagsOfWord(f.Encode(t)) == f
  {
    var w, c := f.Encode(t), t.Code();
    var r := And32(w, Not32(0xff));
    Pow2Is8();
    Pow2Is32();
    forall k: nat | k < 32 ensures TestBit(r, k) == TestBit(f.bits, k) {
      LowByteMask(k);
      assert TestBit(r, k) == (TestBit(w, k) && !TestBit(0xff, k));
      assert TestBit(w, k) == (TestBit(f.bits, k) || TestBit(c, k));
      if k < 8 {
        assert !TestBit(f.bits, k);
      } else {
        TestBitAbove(c, 8, k);
      }
    }
    BitsDetermine(r, f.bits, 32);
  }

  /** Keeping only the tag byte of a packed first word leaves the tag code. */
  lemma LowByteOfEncode(f: ExprFlags, t: ExprTag)
    requires f.Wf()
    ensures And32(f.Encode(t), 0xff) == t.Code()
  {
    var w, c := f.Encode(t), t.Code();
    var r := And32(w, 0xff);
    Pow2Is8();
    Pow2Is32();
    forall k: nat | k < 32 ensures TestBit(r, k) == TestBit(c, k) {
      LowByteMask(k);
      assert TestBit(r, k) == (TestBit(w, k) && TestBit(0xff, k));
      assert TestBit(w, k) == (TestBit(f.bits, k) || TestBit(c, k));
      if k < 8 {
        assert !TestBit(f.bits, k);
      } else {
        TestBitAbove(c, 8, k);
      }
    }
    BitsDetermine(r, c, 32);
  }

  /** The tag read back from a packed first word is the one packed into it. */
  lemma TagOfEncode(f: ExprFlags, t: ExprTag)
    requires f.Wf()
    ensures TagOfWord(f.Encode(t)) == Some(t)
  {
    LowByteOfEncode(f, t);
    TagOfLowByte(f.Encode(t), t);
  }

  lemma TagOfLowByte(w: UInt32, t: ExprTag)
    requires And32(w, 0xff) == t.Code()
    ensures TagOfWord(w) == Some(t)
  {
    FromU8Code(t);
  }

  /** `from_u8` inverts the tag codes. */
  lemma FromU8Code(t: ExprTag)
    ensures FromU8(t.Code()) == Some(t)
  {
    var r := FromU8(t.Code());
    assert r == Some(t) <==> t.Code() == t.Code();
  }

  /** Splitting the first word recovers the flags and the tag that were packed into it. */
  lemma SplitWord(f: ExprFlags, t: ExprTag)
    requires f.Wf()
    ensures FlagsOfWord(f.Encode(t)) == f
    ensures TagOfWord(f.Encode(t)) == Some(t)
  {
    FlagsOfEncode(f, t);
    TagOfEncode(f, t);
  }

  /**
   * `from_slice`: the node stored in `w`. `None` models every panic of the
   * source: an empty slice, an invalid tag, a slice too short for its tag, and
   * `ExprRef::new(0)` for a single child.
   */
  function Decode(w: seq<UInt32>): (r: Option<Expr>)
    ensures r.Some? ==> r.value.Wf() && |w| >= 1 && TagOfWord(w[0]) == Some(r.value.Tag())
    ensures r.Some? ==> |Encode(r.value)| <= |w|
  {
    if |w| == 0 then None
    else
      match TagOfWord(w[0])
      case None => None
      case Some(tag) => DecodePayload(tag, FlagsOfWord(w[0]), w[1..])
  }

  /** The fewest payload words `from_slice` reads for a node with tag `tag`. */
  function MinPayload(tag: ExprTag): (n: nat)
    ensures n <= 3
  {
    match tag
    case Byte => 1
    case Not => 1
    case Lookahead => 2
    case RemainderIs => 2
    case Repeat => 3
    case _ => 0
  }

  /** The tags whose first payload word is a single child. */
  predicate SingleChild(tag: ExprTag)
  {
    tag.Lookahead? || tag.Not? || tag.Repeat?
  }

  /** The node with tag `tag` and flags `flags` whose payload is `p`, as `from_slice` reads it. */
  function DecodePayload(tag: ExprTag, flags: ExprFlags, p: seq<UInt32>): (r: Option<Expr>)
    requires flags.Wf()
    ensures r.Some? ==> r.value.Wf() && r.value.Tag() == tag && |Payload(r.value)| <= |p|
    ensures r.None? <==> |p| < MinPayload(tag) || (SingleChild(tag) && p[0] == INVALID)
  {
    match tag
    case EmptyString => Some(Expr.EmptyString)
    case NoMatch => Some(Expr.NoMatch)
    case Byte => if |p| < 1 then None else Some(Expr.Byte(p[0] % 0x100))
    case ByteSet => Some(Expr.ByteSet(p))
    case Lookahead =>
      if |p| < 2 || p[0] == INVALID then None else Some(Expr.Lookahead(flags, p[0], p[1]))
    case Not => if |p| < 1 || p[0] == INVALID then None else Some(Expr.Not(flags, p[0]))
    case RemainderIs => if |p| < 2 then None else Some(Expr.RemainderIs(p[0], p[1]))
    case Repeat =>
      if |p| < 3 || p[0] == INVALID then None else Some(Expr.Repeat(flags, p[0], p[1], p[2]))
    case Concat => Some(Expr.Concat(flags, p))
    case Or => Some(Expr.Or(flags, p))
    case And => Some(Expr.And(flags, p))
  }

  /** Decoding the payload of a well-formed node under its own tag and flags gives the node. */
  lemma DecodePayloadOf(x: Expr)
    requires x.Wf()
    ensures DecodePayload(x.Tag(), x.Flags(), Payload(x)) == Some(x)
  {
    if x.Byte? {
      assert x.b % 0x100 == x.b;
    }
  }

  /** Round trip: decoding the words of a well-formed node gives the node back. */
  lemma DecodeEncode(x: Expr)
    requires x.Wf()
    ensures Decode(Encode(x)) == Some(x)
  {
    SplitWord(x.Flags(), x.Tag());
    assert Encode(x)[1..] == Payload(x);
    DecodePayloadOf(x);
  }

  /** Distinct well-formed nodes are stored as distinct words. */
  lemma EncodeInjective(x: Expr, y: Expr)
    requires x.Wf() && y.Wf() && Encode(x) == Encode(y)
    ensures x == y
  {
    DecodeEncode(x);
    DecodeEncode(y);
  }

  /**
   * `ExprSet::get_args`: the children read straight from the words, without
   * decoding the whole node. `None` models the panics on a bad tag or a
   * missing child word.
   */
  function ArgsOfWords(w: seq<UInt32>): (r: Option<seq<ExprRef>>)
  {
    if |w| == 0 then None
    else
      match TagOfWord(w[0])
      case None => None
      case Some(tag) => ArgsOfPayload(tag, w[1..])
  }

  /** The children held in payload `p` of a node with tag `tag`. */
  function ArgsOfPayload(tag: ExprTag, p: seq<UInt32>): (r: Option<seq<ExprRef>>)
  {
    if tag == ExprTag.Concat || tag == ExprTag.Or || tag == ExprTag.And then Some(p)
    else if tag == ExprTag.Not || tag == ExprTag.Repeat || tag == ExprTag.Lookahead then
      if |p| < 1 then None else Some(p[..1])
    else Some([])
  }

  lemma ArgsOfPayloadOf(x: Expr)
    ensures ArgsOfPayload(x.Tag(), Payload(x)) == Some(x.Args())
  {
    if x.Lookahead? || x.Not? || x.Repeat? {
      assert Payload(x)[..1] == [x.e];
    }
  }

  /**
   * Reading flags, tag or children straight from the stored words agrees with
   * decoding the node first.
   */
  lemma ReadersAgree(x: Expr)
    requires x.Wf()
    ensures FlagsOfWord(Encode(x)[0]) == x.Flags()
    ensures TagOfWord(Encode(x)[0]) == Some(x.Tag())
    ensures ArgsOfWords(Encode(x)) == Some(x.Args())
  {
    SplitWord(x.Flags(), x.Tag());
    assert Encode(x)[1..] == Payload(x);
    ArgsOfPayloadOf(x);
  }
}
