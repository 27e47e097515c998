# derivre expression store, modelled in Dafny

This project models the core of derivre's `src/ast.rs`, the part of the
regular-expression engine that stores expressions. It covers:

- **Byte sets.** A set of byte values is a slice of 32-bit words, and value
  `b` is bit `b % 32` of word `b / 32`. The model covers membership, set,
  clear, range, union, intersection and the 256-value constructors.
- **Expression nodes (`Expr`).** This covers their flags (nullable in bit 8,
  positive in bit 9), their tags (codes 1 to 11 in the low byte of the first
  word), and their encoding as word slices (`serialize`/`from_slice`), with
  the round trip proved.
- **The expression set (`ExprSet`).** It is a hash-consed, append-only store
  in which a node's `ExprRef` is its index. Id 0 is reserved, and ids 1 to 5
  hold the sentinels built by `new`.
  - The model covers `mk`, the getters that read straight from the stored
    words, `has_simply_forced_bytes`, and the two lookahead-length queries.
  - It also covers the memoised bottom-up traversal `map` and its wrapper
    `simple_map`.
- **`NextByte`.** Its `&` and `|` form the meet and join of a small lattice.

Modules and files:

- `words.dfy` (`Words`): the `u8`/`u32` types and `Option`.
- `bits.dfy` (`Bits`): bit tests, shifts, `|`, `&` and `!` on
  unbounded integers, defined arithmetically.
- `byteset.dfy` (`ByteSets`): the `byteset_*` functions, as methods over
  `array<UInt32>` specified by functions on sequences.
- `hashcons.dfy` (`HashConses`): the store behind an `ExprSet`, a class
  whose `entries` list only grows and never holds a slice twice.
- `expr.dfy` (`Exprs`): `ExprRef`, `ExprFlags`, `ExprTag`, `Expr`, the
  encoder and the decoder.
- `exprset.dfy` (`ExprSets`): the `ExprSet` class.
  - Besides the word store, it keeps a ghost sequence `nodes` of the
    decoded node behind each id, and `Valid()` ties the two together.
  - `map` is a method with the source's work-stack loop. It is proved
    against `Fold`, a recursive definition of the value `map` computes.
- `nextbyte.dfy` (`NextBytes`): `NextByte`, `&`, `|` and the lattice laws.

## Model

| member | source | states |
|---|---|---|
| ByteSets.ContainsWord | src/ast.rs:117-120 | `b` is in the set exactly when `s[b / 32] & (1 << (b % 32))` is non-zero |
| ByteSets.WithValue | src/ast.rs:122-125 | setting `b` puts `b` in the set and leaves the membership of every other value unchanged |
| ByteSets.WithoutValue | src/ast.rs:127-130 | clearing `b` removes `b` and leaves the membership of every other value unchanged |
| ByteSets.UnionWords | src/ast.rs:139-144 | each value is in the word-wise OR exactly when it is in either operand |
| ByteSets.IntersectionWords | src/ast.rs:146-151 | each value is in the word-wise AND exactly when it is in both operands |
| ByteSets.Set | src/ast.rs:122-125 | the array afterwards holds the old words with value `b` added |
| ByteSets.Clear | src/ast.rs:127-130 | the array afterwards holds the old words with value `b` removed |
| ByteSets.SetRange | src/ast.rs:132-137 | afterwards a value is in the set iff it was before or lies in `start..=end`; an empty range (`start > end`) changes nothing |
| ByteSets.Union | src/ast.rs:139-144 | the array afterwards is the union of its old words with `other` |
| ByteSets.Intersection | src/ast.rs:146-151 | the array afterwards is the intersection of its old words with `other` |
| ByteSets.Byteset256 | src/ast.rs:153-155 | a fresh array of 8 words in which no byte value is set |
| ByteSets.FromRange | src/ast.rs:157-161 | 8 words holding exactly the bytes of `start..=end`, so none when `start > end` |
| HashConses.HashCons.constructor | src/ast.rs:290 | a new store is empty and valid |
| HashConses.HashCons.StartInsert | src/ast.rs:401 | starting an insertion empties the slice being assembled and keeps the stored slices |
| HashConses.HashCons.PushU32 | src/ast.rs:245 | appends one word to the slice being assembled |
| HashConses.HashCons.PushSlice | src/ast.rs:246 | appends words to the slice being assembled |
| HashConses.HashCons.FinishInsert | src/ast.rs:403 | returns the id of the assembled slice: an equal stored slice keeps its id, otherwise the slice is appended under id `len`; no slice is ever stored twice |
| HashConses.HashCons.Insert | src/ast.rs:306-307 | a whole slice gets the same id-or-append contract |
| Exprs.FlagConstantValues | src/ast.rs:58-63 | `NULLABLE` is `1 << 8`, `POSITIVE` is `1 << 9`, and `POSITIVE_NULLABLE` is their OR |
| Exprs.FlagConstants | src/ast.rs:58-71 | what `is_nullable` and `is_positive` answer for each constant, and that none of them touches the tag byte |
| Exprs.FromNullablePositive | src/ast.rs:73-84 | the flags are nullable iff asked; they are positive iff nullable or positive was asked; the tag byte stays clear |
| Exprs.ExprTag.Code | src/ast.rs:92-105 | every tag's code lies in 1 ..= `MAX_VAL` |
| Exprs.FromU8 | src/ast.rs:107-115 | `None` (the panic) exactly for 0 and for codes above `MAX_VAL`; otherwise the unique tag with that code |
| Exprs.FromU8Code | src/ast.rs:107-115 | `from_u8` inverts the tag codes |
| Exprs.Expr.Args | src/ast.rs:184-197 | the children are the list of an n-ary node, the single child of a unary node, and nothing for a leaf |
| Exprs.Expr.Flags | src/ast.rs:199-222 | compound nodes report their stored flags; the leaf flags are fixed, and a remainder test is nullable iff its remainder is 0 |
| Exprs.SurelyNoMatchExact | src/ast.rs:164-182 | on single-byte nodes `surely_no_match` is the negation of `matches_byte`; on other nodes it is false |
| Exprs.PushHeadThenSlice | src/ast.rs:258-261 | the assembled slice grows by the packed first word and then the payload |
| Exprs.NarySerialize | src/ast.rs:244-247 | the assembled slice grows by the packed first word and then the children |
| Exprs.Serialize | src/ast.rs:242-274 | the assembled slice grows by exactly the node's encoding, and nothing is stored yet |
| Exprs.SerializeLeaf | src/ast.rs:248-261 | the leaf arms append the first word packing the leaf flags with the leaf's tag, then its payload |
| Exprs.SerializeCompound | src/ast.rs:262-271 | the compound arms append the first word packing the node's own flags with its tag, then its payload |
| Exprs.FlagsOfWord | src/ast.rs:225 | masking off the low byte gives flags whose tag byte is clear |
| Exprs.SplitWord | src/ast.rs:86-89 | the flags and the tag packed by `encode` are read back unchanged |
| Exprs.Decode | src/ast.rs:224-240 | a decoded node is well formed, carries the tag of the first word, and its encoding fits in the words read |
| Exprs.DecodePayload | src/ast.rs:228-239 | whatever a tag's arm builds is a well-formed node of that tag whose payload fits in the words read; the result is `None` exactly when the payload is shorter than the arm reads or a single child is `ExprRef::new(0)` |
| Exprs.Expr.NullableCases | src/ast.rs:220-222 | the empty string is nullable, a remainder test exactly when it accepts remainder 0, `NoMatch` and byte classes never, and a compound node exactly when its stored flags say so |
| Exprs.DecodeEncode | src/ast.rs:224-274 | round trip: `from_slice` of `serialize` gives the node back |
| Exprs.EncodeInjective | src/ast.rs:242-274 | distinct well-formed nodes have distinct encodings |
| Exprs.ReadersAgree | src/ast.rs:449-472 | reading the flags, the tag or the children straight from the words agrees with decoding the node |
| ExprSets.MinOption | src/ast.rs:421-429 | the smaller of two optional lengths; `None` only when both are `None` |
| ExprSets.HoldsAfterInsert | src/ast.rs:400-404 | after `finish_insert`, the store holds the node at the returned id, appended only if it was new |
| ExprSets.Sentinels | src/ast.rs:308-323 | the five sentinels are well formed, pairwise distinct, and refer only to earlier ids |
| ExprSets.Pending | src/ast.rs:521-528 | the scan pushes nothing exactly when every scanned child is cached |
| ExprSets.PendingMembers | src/ast.rs:521-528 | the pushed ids are exactly the scanned children whose key is not cached |
| ExprSets.Found | src/ast.rs:521-528 | when every scanned child is cached, `mapped` is their cached values in argument order |
| ExprSets.ScanTo | src/ast.rs:521-528 | the scan counted by position agrees with scanning the prefix |
| ExprSets.FoundGrown | src/ast.rs:540-541 | a cache that only gained keys reads the same values for children it already had |
| ExprSets.AddOne | src/ast.rs:540-541 | inserting the key of a new processed node keeps "every new key comes from exactly one processed node" |
| ExprSets.PushOrdered | src/ast.rs:527 | pushed children are smaller ids than the entry they were pushed for |
| ExprSets.PopMeasure | src/ast.rs:513 | popping does not grow the uncached, unexpanded ids (termination) |
| ExprSets.PushMeasure | src/ast.rs:534-535 | expanding the top shrinks the uncached, unexpanded ids (termination) |
| ExprSets.ExprSet.IsValidNode | src/ast.rs:410-412 | an id is valid exactly when it is not the reserved 0 and below `len`, and then its stored words are the encoding of a well-formed node |
| ExprSets.ExprSet.Len | src/ast.rs:391-393 | the number of ids; the valid ids are exactly 1 to `len - 1` |
| ExprSets.ExprSet.Get | src/ast.rs:406-408 | decoding the stored words of a valid id gives the node stored under it |
| ExprSets.ExprSet.GetFlags | src/ast.rs:449-452 | the flags read from the first word are the node's flags |
| ExprSets.ExprSet.GetTag | src/ast.rs:454-458 | the tag read from the first word is the node's tag |
| ExprSets.ExprSet.GetArgs | src/ast.rs:460-472 | the children read from the words are `get(id).args()` |
| ExprSets.ExprSet.IsNullable | src/ast.rs:474-476 | `is_nullable` is the nullable flag of the stored node |
| ExprSets.ExprSet.IsPositive | src/ast.rs:478-480 | `is_positive` is the positive flag of the stored node |
| ExprSets.ExprSet.Mk | src/ast.rs:400-404 | returns an id holding `x`: an equal node keeps its id, otherwise `x` is appended under the next id; stored nodes never change; the set stays valid, and stays acyclic when `x`'s children are ids already stored |
| ExprSets.ExprSet.Canonical | src/ast.rs:400-404 | hash-consing: two valid ids holding equal nodes are the same id |
| ExprSets.ExprSet.constructor | src/ast.rs:289-330 | id 0 is reserved, and ids 1 to 5 hold the empty string, no match, any byte (every alphabet word full), `Repeat(ANY_BYTE, 0, u32::MAX)` and `Repeat(ANY_BYTE, 1, u32::MAX)`; `alphabet_words` is the word count rounded up |
| ExprSets.ExprSet.AllBytes | src/ast.rs:341-348 | the children are, position by position, `Byte` nodes of the given bytes |
| ExprSets.ExprSet.HasSimplyForcedBytes | src/ast.rs:335-350 | true for no bytes; for a `Byte` iff the bytes are that single byte; for a `Concat` iff it has at least as many children and its first ones are those bytes; false otherwise |
| ExprSets.ExprSet.LookaheadLenInner | src/ast.rs:414-419 | `Some(n)` exactly for a lookahead of the empty string with length `n` |
| ExprSets.ExprSet.MinLookahead | src/ast.rs:421-429 | `None` iff no child has a lookahead length; otherwise the least of them, attained by a child |
| ExprSets.ExprSet.PossibleLookaheadLenInner | src/ast.rs:431-436 | `n` for any lookahead node, 0 otherwise |
| ExprSets.ExprSet.MaxPossibleLookahead | src/ast.rs:438-447 | the greatest child value, attained by a child; 0 for an `Or` with no children |
| ExprSets.ExprSet.LookaheadLenSpec | src/ast.rs:421-429 | `lookahead_len` of an `Or` is the minimum over the children that have one, attained by a child, and `None` iff none has one; of any other node, `Some(n)` exactly for a lookahead of the empty string |
| ExprSets.ExprSet.PossibleLookaheadLenSpec | src/ast.rs:438-447 | `possible_lookahead_len` of an `Or` is the greatest child value, attained by a child, and 0 when it has no children; of any other node, `n` for a lookahead and 0 otherwise |
| ExprSets.ExprSet.LookaheadWithinPossible | src/ast.rs:414-447 | a definite lookahead length never exceeds the possible one |
| ExprSets.ExprSet.FirstNonNullableAt | src/ast.rs:521-531 | the children before `FirstNonNullable` are nullable, and the one at it is not |
| ExprSets.ExprSet.Scanned | src/ast.rs:516-531 | the visited children are a prefix of the arguments: all of them, except that with the concat check a `Concat` is cut right after its first non-nullable child |
| ExprSets.ExprSet.ScannedConcat | src/ast.rs:521-531 | with the concat check, a `Concat` scan holds only nullable children up to and including its first non-nullable child, or all children when none is non-nullable |
| ExprSets.ExprSet.FoundIsFold | src/ast.rs:540 | with a consistent cache, `process` of the collected values is the node's `Fold` |
| ExprSets.ExprSet.PopStep | src/ast.rs:512-514 | popping a cached top keeps the work-stack invariant |
| ExprSets.ExprSet.WaitingGrow | src/ast.rs:527 | an expanded entry still has its uncached children above it after more pushes |
| ExprSets.ExprSet.WaitingShrink | src/ast.rs:538-541 | the same holds after the top is cached and popped |
| ExprSets.ExprSet.PushStep | src/ast.rs:521-535 | pushing the uncached children of the top keeps the stack invariant; the top had not been expanded before |
| ExprSets.ExprSet.PushWaiting | src/ast.rs:521-535 | after the push, the top's uncached children are above it |
| ExprSets.ExprSet.ProcessStack | src/ast.rs:538-541 | caching and popping the top keeps the stack invariant and strictly shrinks the uncached ids |
| ExprSets.ExprSet.ProcessRecords | src/ast.rs:538-541 | caching the processed top extends the record of the run by that node |
| ExprSets.ExprSet.ChildrenFirstStep | src/ast.rs:534-541 | a node is processed only after every child it scans is cached |
| ExprSets.ExprSet.ProcessedStep | src/ast.rs:540-541 | the new entry is `process` of the children's cached values in argument order, and older entries still read the same |
| ExprSets.ExprSet.ProcessAgrees | src/ast.rs:540-541 | caching the processed top keeps a cache that agrees with `Fold` in agreement |
| ExprSets.ExprSet.InitCase | src/ast.rs:506 | the loop starts with `r` alone on the stack and nothing processed |
| ExprSets.ExprSet.DoneCase | src/ast.rs:543 | an empty stack leaves `r`'s key cached, with `Fold(r)` in it when the cache agrees |
| ExprSets.ExprSet.PopCase | src/ast.rs:511-515 | the pop branch keeps the loop invariant without increasing the measure |
| ExprSets.ExprSet.PushCase | src/ast.rs:534-536 | the retry-children branch keeps the loop invariant and decreases the measure |
| ExprSets.ExprSet.ProcessCase | src/ast.rs:538-541 | the process branch keeps the loop invariant and decreases the uncached ids |
| ExprSets.ExprSet.ScanArgs | src/ast.rs:516-532 | `mapped` is the cached values of the scanned children in order, and `pushed` the uncached ones in order |
| ExprSets.ExprSet.ScanLoop | src/ast.rs:521-532 | the loop over the arguments collects the cached values and the uncached ids, and stops right after the first non-nullable child of a concatenation |
| ExprSets.ScanOne | src/ast.rs:524-528 | one step of the scan: a cached child adds its value to `mapped`, an uncached one is added to `pushed` |
| ExprSets.ExprSet.Map | src/ast.rs:494-544 | on a cache hit, returns the cached value and changes nothing; otherwise old entries are kept and every new key comes from exactly one processed node; each node's children are cached before it; `process` gets their values in argument order; the result is the entry for `r`, and it equals `Fold(r)` when the cache agrees with `Fold` |
| ExprSets.ExprSet.SimpleMap | src/ast.rs:483-491 | with an empty cache, identity keys and no concat check, the result is `Fold(r)` |
| NextBytes.LeOrder | src/ast.rs:547-558 | "allows no more than" is a partial order, with `Dead` at the bottom and `SomeBytes` at the top |
| NextBytes.And | src/ast.rs:560-575 | `bitand` is the greatest lower bound of its operands |
| NextBytes.Or | src/ast.rs:577-592 | `bitor` is the least upper bound of its operands |
| NextBytes.CommutativeIdempotent | src/ast.rs:560-592 | `bitand` and `bitor` are commutative and idempotent |
| NextBytes.Associative | src/ast.rs:560-592 | `bitand` and `bitor` are associative |
| NextBytes.Absorption | src/ast.rs:560-592 | absorption: the meet of `x` with the join of `x` and `y` is `x`, and the join of `x` with the meet of `x` and `y` is `x` |
| NextBytes.Bounds | src/ast.rs:560-592 | `SomeBytes` is the identity of `bitand` and absorbs under `bitor`; `Dead` is the identity of `bitor` and absorbs under `bitand` |
| NextBytes.Distinct | src/ast.rs:560-592 | distinct values other than `SomeBytes` meet to `Dead`, and distinct values other than `Dead` join to `SomeBytes` |

## Left out

- Pretty printing (`set_pp`, `pp`, `expr_to_string*`) is presentation only.
  The printer is not part of this model.
- `cost`, `disable_optimizations`, `digits`, `unicode_cache`, `num_bytes`,
  `alphabet_size()` and `alphabet_words()` only store or expose fields. The
  constructor states the two alphabet fields.
- The hashing and growth internals of `VecHashCons` are not modelled.
  `HashConses.HashCons` replaces them by a linear search and keeps only the
  store's contract: an equal slice gets its old id, and a new slice gets the
  next one.
- `mk_repeat` is not part of this model. Sentinels 4 and 5 are built with
  `mk` as `Repeat` nodes over `ANY_BYTE`. Their flags are taken as given
  (nullable for `0..`, positive for `1..`).
- `ExprSets.ExprSet.Mk` requires room for one more id (fewer than 2^32
  entries). What the store does when it runs out of ids is not modelled.
- `ExprSets.ExprSet.Mk` does not check that `x`'s children are stored, and
  neither does the source; it promises an acyclic set only when they are.
- `ExprSets.ExprSet.Mk` also requires a well-formed node. A `Not`,
  `Lookahead` or `Repeat` node whose child is `ExprRef::INVALID` is stored by
  the source's `mk` and rejected only by a later `get`; the model never
  stores it.
- The source's panics other than those of `from_u8` and `from_slice` (which
  become `None`) are modelled as preconditions, so the panicking inputs are
  outside the model:
  - `get`'s out-of-range index and `assert!(id.is_valid())` become
    `requires IsValid(id)` on `Get`, `GetFlags`, `GetTag`, `GetArgs`,
    `IsNullable` and `IsPositive`;
  - an out-of-range word index becomes a bound on `b`, `start..=end` or the
    length of `other` in `Set`, `Clear`, `SetRange`, `Union` and
    `Intersection`, and a bound on the byte in `Expr.SurelyNoMatch`;
  - `matches_byte`'s panic on a node that is not simple becomes
    `requires IsSimple()` on `Expr.MatchesByte`;
  - `HasSimplyForcedBytes` needs a valid id only for a non-empty probe,
    since the source answers an empty probe before calling `get`; of a
    concatenation's children it needs valid only those the comparison reads,
    up to and including the first that is not the expected byte
    (`BytesReadable`);
  - `LookaheadLen` and `PossibleLookaheadLen` require a valid id, and valid
    children only for an `Or`, the one case that reads them;
  - `Map` requires a valid root only when the root's key is not already
    cached, since the source returns a cached value before calling `get`.
- `ExprSets.ExprSet.HasSimplyForcedBytes`, `LookaheadLen` and
  `PossibleLookaheadLen` are ghost functions on the decoded nodes rather
  than code that decodes the words. `Get` is proved to decode each stored
  node exactly, so they read the same nodes the source reads.
- `map` works on the `ExprSet` through a `&mut` reference, and `process`
  may add nodes to the set. Here `process` is a pure function of the
  children's values and the id, and the set is unchanged.
- The cache is a `map<K, V>` and `mk_key` is a total function. Hashing and
  cloning are not modelled.
- `ExprSets.ExprSet.ScanArgs` returns the ids to push rather than pushing
  them onto `todo` in place. `Map` appends them in the same order, so the
  stack is the same.
- `ExprSets.ExprSet.Map` promises `Fold(r)` only when the incoming cache
  already agrees with `Fold` and equal keys have equal `Fold`s, which holds
  for `simple_map`'s identity key. With a key that merges nodes of
  different `Fold`, the source returns whichever value was cached first;
  the model states only how each entry was computed (`Records`).
- The ids a traversal processes (`processed`) and the expanded marks on the
  stack are ghost bookkeeping. They do not exist in the source.
- `ExprFlags` on compound nodes are whatever the builder stored. The
  simplifying constructors that compute them are in other files.
