/**
 * `ExprSet`: the hash-consed store of every regular-expression node built so
 * far. A node is referred to by its `ExprRef`, the index of its words in the
 * store; index 0 is reserved and indices 1 to 5 hold fixed sentinel nodes.
 */
module ExprSets {
  import opened Words
  import opened Exprs
  import opened HashConses

  /** The smaller of two optional lengths; `None` only when both are `None`. */
  function MinOption(a: Option<nat>, b: Option<nat>): (r: Option<nat>)
    ensures r.None? <==> a.None? && b.None?
    ensures r.Some? ==> (r == a || r == b)
    ensures a.Some? ==> r.Some? && r.value <= a.value
    ensures b.Some? ==> r.Some? && r.value <= b.value
  {
    match (a, b)
    case (None, _) => b
    case (_, None) => a
    case (Some(x), Some(y)) => if x <= y then a else b
  }

  /**
   * The slices `entries` hold the values `nodes` under encoding `enc`: slot 0
   * is the reserved empty slice and every other slot is its value's encoding.
   */
  ghost predicate Holds<T>(entries: seq<seq<UInt32>>, nodes: seq<T>, enc: T -> seq<UInt32>)
  {
    |entries| == |nodes| >= 1 && entries[0] == [] &&
    forall i {:trigger entries[i]} :: 1 <= i < |nodes| ==> entries[i] == enc(nodes[i])
  }

  /**
   * What one `finish_insert` of value `x`'s encoding does to the values held:
   * `x` is appended exactly when it was not held yet, and it ends up at `id`.
   */
  lemma {:induction false} HoldsAfterInsert<T>(entries0: seq<seq<UInt32>>, nodes0: seq<T>,
                                               entries1: seq<seq<UInt32>>, id: nat, x: T,
                                               enc: T -> seq<UInt32>)
    requires Holds(entries0, nodes0, enc) && |enc(x)| >= 1
    requires forall i :: 1 <= i < |nodes0| && enc(nodes0[i]) == enc(x) ==> nodes0[i] == x
    requires id < |entries1| && entries1[id] == enc(x)
    requires enc(x) in entries0 ==> entries1 == entries0
    requires enc(x) !in entries0 ==> entries1 == entries0 + [enc(x)] && id == |entries0|
    ensures var nodes1 := if x in nodes0[1..] then nodes0 else nodes0 + [x];
      Holds(entries1, nodes1, enc) && 0 < id && nodes1[id] == x
  {
    var nodes1 := if x in nodes0[1..] then nodes0 else nodes0 + [x];
    if enc(x) in entries0 {
      var k :| 0 <= k < |entries0| && entries0[k] == enc(x);
      assert k != 0;
      assert nodes0[1..][k - 1] == x;
    }
    if x in nodes0[1..] {
      var k :| 0 <= k < |nodes0| - 1 && nodes0[1..][k] == x;
      assert entries0[k + 1] == enc(x);
      assert entries1 == entries0;
    } else {
      assert entries1 == entries0 + [enc(x)];
      forall i | 1 <= i < |nodes1| ensures entries1[i] == enc(nodes1[i]) {
        if i < |nodes0| {
          assert nodes1[i] == nodes0[i] && entries1[i] == entries0[i];
        }
      }
    }
    assert id != 0;
  }

  /** Every node but the reserved slot 0 is well formed. */
  ghost predicate AllWf(nodes: seq<Expr>)
  {
    forall i {:trigger nodes[i].Wf()} :: 0 < i < |nodes| ==> nodes[i].Wf()
  }

  /** Among well-formed nodes, only `x` itself has `x`'s encoding. */
  lemma EncodesDistinct(nodes: seq<Expr>, x: Expr)
    requires AllWf(nodes) && x.Wf()
    ensures |Encode(x)| >= 1
    ensures forall i :: 1 <= i < |nodes| && Encode(nodes[i]) == Encode(x) ==> nodes[i] == x
  {
    forall i | 1 <= i < |nodes| && Encode(nodes[i]) == Encode(x) ensures nodes[i] == x {
      EncodeInjective(nodes[i], x);
    }
  }

  /** Every child of `x` is a non-reserved id below `n`. */
  ghost predicate ChildrenIn(x: Expr, n: nat)
  {
    forall k :: 0 <= k < |x.Args()| ==> 0 < x.Args()[k] < n
  }

  /** Nodes only refer to nodes built before them, so the node graph is acyclic. */
  ghost predicate AcyclicNodes(nodes: seq<Expr>)
  {
    forall i :: 0 < i < |nodes| ==> ChildrenIn(nodes[i], i)
  }

  /** Appending a well-formed node whose children are already held keeps `nodes` acyclic and well formed. */
  lemma AppendNode(nodes: seq<Expr>, x: Expr)
    requires x.Wf() && AllWf(nodes)
    ensures AllWf(nodes + [x])
    ensures AcyclicNodes(nodes) && ChildrenIn(x, |nodes|) ==> AcyclicNodes(nodes + [x])
  {
    var n := nodes + [x];
    assert forall i :: 0 < i < |nodes| ==> n[i] == nodes[i];
    assert n[|nodes|] == x;
  }

  /**
   * The nodes `new` builds, by id: the empty string, no match, any byte (all
   * `alphabetWords` words full), any byte string and any non-empty byte
   * string; slot 0 is reserved and holds a placeholder.
   */
  function Sentinels(alphabetWords: nat): (ns: seq<Expr>)
    ensures |ns| == 6 && AllWf(ns) && AcyclicNodes(ns)
    ensures forall i, j :: 0 < i < j < |ns| ==> ns[i] != ns[j]
  {
    FlagsWf();
    var ns := [Expr.NoMatch, Expr.EmptyString, Expr.NoMatch,
               Expr.ByteSet(seq(alphabetWords, _ => UINT32_MAX)),
               Expr.Repeat(POSITIVE_NULLABLE, ANY_BYTE, 0, UINT32_MAX),
               Expr.Repeat(POSITIVE, ANY_BYTE, 1, UINT32_MAX)];
    assert ns[1].EmptyString? && ns[2].NoMatch? && ns[3].ByteSet?;
    assert ns[4].Repeat? && ns[5].Repeat? && ns[4].min != ns[5].min;
    assert ns[1].Wf() && ns[2].Wf() && ns[3].Wf() && ns[4].Wf() && ns[5].Wf();
    assert ChildrenIn(ns[1], 1) && ChildrenIn(ns[2], 2) && ChildrenIn(ns[3], 3);
    assert ns[4].Args() == [ANY_BYTE] && ns[5].Args() == [ANY_BYTE];
    ns
  }

  /**
   * The ids among `xs` whose key is not cached, in order: what `map`'s scan
   * of `xs` pushes onto its work stack.
   */
  function Pending<K, V>(cache: map<K, V>, key: ExprRef -> K, xs: seq<ExprRef>): (p: seq<ExprRef>)
    ensures p == [] <==> forall i :: 0 <= i < |xs| ==> key(xs[i]) in cache
  {
    if |xs| == 0 then []
    else
      var last := xs[|xs| - 1];
      if key(last) in cache then Pending(cache, key, xs[..|xs| - 1])
      else Pending(cache, key, xs[..|xs| - 1]) + [last]
  }

  /** `Pending` holds exactly the uncached ids of `xs`. */
  lemma {:induction false} PendingMembers<K, V>(cache: map<K, V>, key: ExprRef -> K, xs: seq<ExprRef>)
    ensures forall c :: c in Pending(cache, key, xs) ==> c in xs && key(c) !in cache
    ensures forall c :: c in xs && key(c) !in cache ==> c in Pending(cache, key, xs)
  {
    if |xs| > 0 {
      var last := xs[|xs| - 1];
      assert forall c :: c in xs ==> c in xs[..|xs| - 1] || c == last;
      PendingMembers(cache, key, xs[..|xs| - 1]);
    }
  }

  /**
   * The cached values of the ids among `xs` whose key is cached, in order:
   * what `map`'s scan of `xs` collects; when every key is cached, exactly
   * their values in argument order.
   */
  function Found<K, V>(cache: map<K, V>, key: ExprRef -> K, xs: seq<ExprRef>): (vs: seq<V>)
    ensures (forall i :: 0 <= i < |xs| ==> key(xs[i]) in cache) ==>
      |vs| == |xs| && forall i :: 0 <= i < |xs| ==> vs[i] == cache[key(xs[i])]
  {
    if |xs| == 0 then []
    else
      var last := xs[|xs| - 1];
      if key(last) in cache then Found(cache, key, xs[..|xs| - 1]) + [cache[key(last)]]
      else Found(cache, key, xs[..|xs| - 1])
  }

  /**
   * `Pending` of the first `n` ids of `xs`, counted by position. The scan
   * loop is proved against this form, which needs no slices; `ScanTo` shows
   * it equals `Pending` of the prefix, the form the rest of the proof uses.
   */
  function PendingTo<K, V>(cache: map<K, V>, key: ExprRef -> K, xs: seq<ExprRef>, n: nat): (p: seq<ExprRef>)
    requires n <= |xs|
    ensures |p| <= n
  {
    if n == 0 then []
    else if key(xs[n - 1]) in cache then PendingTo(cache, key, xs, n - 1)
    else PendingTo(cache, key, xs, n - 1) + [xs[n - 1]]
  }

  /** `Found` of the first `n` ids of `xs`, counted by position. */
  function FoundTo<K, V>(cache: map<K, V>, key: ExprRef -> K, xs: seq<ExprRef>, n: nat): (vs: seq<V>)
    requires n <= |xs|
    ensures |vs| <= n
  {
    if n == 0 then []
    else if key(xs[n - 1]) in cache then FoundTo(cache, key, xs, n - 1) + [cache[key(xs[n - 1])]]
    else FoundTo(cache, key, xs, n - 1)
  }

  /**
   * One step of the scan in `map`: the cached value of `xs[i]` joins
   * `mapped`, or else `xs[i]` joins the ids to push.
   */
  method ScanOne<K, V>(xs: seq<ExprRef>, i: nat, cache: map<K, V>, key: ExprRef -> K,
                       mapped: seq<V>, pushed: seq<ExprRef>)
    returns (mapped': seq<V>, pushed': seq<ExprRef>)
    requires i < |xs|
    requires mapped == FoundTo(cache, key, xs, i) && pushed == PendingTo(cache, key, xs, i)
    ensures mapped' == FoundTo(cache, key, xs, i + 1) && pushed' == PendingTo(cache, key, xs, i + 1)
  {
    var a := xs[i];
    if key(a) in cache {
      mapped' := mapped + [cache[key(a)]];
      pushed' := pushed;
    } else {
      mapped' := mapped;
      pushed' := pushed + [a];
    }
  }

  /** Counting by position agrees with scanning the prefix. */
  lemma {:induction false} ScanTo<K, V>(cache: map<K, V>, key: ExprRef -> K, xs: seq<ExprRef>, n: nat)
    requires n <= |xs|
    ensures PendingTo(cache, key, xs, n) == Pending(cache, key, xs[..n])
    ensures FoundTo(cache, key, xs, n) == Found(cache, key, xs[..n])
  {
    if n > 0 {
      ScanTo(cache, key, xs, n - 1);
      assert xs[..n][..n - 1] == xs[..n - 1];
    }
  }

  /** A cache that only gained keys reads the same for ids it already had. */
  lemma {:induction false} FoundGrown<K, V>(c1: map<K, V>, c2: map<K, V>, key: ExprRef -> K, xs: seq<ExprRef>)
    requires forall k :: k in c1 ==> k in c2 && c2[k] == c1[k]
    requires forall i :: 0 <= i < |xs| ==> key(xs[i]) in c1
    ensures Found(c2, key, xs) == Found(c1, key, xs)
  {
    if |xs| > 0 {
      FoundGrown(c1, c2, key, xs[..|xs| - 1]);
    }
  }

  /** A proper subset has fewer elements. */
  lemma {:induction false} SubsetCard<T>(a: set<T>, b: set<T>)
    requires a <= b
    ensures |a| <= |b|
    ensures a < b ==> |a| < |b|
  {
    if a != {} {
      var x :| x in a;
      SubsetCard(a - {x}, b - {x});
    } else if a < b {
      var x :| x in b;
    }
  }

  /** `c` keeps every entry of `c0`. */
  ghost predicate Extends<K, V>(c0: map<K, V>, c: map<K, V>)
  {
    forall k :: k in c0 ==> k in c && c[k] == c0[k]
  }

  /** The keys `c` adds to `c0` are those of `processed`, each added once. */
  ghost predicate AddedOnce<K, V>(c0: map<K, V>, c: map<K, V>, processed: seq<ExprRef>, key: ExprRef -> K)
  {
    (forall k :: k in c ==> k in c0 || exists i :: 0 <= i < |processed| && key(processed[i]) == k) &&
    (forall i :: 0 <= i < |processed| ==> key(processed[i]) in c && key(processed[i]) !in c0) &&
    (forall i, j :: 0 <= i < j < |processed| ==> key(processed[i]) != key(processed[j]))
  }

  /** Caching a new key for `t` records `t` as processed once more. */
  lemma AddOne<K, V>(c0: map<K, V>, c: map<K, V>, processed: seq<ExprRef>, key: ExprRef -> K, t: ExprRef, v: V)
    requires Extends(c0, c) && AddedOnce(c0, c, processed, key) && key(t) !in c
    ensures Extends(c0, c[key(t) := v]) && AddedOnce(c0, c[key(t) := v], processed + [t], key)
  {
    var c', processed' := c[key(t) := v], processed + [t];
    var n := |processed|;
    forall k | k in c'
      ensures k in c0 || exists i :: 0 <= i < |processed'| && key(processed'[i]) == k
    {
      if k == key(t) {
        assert key(processed'[n]) == k;
      } else if k !in c0 {
        var i :| 0 <= i < n && key(processed[i]) == k;
        assert key(processed'[i]) == k;
      }
    }
  }

  /** An expanded entry of `map`'s work stack sits below only smaller ids. */
  ghost predicate Ordered(todo: seq<ExprRef>, expanded: seq<bool>)
  {
    |expanded| == |todo| &&
    forall i, j :: 0 <= i < j < |todo| && expanded[i] ==> todo[j] < todo[i]
  }

  /** Pushing ids below the top, with the top marked expanded, keeps the stack ordered. */
  lemma PushOrdered(todo: seq<ExprRef>, expanded: seq<bool>, pend: seq<ExprRef>)
    requires Ordered(todo, expanded) && |todo| > 0
    requires forall k :: 0 <= k < |pend| ==> pend[k] < todo[|todo| - 1]
    ensures Ordered(todo + pend, expanded[..|todo| - 1] + [true] + seq(|pend|, _ => false))
  {
    var n := |todo|;
    var todo', expanded' := todo + pend, expanded[..n - 1] + [true] + seq(|pend|, _ => false);
    assert forall i :: 0 <= i < n - 1 ==> expanded'[i] == expanded[i];
    assert forall i :: 0 <= i < n ==> todo'[i] == todo[i];
    assert forall i :: n <= i < |todo'| ==> todo'[i] == pend[i - n] && !expanded'[i];
    forall i, j | 0 <= i < j < |todo'| && expanded'[i]
      ensures todo'[j] < todo'[i]
    {
      if i < n - 1 && j >= n {
        assert todo[n - 1] < todo[i];
      }
    }
  }

  /** The ids of the expanded entries of `map`'s work stack. */
  ghost function ExpandedIds(todo: seq<ExprRef>, expanded: seq<bool>): set<ExprRef>
    requires |expanded| == |todo|
  {
    set i | 0 <= i < |todo| && expanded[i] :: todo[i]
  }

  /** Popping an id outside `u` does not grow the unexpanded part of `u`. */
  lemma PopMeasure(u: set<ExprRef>, todo: seq<ExprRef>, expanded: seq<bool>)
    requires |expanded| == |todo| > 0 && todo[|todo| - 1] !in u
    ensures |u - ExpandedIds(todo[..|todo| - 1], expanded[..|todo| - 1])| <= |u - ExpandedIds(todo, expanded)|
  {
    var n := |todo|;
    var todo', expanded' := todo[..n - 1], expanded[..n - 1];
    var e, e' := ExpandedIds(todo, expanded), ExpandedIds(todo', expanded');
    forall x | x in e && x in u ensures x in e' {
      var i :| 0 <= i < n && expanded[i] && todo[i] == x;
      assert i < n - 1 && expanded'[i] && todo'[i] == x;
    }
    SubsetCard(u - e', u - e);
  }

  /** Marking an unexpanded top of `u` expanded shrinks the unexpanded part of `u`. */
  lemma PushMeasure(u: set<ExprRef>, todo: seq<ExprRef>, expanded: seq<bool>, pend: seq<ExprRef>)
    requires |expanded| == |todo| > 0 && todo[|todo| - 1] in u
    requires todo[|todo| - 1] !in ExpandedIds(todo, expanded)
    ensures |u - ExpandedIds(todo + pend, expanded[..|todo| - 1] + [true] + seq(|pend|, _ => false))|
         < |u - ExpandedIds(todo, expanded)|
  {
    var n := |todo|;
    var todo', expanded' := todo + pend, expanded[..n - 1] + [true] + seq(|pend|, _ => false);
    var e, e' := ExpandedIds(todo, expanded), ExpandedIds(todo', expanded');
    forall x | x in e ensures x in e' {
      var i :| 0 <= i < n && expanded[i] && todo[i] == x;
      assert i < n - 1 && expanded'[i] && todo'[i] == x;
    }
    assert expanded'[n - 1] && todo'[n - 1] == todo[n - 1];
    assert todo[n - 1] in u - e && todo[n - 1] !in u - e';
    SubsetCard(u - e', u - e);
  }

  /** Every id of `sc` whose key is not cached is on the stack above position `i`. */
  ghost predicate WaitsAbove<K, V>(sc: seq<ExprRef>, cache: map<K, V>, key: ExprRef -> K,
                                   todo: seq<ExprRef>, i: nat)
    requires i < |todo|
  {
    forall c :: c in sc && key(c) !in cache ==> c in todo[i + 1..]
  }

  /** Pushing more ids keeps what waits above position `i`. */
  lemma WaitsAboveGrow<K, V>(sc: seq<ExprRef>, cache: map<K, V>, key: ExprRef -> K,
                             todo: seq<ExprRef>, extra: seq<ExprRef>, i: nat)
    requires i < |todo| && WaitsAbove(sc, cache, key, todo, i)
    ensures WaitsAbove(sc, cache, key, todo + extra, i)
  {
    var todo' := todo + extra;
    forall c | c in sc && key(c) !in cache
      ensures c in todo'[i + 1..]
    {
      var j :| i + 1 <= j < |todo| && todo[j] == c;
      assert todo'[i + 1..][j - i - 1] == c;
    }
  }

  /**
   * Popping a top whose key is now cached keeps what waits above position
   * `i`, under a cache that only grew.
   */
  lemma WaitsAboveShrink<K, V>(sc: seq<ExprRef>, cache: map<K, V>, cache': map<K, V>, key: ExprRef -> K,
                               todo: seq<ExprRef>, i: nat)
    requires i < |todo| - 1 && WaitsAbove(sc, cache, key, todo, i)
    requires cache.Keys <= cache'.Keys && key(todo[|todo| - 1]) in cache'
    ensures WaitsAbove(sc, cache', key, todo[..|todo| - 1], i)
  {
    var n := |todo|;
    var todo' := todo[..n - 1];
    forall c | c in sc && key(c) !in cache'
      ensures c in todo'[i + 1..]
    {
      var j :| i + 1 <= j < n && todo[j] == c;
      assert j != n - 1;
      assert todo'[i + 1..][j - i - 1] == c;
    }
  }

  class ExprSet {
    /** `exprs`: the node store. */
    const exprs: HashCons
    const alphabetSize: nat
    /** Words in a byte set over the alphabet. */
    const alphabetWords: nat
    /** The node each id stands for (slot 0 unused). */
    ghost var nodes: seq<Expr>

    /**
     * Id 0 holds the empty slice, every other id holds a well-formed node as
     * `serialize` writes it, and no insertion is under way.
     */
    ghost predicate Valid()
      reads this, exprs
    {
      exprs.Valid() && exprs.pending == [] &&
      |exprs.entries| == |nodes| && Holds(exprs.entries, nodes, Encode) &&
      AllWf(nodes) &&
      alphabetWords == (alphabetSize + 31) / 32
    }

    /** `is_valid`: a non-reserved id of a stored node. */
    predicate IsValid(id: ExprRef)
      reads this, exprs
    {
      id != INVALID && id < |exprs.entries|
    }

    /** A valid id names a stored node, and its words are that node's encoding. */
    lemma IsValidNode(id: ExprRef)
      requires Valid()
      ensures IsValid(id) <==> 0 < id < |nodes|
      ensures IsValid(id) ==> exprs.entries[id] == Encode(nodes[id]) && nodes[id].Wf()
    {
    }

    /** `len`: the number of ids handed out, the reserved one included. */
    function Len(): (n: nat)
      reads this, exprs
      requires Valid()
      ensures n == |nodes| && forall id: ExprRef :: IsValid(id) <==> 0 < id < n
    {
      |exprs.entries|
    }

    /** `get`: the node with id `id`, decoded from its stored words. */
    function Get(id: ExprRef): (x: Expr)
      reads this, exprs
      requires Valid() && IsValid(id)
      ensures x == nodes[id] && x.Wf()
    {
      DecodeEncode(nodes[id]);
      Decode(exprs.entries[id]).value
    }

    /** `get_flags`: the flags read from the first stored word agree with the node's own. */
    function GetFlags(id: ExprRef): (f: ExprFlags)
      reads this, exprs
      requires Valid() && IsValid(id)
      ensures f == nodes[id].Flags() && f.Wf()
    {
      ReadersAgree(nodes[id]);
      FlagsOfWord(exprs.entries[id][0])
    }

    /** `get_tag`: the tag read from the first stored word is the node's tag. */
    function GetTag(id: ExprRef): (t: ExprTag)
      reads this, exprs
      requires Valid() && IsValid(id)
      ensures t == nodes[id].Tag()
    {
      ReadersAgree(nodes[id]);
      TagOfWord(exprs.entries[id][0]).value
    }

    /** `get_args`: the children read from the stored words are the node's children. */
    function GetArgs(id: ExprRef): (args: seq<ExprRef>)
      reads this, exprs
      requires Valid() && IsValid(id)
      ensures args == nodes[id].Args()
    {
      ReadersAgree(nodes[id]);
      ArgsOfWords(exprs.entries[id]).value
    }

    /** `is_nullable`: whether node `id` matches the empty string. */
    predicate IsNullable(id: ExprRef)
      reads this, exprs
      requires Valid() && IsValid(id)
      ensures IsNullable(id) == nodes[id].Nullable()
    {
      GetFlags(id).IsNullable()
    }

    /** `is_positive`: the positive flag of node `id`. */
    predicate IsPositive(id: ExprRef)
      reads this, exprs
      requires Valid() && IsValid(id)
      ensures IsPositive(id) == nodes[id].Flags().IsPositive()
    {
      GetFlags(id).IsPositive()
    }

    /** Nodes only refer to nodes built before them, so the node graph is acyclic. */
    ghost predicate Acyclic()
      reads this
    {
      AcyclicNodes(nodes)
    }

    /** Every child of node `id` is a valid id. */
    ghost predicate ArgsValid(id: ExprRef)
      reads this
      requires 0 < id < |nodes|
    {
      AllValid(nodes[id].Args())
    }

    /** In an acyclic set every node's children are valid ids. */
    lemma AcyclicArgsValid(id: ExprRef)
      requires Acyclic() && 0 < id < |nodes|
      ensures ArgsValid(id)
    {
      assert ChildrenIn(nodes[id], id);
      assert forall k :: 0 <= k < |nodes[id].Args()| ==> nodes[id].Args()[k] < id;
    }

    /**
     * `mk`: the id of node `x`. An equal node already stored keeps its id;
     * otherwise `x` is appended under the next id. Stored nodes never change.
     */
    method Mk(x: Expr) returns (id: ExprRef)
      requires Valid() && x.Wf() && |exprs.entries| < 0x1_0000_0000
      modifies this, exprs
      ensures Valid() && |exprs.entries| == |nodes|
      ensures IsValid(id) && nodes[id] == x
      ensures (exists j :: 0 < j < |old(nodes)| && old(nodes)[j] == x) ==> nodes == old(nodes)
      ensures (forall j :: 0 < j < |old(nodes)| ==> old(nodes)[j] != x) ==>
        nodes == old(nodes) + [x] && id == |old(nodes)|
      ensures old(Acyclic()) && ChildrenIn(x, |old(nodes)|) ==>
        Acyclic()
    {
      exprs.StartInsert();
      Serialize(x, exprs);
      id := exprs.FinishInsert();
      EncodesDistinct(nodes, x);
      HoldsAfterInsert(old(exprs.entries), nodes, exprs.entries, id, x, Encode);
      if x !in nodes[1..] {
        AppendNode(nodes, x);
        nodes := nodes + [x];
      }
    }

    /** Hash-consing: two valid ids holding equal nodes are the same id. */
    lemma Canonical(i: ExprRef, j: ExprRef)
      requires Valid() && IsValid(i) && IsValid(j) && nodes[i] == nodes[j]
      ensures i == j
    {
      assert exprs.entries[i] == exprs.entries[j];
    }

    /**
     * `new`: id 0 is reserved, then the sentinels are built in order: the
     * empty string, no match, any byte, any byte string and any non-empty
     * byte string. Each lands on its fixed id.
     */
    constructor(alphabetSize: nat)
      ensures Valid() && Acyclic() && Len() == 6 && fresh(exprs)
      ensures this.alphabetSize == alphabetSize && alphabetWords == (alphabetSize + 31) / 32
      ensures nodes[EMPTY_STRING] == Expr.EmptyString
      ensures nodes[NO_MATCH] == Expr.NoMatch
      ensures nodes[ANY_BYTE] == Expr.ByteSet(seq(alphabetWords, _ => UINT32_MAX))
      ensures nodes[ANY_BYTE_STRING] == Expr.Repeat(POSITIVE_NULLABLE, ANY_BYTE, 0, UINT32_MAX)
      ensures nodes[NON_EMPTY_BYTE_STRING] == Expr.Repeat(POSITIVE, ANY_BYTE, 1, UINT32_MAX)
    {
      this.alphabetSize := alphabetSize;
      alphabetWords := (alphabetSize + 31) / 32;
      exprs := new HashCons();
      nodes := [Expr.NoMatch];
      new;
      var id := exprs.Insert([]);
      assert id == 0;
      var ns := Sentinels(alphabetWords);
      for k := 1 to 6
        invariant Valid() && Acyclic()
        invariant nodes == ns[..k]
      {
        var e := Mk(ns[k]);
        assert ns[..k + 1] == ns[..k] + [ns[k]];
      }
      assert nodes == ns;
    }

    /** Every id in `refs` is a valid id. */
    ghost predicate AllValid(refs: seq<ExprRef>)
      reads this
    {
      forall k {:trigger refs[k]} :: 0 <= k < |refs| ==> 0 < refs[k] < |nodes|
    }

    /**
     * The children the comparison of `refs` with `bytes` reads are valid ids:
     * each one up to and including the first that is not the expected byte.
     */
    ghost predicate BytesReadable(refs: seq<ExprRef>, bytes: seq<UInt8>)
      reads this
      requires |refs| == |bytes|
    {
      |refs| == 0 ||
      (0 < refs[0] < |nodes| &&
       (nodes[refs[0]] == Expr.Byte(bytes[0]) ==> BytesReadable(refs[1..], bytes[1..])))
    }

    /**
     * Whether children `refs` are, position by position, the single bytes
     * `bytes`; the comparison stops at the first mismatch.
     */
    ghost predicate AllBytes(refs: seq<ExprRef>, bytes: seq<UInt8>)
      reads this
      requires |refs| == |bytes| && BytesReadable(refs, bytes)
      ensures AllBytes(refs, bytes) <==>
        AllValid(refs) && forall i :: 0 <= i < |refs| ==> nodes[refs[i]] == Expr.Byte(bytes[i])
    {
      |refs| == 0 ||
      (nodes[refs[0]] == Expr.Byte(bytes[0]) && AllBytes(refs[1..], bytes[1..]))
    }

    /**
     * `has_simply_forced_bytes`: true when node `e` visibly starts with
     * `bytes`: the bytes are empty, or `e` is exactly that single byte, or `e`
     * is a concatenation whose first children are exactly those bytes.
     */
    ghost function HasSimplyForcedBytes(e: ExprRef, bytes: seq<UInt8>): (r: bool)
      reads this
      requires |bytes| == 0 || (0 < e < |nodes| &&
        (nodes[e].Concat? && |bytes| <= |nodes[e].es| ==> BytesReadable(nodes[e].es[..|bytes|], bytes)))
      ensures |bytes| == 0 ==> r
      ensures |bytes| > 0 && nodes[e].Byte? ==> (r <==> bytes == [nodes[e].b])
      ensures |bytes| > 0 && nodes[e].Concat? ==> (r <==>
        |bytes| <= |nodes[e].es| &&
        var lead := nodes[e].es[..|bytes|];
        AllValid(lead) && forall i :: 0 <= i < |bytes| ==> nodes[lead[i]] == Expr.Byte(bytes[i]))
      ensures |bytes| > 0 && !nodes[e].Byte? && !nodes[e].Concat? ==> !r
    {
      if |bytes| == 0 then true
      else
        match nodes[e]
        case Byte(b) => |bytes| == 1 && bytes[0] == b
        case Concat(_, refs) => |refs| >= |bytes| && AllBytes(refs[..|bytes|], bytes)
        case _ => false
    }

    /** `lookahead_len_inner`: the length of a lookahead whose body is the empty string. */
    ghost function LookaheadLenInner(e: ExprRef): (r: Option<nat>)
      reads this
      requires 0 < e < |nodes|
      ensures r.Some? <==> nodes[e].Lookahead? && nodes[e].e == EMPTY_STRING
      ensures r.Some? ==> r.value == nodes[e].n
    {
      match nodes[e]
      case Lookahead(_, inner, n) => if inner == EMPTY_STRING then Some(n) else None
      case _ => None
    }

    /** The least `lookahead_len_inner` over `args`, `None` when none of them has one. */
    ghost function MinLookahead(args: seq<ExprRef>): (r: Option<nat>)
      reads this
      requires AllValid(args)
      ensures r.None? <==> forall k :: 0 <= k < |args| ==> LookaheadLenInner(args[k]).None?
      ensures r.Some? ==> exists k :: 0 <= k < |args| && LookaheadLenInner(args[k]) == r
      ensures forall k :: 0 <= k < |args| && LookaheadLenInner(args[k]).Some? ==>
        r.Some? && r.value <= LookaheadLenInner(args[k]).value
    {
      if |args| == 0 then None
      else
        var rest := MinLookahead(args[1..]);
        assert forall k :: 1 <= k < |args| ==> args[1..][k - 1] == args[k];
        MinOption(LookaheadLenInner(args[0]), rest)
    }

    /**
     * `lookahead_len`: for an `Or`, the shortest empty-body lookahead among its
     * children; otherwise that of the node itself.
     */
    ghost function LookaheadLen(e: ExprRef): (r: Option<nat>)
      reads this
      requires 0 < e < |nodes| && (nodes[e].Or? ==> ArgsValid(e))
    {
      match nodes[e]
      case Or(_, args) => MinLookahead(args)
      case _ => LookaheadLenInner(e)
    }

    /** `possible_lookahead_len_inner`: the length of any lookahead, 0 otherwise. */
    ghost function PossibleLookaheadLenInner(e: ExprRef): (r: nat)
      reads this
      requires 0 < e < |nodes|
      ensures nodes[e].Lookahead? ==> r == nodes[e].n
      ensures !nodes[e].Lookahead? ==> r == 0
    {
      match nodes[e]
      case Lookahead(_, _, n) => n
      case _ => 0
    }

    /** The greatest `possible_lookahead_len_inner` over `args`, 0 for no args. */
    ghost function MaxPossibleLookahead(args: seq<ExprRef>): (r: nat)
      reads this
      requires AllValid(args)
      ensures forall k :: 0 <= k < |args| ==> PossibleLookaheadLenInner(args[k]) <= r
      ensures |args| == 0 ==> r == 0
      ensures |args| > 0 ==> exists k :: 0 <= k < |args| && PossibleLookaheadLenInner(args[k]) == r
    {
      if |args| == 0 then 0
      else
        var rest := MaxPossibleLookahead(args[1..]);
        assert forall k :: 1 <= k < |args| ==> args[1..][k - 1] == args[k];
        var first := PossibleLookaheadLenInner(args[0]);
        if |args| == 1 || first >= rest then first else rest
    }

    /**
     * `possible_lookahead_len`: for an `Or`, the longest lookahead among its
     * children (0 when it has none); otherwise that of the node itself.
     */
    ghost function PossibleLookaheadLen(e: ExprRef): (r: nat)
      reads this
      requires 0 < e < |nodes| && (nodes[e].Or? ==> ArgsValid(e))
    {
      match nodes[e]
      case Or(_, args) => MaxPossibleLookahead(args)
      case _ => PossibleLookaheadLenInner(e)
    }

    /**
     * `lookahead_len`: for an `Or`, the minimum over the children that have
     * one, and `None` exactly when no child has one; for any other node, the
     * length of an empty-body lookahead and `None` otherwise.
     */
    lemma LookaheadLenSpec(e: ExprRef)
      requires 0 < e < |nodes| && (nodes[e].Or? ==> ArgsValid(e))
      ensures nodes[e].Or? ==> var es := nodes[e].es;
        (LookaheadLen(e).None? <==> forall k :: 0 <= k < |es| ==> LookaheadLenInner(es[k]).None?) &&
        (LookaheadLen(e).Some? ==>
          (exists k :: 0 <= k < |es| && LookaheadLenInner(es[k]) == LookaheadLen(e)) &&
          forall k :: 0 <= k < |es| && LookaheadLenInner(es[k]).Some? ==>
            LookaheadLen(e).value <= LookaheadLenInner(es[k]).value)
      ensures !nodes[e].Or? ==>
        (LookaheadLen(e).Some? <==> nodes[e].Lookahead? && nodes[e].e == EMPTY_STRING) &&
        (LookaheadLen(e).Some? ==> LookaheadLen(e).value == nodes[e].n)
    {
    }

    /**
     * `possible_lookahead_len`: for an `Or`, the greatest child length,
     * attained by a child, and 0 when it has no children; for any other node,
     * the length of any lookahead and 0 otherwise.
     */
    lemma PossibleLookaheadLenSpec(e: ExprRef)
      requires 0 < e < |nodes| && (nodes[e].Or? ==> ArgsValid(e))
      ensures nodes[e].Or? ==> var es := nodes[e].es;
        (forall k :: 0 <= k < |es| ==> PossibleLookaheadLenInner(es[k]) <= PossibleLookaheadLen(e)) &&
        (|es| == 0 ==> PossibleLookaheadLen(e) == 0) &&
        (|es| > 0 ==> exists k :: 0 <= k < |es| && PossibleLookaheadLenInner(es[k]) == PossibleLookaheadLen(e))
      ensures !nodes[e].Or? ==>
        (nodes[e].Lookahead? ==> PossibleLookaheadLen(e) == nodes[e].n) &&
        (!nodes[e].Lookahead? ==> PossibleLookaheadLen(e) == 0)
    {
      if nodes[e].Or? {
        assert PossibleLookaheadLen(e) == MaxPossibleLookahead(nodes[e].es);
      }
    }

    /** The definite lookahead length never exceeds the possible one. */
    lemma LookaheadWithinPossible(e: ExprRef)
      requires 0 < e < |nodes| && (nodes[e].Or? ==> ArgsValid(e))
      ensures LookaheadLen(e).Some? ==> LookaheadLen(e).value <= PossibleLookaheadLen(e)
    {
      if LookaheadLen(e).Some? && nodes[e].Or? {
        var args := nodes[e].es;
        var k :| 0 <= k < |args| && LookaheadLenInner(args[k]) == LookaheadLen(e);
        assert PossibleLookaheadLenInner(args[k]) <= MaxPossibleLookahead(args);
      }
    }

    /** The position of the first non-nullable id in `args`; `|args|` when all are nullable. */
    ghost function FirstNonNullable(args: seq<ExprRef>): (k: nat)
      reads this
      requires AllValid(args)
      ensures k <= |args|
    {
      if |args| == 0 || !nodes[args[0]].Nullable() then 0
      else
        assert AllValid(args[1..]);
        1 + FirstNonNullable(args[1..])
    }

    /** The ids before `FirstNonNullable` are nullable and the one at it is not. */
    lemma {:induction false} FirstNonNullableAt(args: seq<ExprRef>, j: nat)
      requires AllValid(args) && j < |args|
      ensures j < FirstNonNullable(args) ==> nodes[args[j]].Nullable()
      ensures j == FirstNonNullable(args) ==> !nodes[args[j]].Nullable()
    {
      if j > 0 && nodes[args[0]].Nullable() {
        assert AllValid(args[1..]);
        assert args[1..][j - 1] == args[j];
        FirstNonNullableAt(args[1..], j - 1);
      }
    }

    /**
     * Where the scan of `args` stops: after the first non-nullable id when
     * `isConcat`, at the end otherwise.
     */
    ghost function ScanEnd(args: seq<ExprRef>, isConcat: bool): (k: nat)
      reads this
      requires AllValid(args)
      ensures k <= |args|
    {
      var n := FirstNonNullable(args);
      if isConcat && n < |args| then n + 1 else |args|
    }

    /**
     * The children `map` visits for node `x`, in order: all of them, except
     * that with the concat check a concatenation is cut right after its first
     * non-nullable child (see `ScannedConcat`).
     */
    ghost function Scanned(x: ExprRef, concatCheck: bool): (sc: seq<ExprRef>)
      reads this
      requires Acyclic() && 0 < x < |nodes|
      ensures sc <= nodes[x].Args()
      ensures forall i :: 0 <= i < |sc| ==> 0 < sc[i] < x
      ensures !(concatCheck && nodes[x].Concat?) ==> sc == nodes[x].Args()
    {
      assert ChildrenIn(nodes[x], x);
      var args := nodes[x].Args();
      assert AllValid(args);
      args[..ScanEnd(args, concatCheck && nodes[x].Concat?)]
    }

    /**
     * With the concat check, a concatenation's scan holds nullable children
     * only, up to and including its first non-nullable child if it has one.
     */
    lemma ScannedConcat(x: ExprRef, concatCheck: bool)
      requires Acyclic() && 0 < x < |nodes| && concatCheck && nodes[x].Concat?
      ensures var sc := Scanned(x, concatCheck);
        (forall j :: 0 <= j < |sc| - 1 ==> nodes[sc[j]].Nullable()) &&
        (sc == nodes[x].Args() || (|sc| > 0 && !nodes[sc[|sc| - 1]].Nullable()))
    {
      assert ChildrenIn(nodes[x], x);
      var args := nodes[x].Args();
      assert AllValid(args);
      var sc := Scanned(x, concatCheck);
      var n := FirstNonNullable(args);
      forall j | 0 <= j < |sc| - 1 ensures nodes[sc[j]].Nullable() {
        FirstNonNullableAt(args, j);
      }
      if n < |args| {
        FirstNonNullableAt(args, n);
      }
    }

    /**
     * The value `map` stands for at node `x`: `process` applied to the values
     * of the scanned children, in order, and to `x`.
     */
    ghost function Fold<V>(x: ExprRef, concatCheck: bool, process: (seq<V>, ExprRef) -> V): V
      reads this
      requires Acyclic() && 0 < x < |nodes|
      decreases x, 1, 0
    {
      process(FoldAll(Scanned(x, concatCheck), x, concatCheck, process), x)
    }

    /** `Fold` of each of `xs`, in order, all of them below `bound`. */
    ghost function FoldAll<V>(xs: seq<ExprRef>, bound: ExprRef, concatCheck: bool,
                              process: (seq<V>, ExprRef) -> V): (vs: seq<V>)
      reads this
      requires Acyclic() && bound < |nodes| && forall i :: 0 <= i < |xs| ==> 0 < xs[i] < bound
      decreases bound, 0
    {
      seq(|xs|, i reads this requires 0 <= i < |xs| && Acyclic() && xs[i] < |nodes| =>
        Fold(xs[i], concatCheck, process))
    }

    /** Every cached value is the `Fold` of each node with that key. */
    ghost predicate CacheAgrees<K, V>(cache: map<K, V>, concatCheck: bool, key: ExprRef -> K,
                                      process: (seq<V>, ExprRef) -> V)
      reads this
      requires Acyclic()
    {
      forall y: ExprRef :: 0 < y < |nodes| && key(y) in cache ==>
        cache[key(y)] == Fold(y, concatCheck, process)
    }

    /** Nodes that share a key share their `Fold`. */
    ghost predicate KeyDeterminesFold<K, V>(concatCheck: bool, key: ExprRef -> K,
                                            process: (seq<V>, ExprRef) -> V)
      reads this
      requires Acyclic()
    {
      forall x: ExprRef, y: ExprRef :: 0 < x < |nodes| && 0 < y < |nodes| && key(x) == key(y) ==>
        Fold(x, concatCheck, process) == Fold(y, concatCheck, process)
    }

    /**
     * What a run of `map` that processed `processed`, in that order, did to
     * the cache: old entries are kept, every new key comes from exactly one
     * processed node, each node's children were cached before it, and its
     * entry is `process` of their cached values in argument order.
     */
    ghost predicate Records<K, V>(cache0: map<K, V>, cache: map<K, V>, processed: seq<ExprRef>,
                                  concatCheck: bool, key: ExprRef -> K, process: (seq<V>, ExprRef) -> V)
      reads this
      requires Acyclic()
    {
      AllValid(processed) && Extends(cache0, cache) && AddedOnce(cache0, cache, processed, key) &&
      AllChildrenFirst(cache0, processed, concatCheck, key) &&
      AllProcessed(cache, processed, concatCheck, key, process)
    }

    /** Each processed node's children came first. */
    ghost predicate AllChildrenFirst<K, V>(cache0: map<K, V>, processed: seq<ExprRef>,
                                           concatCheck: bool, key: ExprRef -> K)
      reads this
      requires Acyclic() && AllValid(processed)
    {
      forall i :: 0 <= i < |processed| ==> ChildrenFirst(cache0, processed, i, concatCheck, key)
    }

    /** Each processed node's entry is `process` of its children's cached values, in argument order. */
    ghost predicate AllProcessed<K, V>(cache: map<K, V>, processed: seq<ExprRef>,
                                       concatCheck: bool, key: ExprRef -> K, process: (seq<V>, ExprRef) -> V)
      reads this
      requires Acyclic() && AllValid(processed)
    {
      forall i :: 0 <= i < |processed| ==>
        key(processed[i]) in cache &&
        cache[key(processed[i])] == process(Found(cache, key, Scanned(processed[i], concatCheck)), processed[i])
    }

    /** Each scanned child of `processed[i]` was cached before `map` started or processed before it. */
    ghost predicate ChildrenFirst<K, V>(cache0: map<K, V>, processed: seq<ExprRef>, i: nat,
                                        concatCheck: bool, key: ExprRef -> K)
      reads this
      requires Acyclic() && i < |processed| && 0 < processed[i] < |nodes|
    {
      forall c :: c in Scanned(processed[i], concatCheck) ==>
        key(c) in cache0 || exists j :: 0 <= j < i && key(processed[j]) == key(c)
    }

    /**
     * `map`'s work stack: it starts at `r`, an expanded entry sits above only
     * smaller ids, and every scanned child of an expanded entry is cached or
     * waits above it.
     */
    ghost predicate Stack<K, V>(r: ExprRef, cache: map<K, V>, todo: seq<ExprRef>, expanded: seq<bool>,
                                concatCheck: bool, key: ExprRef -> K)
      reads this
      requires Acyclic()
    {
      |expanded| == |todo| &&
      (forall i :: 0 <= i < |todo| ==> 0 < todo[i] < |nodes|) &&
      (|todo| > 0 ==> todo[0] == r) && (|todo| == 0 ==> key(r) in cache) &&
      Ordered(todo, expanded) && AllWaiting(cache, todo, expanded, concatCheck, key)
    }

    /** Every expanded entry of the stack is `Waiting`. */
    ghost predicate AllWaiting<K, V>(cache: map<K, V>, todo: seq<ExprRef>, expanded: seq<bool>,
                                     concatCheck: bool, key: ExprRef -> K)
      reads this
      requires Acyclic() && |expanded| == |todo| && forall i :: 0 <= i < |todo| ==> 0 < todo[i] < |nodes|
    {
      forall i :: 0 <= i < |todo| && expanded[i] ==> Waiting(cache, todo, i, concatCheck, key)
    }

    /** Every scanned child of `todo[i]` is cached or on the stack above it. */
    ghost predicate Waiting<K, V>(cache: map<K, V>, todo: seq<ExprRef>, i: nat,
                                  concatCheck: bool, key: ExprRef -> K)
      reads this
      requires Acyclic() && i < |todo| && 0 < todo[i] < |nodes|
    {
      WaitsAbove(Scanned(todo[i], concatCheck), cache, key, todo, i)
    }

    /** The valid ids whose key is not cached. */
    ghost function Uncached<K, V>(cache: map<K, V>, key: ExprRef -> K): set<ExprRef>
      reads this
    {
      set x: ExprRef | 0 < x < |nodes| && key(x) !in cache
    }

    /** When every scanned child is cached by a consistent cache, `Found` is their `Fold`s. */
    lemma FoundIsFold<K, V>(cache: map<K, V>, x: ExprRef, concatCheck: bool, key: ExprRef -> K,
                            process: (seq<V>, ExprRef) -> V)
      requires Acyclic() && 0 < x < |nodes| && CacheAgrees(cache, concatCheck, key, process)
      requires Pending(cache, key, Scanned(x, concatCheck)) == []
      ensures process(Found(cache, key, Scanned(x, concatCheck)), x) == Fold(x, concatCheck, process)
    {
      var sc := Scanned(x, concatCheck);
      assert Found(cache, key, sc) == FoldAll(sc, x, concatCheck, process);
    }

    /** Popping a cached id keeps the stack shape. */
    lemma PopStep<K, V>(r: ExprRef, cache: map<K, V>, todo: seq<ExprRef>, expanded: seq<bool>,
                        concatCheck: bool, key: ExprRef -> K)
      requires Acyclic() && Stack(r, cache, todo, expanded, concatCheck, key)
      requires |todo| > 0 && key(todo[|todo| - 1]) in cache
      ensures Stack(r, cache, todo[..|todo| - 1], expanded[..|todo| - 1], concatCheck, key)
    {
      var n := |todo|;
      var todo', expanded' := todo[..n - 1], expanded[..n - 1];
      forall i | 0 <= i < n - 1 && expanded'[i]
        ensures Waiting(cache, todo', i, concatCheck, key)
      {
        WaitingShrink(cache, cache, todo, i, concatCheck, key);
      }
    }

    /** An entry still waits once more ids are pushed above it. */
    lemma WaitingGrow<K, V>(cache: map<K, V>, todo: seq<ExprRef>, extra: seq<ExprRef>, i: nat,
                            concatCheck: bool, key: ExprRef -> K)
      requires Acyclic() && i < |todo| && 0 < todo[i] < |nodes| && Waiting(cache, todo, i, concatCheck, key)
      ensures Waiting(cache, todo + extra, i, concatCheck, key)
    {
      assert (todo + extra)[i] == todo[i];
      WaitsAboveGrow(Scanned(todo[i], concatCheck), cache, key, todo, extra, i);
    }

    /** An entry below the top still waits once the top, now cached, is popped and the cache grows. */
    lemma WaitingShrink<K, V>(cache: map<K, V>, cache': map<K, V>, todo: seq<ExprRef>, i: nat,
                              concatCheck: bool, key: ExprRef -> K)
      requires Acyclic() && i < |todo| - 1 && 0 < todo[i] < |nodes| && Waiting(cache, todo, i, concatCheck, key)
      requires cache.Keys <= cache'.Keys && key(todo[|todo| - 1]) in cache'
      ensures Waiting(cache', todo[..|todo| - 1], i, concatCheck, key)
    {
      assert todo[..|todo| - 1][i] == todo[i];
      WaitsAboveShrink(Scanned(todo[i], concatCheck), cache, cache', key, todo, i);
    }

    /** Pushing the uncached children of an unexpanded top keeps the stack shape; the top was not expanded yet. */
    lemma PushStep<K, V>(r: ExprRef, cache: map<K, V>, todo: seq<ExprRef>, expanded: seq<bool>,
                         concatCheck: bool, key: ExprRef -> K, pend: seq<ExprRef>)
      requires Acyclic() && Stack(r, cache, todo, expanded, concatCheck, key)
      requires |todo| > 0 && key(todo[|todo| - 1]) !in cache
      requires pend == Pending(cache, key, Scanned(todo[|todo| - 1], concatCheck)) && pend != []
      ensures Stack(r, cache, todo + pend, expanded[..|todo| - 1] + [true] + seq(|pend|, _ => false),
                    concatCheck, key)
      ensures todo[|todo| - 1] !in ExpandedIds(todo, expanded)
    {
      var n := |todo|;
      var t := todo[n - 1];
      var sc := Scanned(t, concatCheck);
      PendingMembers(cache, key, sc);
      assert forall k :: 0 <= k < |pend| ==> pend[k] in sc && 0 < pend[k] < t by {
        forall k | 0 <= k < |pend| ensures pend[k] in sc && 0 < pend[k] < t {
          assert pend[k] in pend;
        }
      }
      PushOrdered(todo, expanded, pend);
      PushWaiting(cache, todo, expanded, concatCheck, key, pend, todo + pend);
      // The top was not expanded: an expanded top has no uncached scanned
      // child, and an expanded entry below it is larger than it.
      assert forall i :: 0 <= i < n && expanded[i] ==> todo[i] != t;
    }

    /** After the push, the top's uncached children wait above it and every other expanded entry still waits. */
    lemma PushWaiting<K, V>(cache: map<K, V>, todo: seq<ExprRef>, expanded: seq<bool>,
                            concatCheck: bool, key: ExprRef -> K, pend: seq<ExprRef>, todo': seq<ExprRef>)
      requires Acyclic() && |expanded| == |todo| > 0 && todo' == todo + pend
      requires forall i :: 0 <= i < |todo| ==> 0 < todo[i] < |nodes|
      requires forall i :: 0 <= i < |todo'| ==> 0 < todo'[i] < |nodes|
      requires AllWaiting(cache, todo, expanded, concatCheck, key)
      requires forall c :: c in Scanned(todo[|todo| - 1], concatCheck) && key(c) !in cache ==> c in pend
      ensures AllWaiting(cache, todo', expanded[..|todo| - 1] + [true] + seq(|pend|, _ => false),
                         concatCheck, key)
    {
      var n := |todo|;
      var expanded' := expanded[..n - 1] + [true] + seq(|pend|, _ => false);
      forall i | 0 <= i < |todo'| && expanded'[i]
        ensures Waiting(cache, todo', i, concatCheck, key)
      {
        if i < n - 1 {
          assert expanded'[i] == expanded[i];
          assert Waiting(cache, todo, i, concatCheck, key);
          WaitingGrow(cache, todo, pend, i, concatCheck, key);
        } else {
          assert i == n - 1 && todo'[i] == todo[n - 1] && todo'[i + 1..] == pend;
        }
      }
    }

    /** Caching the processed top keeps the stack shape and shrinks the uncached set. */
    lemma ProcessStack<K, V>(r: ExprRef, cache: map<K, V>, todo: seq<ExprRef>, expanded: seq<bool>,
                             concatCheck: bool, key: ExprRef -> K, val: V)
      requires Acyclic() && Stack(r, cache, todo, expanded, concatCheck, key)
      requires |todo| > 0 && key(todo[|todo| - 1]) !in cache
      ensures Stack(r, cache[key(todo[|todo| - 1]) := val], todo[..|todo| - 1], expanded[..|todo| - 1],
                    concatCheck, key)
      ensures |Uncached(cache[key(todo[|todo| - 1]) := val], key)| < |Uncached(cache, key)|
    {
      var n := |todo|;
      var t := todo[n - 1];
      var cache' := cache[key(t) := val];
      var todo', expanded' := todo[..n - 1], expanded[..n - 1];
      forall i | 0 <= i < n - 1 && expanded'[i]
        ensures Waiting(cache', todo', i, concatCheck, key)
      {
        WaitingShrink(cache, cache', todo, i, concatCheck, key);
      }
      assert t in Uncached(cache, key) && t !in Uncached(cache', key);
      SubsetCard(Uncached(cache', key), Uncached(cache, key));
    }

    /** Caching the processed top extends the record of the run by it. */
    lemma ProcessRecords<K, V>(cache0: map<K, V>, cache: map<K, V>, processed: seq<ExprRef>, t: ExprRef,
                               concatCheck: bool, key: ExprRef -> K, process: (seq<V>, ExprRef) -> V)
      requires Acyclic() && Records(cache0, cache, processed, concatCheck, key, process)
      requires 0 < t < |nodes| && key(t) !in cache
      requires Pending(cache, key, Scanned(t, concatCheck)) == []
      ensures Records(cache0, cache[key(t) := process(Found(cache, key, Scanned(t, concatCheck)), t)],
                      processed + [t], concatCheck, key, process)
    {
      var sc := Scanned(t, concatCheck);
      var val := process(Found(cache, key, sc), t);
      forall c | c in sc ensures key(c) in cache {
        var k :| 0 <= k < |sc| && sc[k] == c;
      }
      AddOne(cache0, cache, processed, key, t, val);
      assert AllValid(processed + [t]);
      ChildrenFirstStep(cache0, cache, processed, t, concatCheck, key);
      ProcessedStep(cache0, cache, processed, t, concatCheck, key, process);
    }

    /** The processed top's children were all cached, so they came first. */
    lemma ChildrenFirstStep<K, V>(cache0: map<K, V>, cache: map<K, V>, processed: seq<ExprRef>, t: ExprRef,
                                  concatCheck: bool, key: ExprRef -> K)
      requires Acyclic() && AllValid(processed) && 0 < t < |nodes|
      requires AllChildrenFirst(cache0, processed, concatCheck, key)
      requires forall k :: k in cache ==> k in cache0 || exists i :: 0 <= i < |processed| && key(processed[i]) == k
      requires forall c :: c in Scanned(t, concatCheck) ==> key(c) in cache
      ensures AllValid(processed + [t]) && AllChildrenFirst(cache0, processed + [t], concatCheck, key)
    {
      var processed' := processed + [t];
      var n := |processed|;
      assert AllValid(processed');
      forall i | 0 <= i < |processed'|
        ensures ChildrenFirst(cache0, processed', i, concatCheck, key)
      {
        if i < n {
          assert ChildrenFirst(cache0, processed, i, concatCheck, key);
          assert processed'[i] == processed[i];
          assert forall j :: 0 <= j < i ==> processed'[j] == processed[j];
        } else {
          assert processed'[i] == t;
          forall c | c in Scanned(t, concatCheck)
            ensures key(c) in cache0 || exists j :: 0 <= j < i && key(processed'[j]) == key(c)
          {
            if key(c) !in cache0 {
              var j :| 0 <= j < n && key(processed[j]) == key(c);
              assert key(processed'[j]) == key(c);
            }
          }
        }
      }
    }

    /** Old entries read their children's values unchanged, and the top's entry is the new one. */
    lemma ProcessedStep<K, V>(cache0: map<K, V>, cache: map<K, V>, processed: seq<ExprRef>, t: ExprRef,
                              concatCheck: bool, key: ExprRef -> K, process: (seq<V>, ExprRef) -> V)
      requires Acyclic() && AllValid(processed) && 0 < t < |nodes| && key(t) !in cache
      requires Extends(cache0, cache)
      requires forall i :: 0 <= i < |processed| ==> key(processed[i]) in cache
      requires AllChildrenFirst(cache0, processed, concatCheck, key)
      requires AllProcessed(cache, processed, concatCheck, key, process)
      requires forall c :: c in Scanned(t, concatCheck) ==> key(c) in cache
      ensures AllValid(processed + [t])
      ensures AllProcessed(cache[key(t) := process(Found(cache, key, Scanned(t, concatCheck)), t)],
                           processed + [t], concatCheck, key, process)
    {
      var cache' := cache[key(t) := process(Found(cache, key, Scanned(t, concatCheck)), t)];
      var processed' := processed + [t];
      var n := |processed|;
      assert AllValid(processed');
      forall i | 0 <= i < |processed'|
        ensures key(processed'[i]) in cache' &&
          cache'[key(processed'[i])] == process(Found(cache', key, Scanned(processed'[i], concatCheck)), processed'[i])
      {
        var x := processed'[i];
        var sc := Scanned(x, concatCheck);
        if i < n {
          assert x == processed[i];
          assert ChildrenFirst(cache0, processed, i, concatCheck, key);
          forall j | 0 <= j < |sc| ensures key(sc[j]) in cache {
            assert sc[j] in sc;
          }
        }
        FoundGrown(cache, cache', key, sc);
      }
    }

    /** Caching the processed top keeps a consistent cache consistent. */
    lemma ProcessAgrees<K, V>(cache: map<K, V>, t: ExprRef,
                              concatCheck: bool, key: ExprRef -> K, process: (seq<V>, ExprRef) -> V)
      requires Acyclic() && 0 < t < |nodes|
      requires CacheAgrees(cache, concatCheck, key, process) && KeyDeterminesFold(concatCheck, key, process)
      requires Pending(cache, key, Scanned(t, concatCheck)) == []
      ensures CacheAgrees(cache[key(t) := process(Found(cache, key, Scanned(t, concatCheck)), t)],
                          concatCheck, key, process)
    {
      FoundIsFold(cache, t, concatCheck, key, process);
    }

    /** The invariant of `map`'s loop. */
    ghost predicate MapInv<K, V>(r: ExprRef, cache0: map<K, V>, cache: map<K, V>, processed: seq<ExprRef>,
                                 todo: seq<ExprRef>, expanded: seq<bool>, agrees: bool,
                                 concatCheck: bool, key: ExprRef -> K, process: (seq<V>, ExprRef) -> V)
      reads this
      requires Acyclic()
    {
      Stack(r, cache, todo, expanded, concatCheck, key) &&
      Records(cache0, cache, processed, concatCheck, key, process) &&
      (agrees ==> CacheAgrees(cache, concatCheck, key, process))
    }

    /** The loop starts with `r` alone on the stack and nothing processed. */
    lemma InitCase<K, V>(r: ExprRef, cache0: map<K, V>, agrees: bool,
                         concatCheck: bool, key: ExprRef -> K, process: (seq<V>, ExprRef) -> V)
      requires Acyclic() && 0 < r < |nodes|
      requires agrees ==> CacheAgrees(cache0, concatCheck, key, process)
      ensures MapInv(r, cache0, cache0, [], [r], [false], agrees, concatCheck, key, process)
    {
      assert Ordered([r], [false]);
      assert AllWaiting(cache0, [r], [false], concatCheck, key);
      assert Stack(r, cache0, [r], [false], concatCheck, key);
      assert AllChildrenFirst(cache0, [], concatCheck, key);
      assert AllProcessed(cache0, [], concatCheck, key, process);
    }

    /** When the stack is empty, `r`'s key is cached, and by `Fold` when the cache agrees. */
    lemma DoneCase<K, V>(r: ExprRef, cache0: map<K, V>, cache: map<K, V>, processed: seq<ExprRef>,
                         todo: seq<ExprRef>, expanded: seq<bool>, agrees: bool,
                         concatCheck: bool, key: ExprRef -> K, process: (seq<V>, ExprRef) -> V)
      requires Acyclic() && 0 < r < |nodes|
      requires MapInv(r, cache0, cache, processed, todo, expanded, agrees, concatCheck, key, process)
      requires todo == []
      ensures key(r) in cache && Records(cache0, cache, processed, concatCheck, key, process)
      ensures agrees ==> cache[key(r)] == Fold(r, concatCheck, process)
    {
    }

    /** A cached top is popped. */
    lemma PopCase<K, V>(r: ExprRef, cache0: map<K, V>, cache: map<K, V>, processed: seq<ExprRef>,
                        todo: seq<ExprRef>, expanded: seq<bool>, agrees: bool,
                        concatCheck: bool, key: ExprRef -> K, process: (seq<V>, ExprRef) -> V)
      requires Acyclic() && MapInv(r, cache0, cache, processed, todo, expanded, agrees, concatCheck, key, process)
      requires |todo| > 0 && key(todo[|todo| - 1]) in cache
      ensures MapInv(r, cache0, cache, processed, todo[..|todo| - 1], expanded[..|todo| - 1], agrees,
                     concatCheck, key, process)
      ensures |Uncached(cache, key) - ExpandedIds(todo[..|todo| - 1], expanded[..|todo| - 1])|
           <= |Uncached(cache, key) - ExpandedIds(todo, expanded)|
    {
      PopStep(r, cache, todo, expanded, concatCheck, key);
      PopMeasure(Uncached(cache, key), todo, expanded);
    }

    /** An uncached top with uncached children gets them pushed above it. */
    lemma PushCase<K, V>(r: ExprRef, cache0: map<K, V>, cache: map<K, V>, processed: seq<ExprRef>,
                         todo: seq<ExprRef>, expanded: seq<bool>, agrees: bool,
                         concatCheck: bool, key: ExprRef -> K, process: (seq<V>, ExprRef) -> V,
                         pushed: seq<ExprRef>)
      requires Acyclic() && MapInv(r, cache0, cache, processed, todo, expanded, agrees, concatCheck, key, process)
      requires |todo| > 0 && key(todo[|todo| - 1]) !in cache
      requires pushed == Pending(cache, key, Scanned(todo[|todo| - 1], concatCheck)) && pushed != []
      ensures MapInv(r, cache0, cache, processed, todo + pushed,
                     expanded[..|todo| - 1] + [true] + seq(|pushed|, _ => false), agrees, concatCheck, key, process)
      ensures |Uncached(cache, key) - ExpandedIds(todo + pushed, expanded[..|todo| - 1] + [true] + seq(|pushed|, _ => false))|
           < |Uncached(cache, key) - ExpandedIds(todo, expanded)|
    {
      PushStep(r, cache, todo, expanded, concatCheck, key, pushed);
      PushMeasure(Uncached(cache, key), todo, expanded, pushed);
    }

    /** An uncached top whose children are all cached is processed, cached and popped. */
    lemma ProcessCase<K, V>(r: ExprRef, cache0: map<K, V>, cache: map<K, V>, processed: seq<ExprRef>,
                            todo: seq<ExprRef>, expanded: seq<bool>, agrees: bool,
                            concatCheck: bool, key: ExprRef -> K, process: (seq<V>, ExprRef) -> V)
      requires Acyclic() && MapInv(r, cache0, cache, processed, todo, expanded, agrees, concatCheck, key, process)
      requires agrees ==> KeyDeterminesFold(concatCheck, key, process)
      requires |todo| > 0 && key(todo[|todo| - 1]) !in cache
      requires Pending(cache, key, Scanned(todo[|todo| - 1], concatCheck)) == []
      ensures var t := todo[|todo| - 1];
        var cache' := cache[key(t) := process(Found(cache, key, Scanned(t, concatCheck)), t)];
        MapInv(r, cache0, cache', processed + [t], todo[..|todo| - 1], expanded[..|todo| - 1], agrees,
               concatCheck, key, process) &&
        |Uncached(cache', key)| < |Uncached(cache, key)|
    {
      var t := todo[|todo| - 1];
      ProcessStack(r, cache, todo, expanded, concatCheck, key, process(Found(cache, key, Scanned(t, concatCheck)), t));
      ProcessRecords(cache0, cache, processed, t, concatCheck, key, process);
      if agrees {
        ProcessAgrees(cache, t, concatCheck, key, process);
      }
    }

    /**
     * The argument scan in the body of `map`'s loop, for node `x`: the
     * cached values of the arguments in order (`mapped`), and the uncached
     * arguments to push (`pushed`); with the concat check, a concatenation's
     * scan stops after its first non-nullable argument.
     */
    method ScanArgs<K, V>(x: ExprRef, cache: map<K, V>, concatCheck: bool, mkKey: ExprRef -> K)
      returns (mapped: seq<V>, pushed: seq<ExprRef>)
      requires Valid() && Acyclic() && IsValid(x)
      ensures mapped == Found(cache, mkKey, Scanned(x, concatCheck))
      ensures pushed == Pending(cache, mkKey, Scanned(x, concatCheck))
    {
      var e := Get(x);
      var isConcat := concatCheck && e.Concat?;
      AcyclicArgsValid(x);
      var k;
      mapped, pushed, k := ScanLoop(e.Args(), isConcat, cache, mkKey);
      ScanTo(cache, mkKey, e.Args(), k);
    }

    /**
     * `is_nullable` of a child during the scan; a method, so that the scan
     * loop sees only the answer and not how it is read from the words.
     */
    method NullableChild(a: ExprRef) returns (nullable: bool)
      requires Valid() && 0 < a < |nodes|
      ensures nullable == nodes[a].Nullable()
    {
      nullable := IsNullable(a);
    }

    /**
     * The loop over `args` inside the scan: it stops after the first
     * non-nullable argument when `isConcat`; `k` is how far it got.
     */
    method ScanLoop<K, V>(args: seq<ExprRef>, isConcat: bool, cache: map<K, V>, mkKey: ExprRef -> K)
      returns (mapped: seq<V>, pushed: seq<ExprRef>, k: nat)
      requires Valid() && AllValid(args)
      ensures k == ScanEnd(args, isConcat)
      ensures mapped == FoundTo(cache, mkKey, args, k) && pushed == PendingTo(cache, mkKey, args, k)
    {
      mapped := [];
      pushed := [];
      ghost var stop := FirstNonNullable(args);
      var i := 0;
      while i < |args|
        invariant i <= |args| && (isConcat ==> i <= stop)
        invariant pushed == PendingTo(cache, mkKey, args, i)
        invariant mapped == FoundTo(cache, mkKey, args, i)
      {
        var a := args[i];
        var brk := false;
        if isConcat {
          var nullable := NullableChild(a);
          brk := !nullable;
        }
        mapped, pushed := ScanOne(args, i, cache, mkKey, mapped, pushed);
        if isConcat {
          FirstNonNullableAt(args, i);
        }
        i := i + 1;
        if brk {
          return mapped, pushed, i;
        }
      }
      k := i;
    }

    /**
     * `map`: the value of `process` folded bottom-up over the nodes under
     * `r`, memoised in a cache keyed by `mkKey`. A cached key returns at once;
     * otherwise a work stack visits children before their parent, each key is
     * processed once, and `process` gets the cached values of the children
     * in argument order. With `concatCheck`, a concatenation's children are
     * visited only up to its first non-nullable one.
     */
    method Map<K, V>(r: ExprRef, cache0: map<K, V>, concatCheck: bool,
                     mkKey: ExprRef -> K, process: (seq<V>, ExprRef) -> V)
      returns (v: V, cache: map<K, V>, ghost processed: seq<ExprRef>)
      requires Valid() && Acyclic() && (mkKey(r) in cache0 || IsValid(r))
      ensures mkKey(r) in cache0 ==> v == cache0[mkKey(r)] && cache == cache0 && processed == []
      ensures mkKey(r) in cache && v == cache[mkKey(r)]
      ensures Records(cache0, cache, processed, concatCheck, mkKey, process)
      ensures IsValid(r) && CacheAgrees(cache0, concatCheck, mkKey, process) &&
              KeyDeterminesFold(concatCheck, mkKey, process) ==>
        v == Fold(r, concatCheck, process)
    {
      cache := cache0;
      processed := [];
      if mkKey(r) in cache {
        return cache[mkKey(r)], cache, processed;
      }
      ghost var agrees := CacheAgrees(cache0, concatCheck, mkKey, process) &&
                          KeyDeterminesFold(concatCheck, mkKey, process);
      var todo := [r];
      ghost var expanded := [false];
      InitCase(r, cache0, agrees, concatCheck, mkKey, process);
      while |todo| > 0
        invariant MapInv(r, cache0, cache, processed, todo, expanded, agrees, concatCheck, mkKey, process)
        decreases |Uncached(cache, mkKey)|, |Uncached(cache, mkKey) - ExpandedIds(todo, expanded)|, |todo|
      {
        var top := todo[|todo| - 1];
        var idx := mkKey(top);
        if idx in cache {
          PopCase(r, cache0, cache, processed, todo, expanded, agrees, concatCheck, mkKey, process);
          expanded := expanded[..|todo| - 1];
          todo := todo[..|todo| - 1];
          continue;
        }
        var mapped, pushed := ScanArgs(top, cache, concatCheck, mkKey);
        if |pushed| != 0 {
          PushCase(r, cache0, cache, processed, todo, expanded, agrees, concatCheck, mkKey, process, pushed);
          expanded := expanded[..|todo| - 1] + [true] + seq(|pushed|, _ => false);
          todo := todo + pushed;
          continue;
        }
        ProcessCase(r, cache0, cache, processed, todo, expanded, agrees, concatCheck, mkKey, process);
        var val := process(mapped, top);
        expanded := expanded[..|todo| - 1];
        todo := todo[..|todo| - 1];
        cache := cache[idx := val];
        processed := processed + [top];
      }
      DoneCase(r, cache0, cache, processed, todo, expanded, agrees, concatCheck, mkKey, process);
      v := cache[mkKey(r)];
    }

    /** `simple_map`: `map` with a fresh cache keyed by id and no concat check; the result is the fold. */
    method SimpleMap<V>(r: ExprRef, process: (seq<V>, ExprRef) -> V) returns (v: V)
      requires Valid() && Acyclic() && IsValid(r)
      ensures v == Fold(r, false, process)
    {
      var cache: map<ExprRef, V>;
      ghost var processed: seq<ExprRef>;
      v, cache, processed := Map(r, map[], false, x => x, process);
    }
  }
}
