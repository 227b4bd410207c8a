/** The multimap file viewed as an arena of record slots: bucket chains and
    the free list as ghost sequences of slot offsets, the invariant that ties
    them to the words and records of the file, and the shape of the changes
    insert and erase make (DiskMultiMap.cpp). */
module Chains {
  import opened Layout
  import opened Tuples

  /** The in-memory header and the file contents of one multimap: `words`
      holds offset-sized values (header and bucket table) by byte offset,
      `nodes` holds records by byte offset. Keeping them apart is sound
      because the two regions never overlap (Layout.BucketsDisjoint,
      Layout.SlotsAfterTable, Layout.SlotsDisjoint; see RegionsDisjoint)
      and record offsets are exactly the slots (Layout.SlotsAreIndexed). */
  datatype Arena = Arena(numBuckets: nat, firstUnused: int, freedNodes: int,
                         words: map<int, int>, nodes: map<int, Node>)

  function TupleOf(n: Node): MultiMapTuple
  {
    MultiMapTuple(n.key, n.value, n.context)
  }

  /** The dummy record addToUnusedNodes writes into a freed slot. */
  function FreeNode(next: int): Node
  {
    Node("", "", "", next)
  }

  /** The length check insert performs before writing anything. */
  predicate Fits(t: MultiMapTuple)
  {
    |t.key| <= MaxFieldLength && |t.value| <= MaxFieldLength && |t.context| <= MaxFieldLength
  }

  /** Table entry of a chain: its first slot, or the sentinel. */
  function HeadOf(c: seq<int>): int
  {
    if c == [] then NoOffset else c[0]
  }

  /** The `next` field the `j`-th record of chain `c` must hold. */
  function NextIn(c: seq<int>, j: int): int
    requires 0 <= j < |c|
  {
    if j + 1 < |c| then c[j + 1] else NoOffset
  }

  /** The free list is kept with its head LAST: `TopOf` is m_freedNodes. */
  function TopOf(f: seq<int>): int
  {
    if f == [] then NoOffset else f[|f| - 1]
  }

  /** The `next` field of the `j`-th free slot: the slot pushed before it. */
  function BelowIn(f: seq<int>, j: int): int
    requires 0 <= j < |f|
  {
    if j == 0 then NoOffset else f[j - 1]
  }

  /** A record slot below the growth pointer that holds a record. */
  ghost predicate Allocated(a: Arena, o: int)
  {
    IsSlot(a.numBuckets, o) && o < a.firstUnused && o in a.nodes
  }

  ghost predicate ChainOk(a: Arena, hash: string -> nat, b: int, c: seq<int>)
  {
    0 <= b < a.numBuckets &&
    forall j :: 0 <= j < |c| ==>
      Allocated(a, c[j]) && a.nodes[c[j]].next == NextIn(c, j) &&
      hash(a.nodes[c[j]].key) % a.numBuckets == b && Fits(TupleOf(a.nodes[c[j]]))
  }

  /** Each free slot holds a dummy record linking to the slot freed before it. */
  ghost predicate FreeLinked(a: Arena, f: seq<int>)
  {
    forall j :: 0 <= j < |f| ==> Allocated(a, f[j]) && a.nodes[f[j]] == FreeNode(BelowIn(f, j))
  }

  ghost predicate FreeOk(a: Arena, f: seq<int>)
  {
    a.freedNodes == TopOf(f) && FreeLinked(a, f)
  }

  ghost predicate NoDup(s: seq<int>)
  {
    forall i, j :: 0 <= i < j < |s| ==> s[i] != s[j]
  }

  /** Every slot is in at most one chain, at most once, or on the free list. */
  ghost predicate Separate(chains: seq<seq<int>>, free: seq<int>)
  {
    (forall i :: 0 <= i < |chains| ==> NoDup(chains[i])) &&
    NoDup(free) &&
    (forall i, i', o :: 0 <= i < |chains| && 0 <= i' < |chains| && o in chains[i] && o in chains[i'] ==> i == i') &&
    (forall i, o :: 0 <= i < |chains| && o in chains[i] ==> o !in free)
  }

  /** Slot `o` is on some chain or on the free list. */
  ghost predicate Tracked(chains: seq<seq<int>>, free: seq<int>, o: int)
  {
    o in free || exists i :: 0 <= i < |chains| && o in chains[i]
  }

  /** No slot below the growth pointer is leaked: each is on a chain or on
      the free list. */
  ghost predicate Accounted(a: Arena, chains: seq<seq<int>>, free: seq<int>)
  {
    forall o :: IsSlot(a.numBuckets, o) && o < a.firstUnused ==> Tracked(chains, free, o)
  }

  /** The links of the file: each table entry heads its chain, each chain
      is linked through `next` and holds only keys hashing to its bucket,
      the free list is linked from m_freedNodes through dummy records, all
      of these are allocated slots, and no slot is used twice. */
  ghost predicate Linked(a: Arena, hash: string -> nat, chains: seq<seq<int>>, free: seq<int>)
  {
    |chains| == a.numBuckets &&
    IsSlot(a.numBuckets, a.firstUnused) &&
    (forall i :: 0 <= i < |chains| ==>
      BucketAddress(i) in a.words && a.words[BucketAddress(i)] == HeadOf(chains[i])) &&
    (forall i :: 0 <= i < |chains| ==> ChainOk(a, hash, i, chains[i])) &&
    FreeOk(a, free) &&
    Separate(chains, free)
  }

  /** The file invariant: the links above, and every slot below the growth
      pointer is used, so each is used exactly once. */
  ghost predicate WellFormed(a: Arena, hash: string -> nat, chains: seq<seq<int>>, free: seq<int>)
  {
    Linked(a, hash, chains, free) && Accounted(a, chains, free)
  }

  /** The records of a chain, in chain order. */
  function TuplesAt(nodes: map<int, Node>, c: seq<int>): (ts: seq<MultiMapTuple>)
    requires forall j :: 0 <= j < |c| ==> c[j] in nodes
    ensures |ts| == |c|
  {
    seq(|c|, j requires 0 <= j < |c| => TupleOf(nodes[c[j]]))
  }

  /** The tuples of `ts` whose key is `k`, in order: what search collects. */
  function KeyFilter(ts: seq<MultiMapTuple>, k: string): seq<MultiMapTuple>
  {
    if ts == [] then []
    else KeyFilter(ts[..|ts| - 1], k) + (if ts[|ts| - 1].key == k then [ts[|ts| - 1]] else [])
  }

  lemma {:induction false} KeyFilterAppend(s: seq<MultiMapTuple>, t: seq<MultiMapTuple>, k: string)
    ensures KeyFilter(s + t, k) == KeyFilter(s, k) + KeyFilter(t, k)
    decreases |t|
  {
    if t != [] {
      assert (s + t)[..|s + t| - 1] == s + t[..|t| - 1];
      KeyFilterAppend(s, t[..|t| - 1], k);
    } else {
      assert s + t == s;
    }
  }

  /** A tuple occurs in the filtered sequence as often as in the original
      when its key matches, and not at all otherwise. */
  lemma {:induction false} KeyFilterCount(ts: seq<MultiMapTuple>, k: string, t: MultiMapTuple)
    ensures multiset(KeyFilter(ts, k))[t] == if t.key == k then multiset(ts)[t] else 0
    decreases |ts|
  {
    if ts != [] {
      var init := ts[..|ts| - 1];
      assert ts == init + [ts[|ts| - 1]];
      KeyFilterCount(init, k, t);
    }
  }

  /** Filtering never lengthens a sequence. */
  lemma {:induction false} KeyFilterLength(ts: seq<MultiMapTuple>, k: string)
    ensures |KeyFilter(ts, k)| <= |ts|
    decreases |ts|
  {
    if ts != [] {
      KeyFilterLength(ts[..|ts| - 1], k);
    }
  }

  lemma KeyFilterMember(ts: seq<MultiMapTuple>, k: string, t: MultiMapTuple)
    ensures t in KeyFilter(ts, k) <==> t in ts && t.key == k
  {
    KeyFilterCount(ts, k, t);
  }

  // ----- The shape of erase -----

  /** Length of the run of records equal to `x` at the head of the chain:
      what erase's first loop removes. */
  function HeadRun(ts: seq<MultiMapTuple>, x: MultiMapTuple): (n: nat)
    ensures n <= |ts|
    ensures forall j :: 0 <= j < n ==> ts[j] == x
    ensures n < |ts| ==> ts[n] != x
    decreases |ts|
  {
    if ts == [] || ts[0] != x then 0 else 1 + HeadRun(ts[1..], x)
  }

  /** A walk of the head run that meets one more copy is still inside the run. */
  lemma HeadRunGrows(ts: seq<MultiMapTuple>, x: MultiMapTuple, n: nat)
    requires n <= HeadRun(ts, x) && n < |ts| && ts[n] == x
    ensures n + 1 <= HeadRun(ts, x)
  {
  }

  /** Index of the first record equal to `x` at or after `i`, or -1. */
  function FirstFrom(ts: seq<MultiMapTuple>, x: MultiMapTuple, i: nat): (m: int)
    requires i <= |ts|
    ensures m == -1 || i <= m < |ts|
    ensures m == -1 ==> forall j :: i <= j < |ts| ==> ts[j] != x
    ensures m != -1 ==> ts[m] == x && forall j :: i <= j < m ==> ts[j] != x
    decreases |ts| - i
  {
    if i == |ts| then -1 else if ts[i] == x then i else FirstFrom(ts, x, i + 1)
  }

  /** What is left of a chain after dropping its first `p` elements and,
      when `m` is an index, the element at `m`. */
  function Kept<A>(s: seq<A>, p: int, m: int): seq<A>
    requires 0 <= p <= |s| && (m == -1 || p <= m < |s|)
  {
    if m == -1 then s[p..] else s[p..m] + s[m + 1..]
  }

  /** The elements dropped by `Kept`, in the order erase frees them. */
  function Freed<A>(s: seq<A>, p: int, m: int): seq<A>
    requires 0 <= p <= |s| && (m == -1 || p <= m < |s|)
  {
    s[..p] + (if m == -1 then [] else [s[m]])
  }

  /** What erase returns for chain records `ts` and the triple `x`. */
  function EraseCount(ts: seq<MultiMapTuple>, x: MultiMapTuple): nat
  {
    var p := HeadRun(ts, x);
    p + (if FirstFrom(ts, x, p) == -1 then 0 else 1)
  }

  /** The chain records left by erase. */
  function Erased(ts: seq<MultiMapTuple>, x: MultiMapTuple): seq<MultiMapTuple>
  {
    var p := HeadRun(ts, x);
    Kept(ts, p, FirstFrom(ts, x, p))
  }

  /** Kept and Freed split a sequence without loss. */
  lemma KeptFreedSplit<A>(s: seq<A>, p: int, m: int)
    requires 0 <= p <= |s| && (m == -1 || p <= m < |s|)
    ensures multiset(Kept(s, p, m)) + multiset(Freed(s, p, m)) == multiset(s)
    ensures |Kept(s, p, m)| + |Freed(s, p, m)| == |s|
  {
    if m == -1 {
      assert s == s[..p] + s[p..];
    } else {
      assert s == s[..p] + s[p..m] + [s[m]] + s[m + 1..];
    }
  }

  /** Erase reports zero exactly when no record equals `x`. */
  lemma EraseCountZeroIff(ts: seq<MultiMapTuple>, x: MultiMapTuple)
    ensures EraseCount(ts, x) == 0 <==> x !in ts
  {
    if x in ts {
      var i :| 0 <= i < |ts| && ts[i] == x;
      var p := HeadRun(ts, x);
      if p == 0 {
        assert FirstFrom(ts, x, p) != -1;
      }
    }
  }

  /** Erase removes only copies of `x`, exactly as many as it reports. */
  lemma EraseRemovesOnlyMatches(ts: seq<MultiMapTuple>, x: MultiMapTuple)
    ensures forall t :: multiset(Erased(ts, x))[t] == multiset(ts)[t] - (if t == x then EraseCount(ts, x) else 0)
    ensures EraseCount(ts, x) <= multiset(ts)[x]
  {
    var p := HeadRun(ts, x);
    var m := FirstFrom(ts, x, p);
    KeptFreedSplit(ts, p, m);
    var fr := Freed(ts, p, m);
    assert |fr| == EraseCount(ts, x);
    assert forall j :: 0 <= j < |fr| ==> fr[j] == x;
    FreedAllX(fr, x);
  }

  /** Records with another key keep their multiplicity and their order. */
  lemma EraseKeepsOtherKeys(ts: seq<MultiMapTuple>, x: MultiMapTuple, k: string)
    requires k != x.key
    ensures KeyFilter(Erased(ts, x), k) == KeyFilter(ts, k)
  {
    var p := HeadRun(ts, x);
    var m := FirstFrom(ts, x, p);
    KeptKeepsOtherKeys(ts, p, m, k);
  }

  lemma KeptKeepsOtherKeys(ts: seq<MultiMapTuple>, p: int, m: int, k: string)
    requires 0 <= p <= |ts| && (m == -1 || p <= m < |ts|)
    requires forall j :: 0 <= j < p ==> ts[j].key != k
    requires m != -1 ==> ts[m].key != k
    ensures KeyFilter(Kept(ts, p, m), k) == KeyFilter(ts, k)
  {
    var head := ts[..p];
    KeyFilterNone(head, k);
    if m == -1 {
      assert ts == head + ts[p..];
      KeyFilterAppend(head, ts[p..], k);
    } else {
      var mid, one, tail := ts[p..m], [ts[m]], ts[m + 1..];
      KeyFilterNone(one, k);
      assert ts == head + ts[p..];
      assert ts[p..] == mid + ts[m..];
      assert ts[m..] == one + tail;
      KeyFilterAppend(head, ts[p..], k);
      KeyFilterAppend(mid, ts[m..], k);
      KeyFilterAppend(one, tail, k);
      KeyFilterAppend(mid, tail, k);
    }
  }

  lemma {:induction false} FreedAllX(fr: seq<MultiMapTuple>, x: MultiMapTuple)
    requires forall j :: 0 <= j < |fr| ==> fr[j] == x
    ensures multiset(fr) == multiset{} [x := |fr|]
    decreases |fr|
  {
    if fr != [] {
      assert fr == fr[..|fr| - 1] + [x];
      FreedAllX(fr[..|fr| - 1], x);
    }
  }

  /** Filtering a run of copies of one tuple by another key leaves nothing. */
  lemma {:induction false} KeyFilterNone(ts: seq<MultiMapTuple>, k: string)
    requires forall j :: 0 <= j < |ts| ==> ts[j].key != k
    ensures KeyFilter(ts, k) == []
    decreases |ts|
  {
    if ts != [] {
      KeyFilterNone(ts[..|ts| - 1], k);
    }
  }

  /** Searching from `i` in `ts` is searching from `i - p` in `ts[p..]`. */
  lemma {:induction false} FirstFromShift(ts: seq<MultiMapTuple>, x: MultiMapTuple, p: nat, i: nat)
    requires p <= i <= |ts|
    ensures FirstFrom(ts, x, i) == (if FirstFrom(ts[p..], x, i - p) == -1 then -1 else p + FirstFrom(ts[p..], x, i - p))
    decreases |ts| - i
  {
    if i < |ts| && ts[i] != x {
      FirstFromShift(ts, x, p, i + 1);
    }
  }

  /** Keeping and freeing in a suffix, in terms of the whole sequence. */
  lemma KeptFreedShift<A>(s: seq<A>, p: int, m: int)
    requires 0 <= p <= |s| && (m == -1 || 0 <= m < |s| - p)
    ensures Kept(s[p..], 0, m) == Kept(s, p, if m == -1 then -1 else p + m)
    ensures s[..p] + Freed(s[p..], 0, m) == Freed(s, p, if m == -1 then -1 else p + m)
  {
    if m != -1 {
      assert s[p..][0..m] == s[p..p + m];
      assert s[p..][m + 1..] == s[p + m + 1..];
    }
  }

  /** Erase's two stages on bucket `b` of chains `c0` with records `ts`:
      dropping the head run of `x` and then unlinking the first match in
      what is left together keep and free what `Kept` and `Freed` say of
      the whole chain. */
  lemma EraseStagesCompose<A>(c0: seq<seq<A>>, f0: seq<A>, b: nat, ts: seq<MultiMapTuple>, x: MultiMapTuple, p: nat,
                              cs: seq<seq<A>>, fs: seq<A>)
    requires b < |c0| && |c0[b]| == |ts| && p == HeadRun(ts, x) && p < |ts|
    requires cs == c0[b := c0[b][p..]][b := Kept(c0[b][p..], 0, FirstFrom(ts[p..], x, 0))]
    requires fs == (f0 + c0[b][..p]) + Freed(c0[b][p..], 0, FirstFrom(ts[p..], x, 0))
    ensures cs == c0[b := Kept(c0[b], p, FirstFrom(ts, x, p))]
    ensures fs == f0 + Freed(c0[b], p, FirstFrom(ts, x, p))
  {
    FirstFromShift(ts, x, p, p);
    KeptFreedShift(c0[b], p, FirstFrom(ts[p..], x, 0));
  }

  /** Erase after its head run: what is left of the chain, and the count. */
  lemma EraseAfterHeadRun(ts: seq<MultiMapTuple>, x: MultiMapTuple, p: nat)
    requires p == HeadRun(ts, x) && p < |ts|
    ensures Erased(ts, x) == Kept(ts[p..], 0, FirstFrom(ts[p..], x, 0))
    ensures EraseCount(ts, x) == p + (if FirstFrom(ts[p..], x, 0) == -1 then 0 else 1)
  {
    FirstFromShift(ts, x, p, p);
    KeptFreedShift(ts, p, FirstFrom(ts[p..], x, 0));
  }

  /** Erase does not remove every match: after a non-matching record, only
      the first later match goes, and a second duplicate survives. */
  lemma EraseLeavesLaterDuplicate(x: MultiMapTuple, y: MultiMapTuple)
    requires x != y
    ensures EraseCount([y, x, x], x) == 1
    ensures Erased([y, x, x], x) == [y, x]
  {
    assert HeadRun([y, x, x], x) == 0;
    assert FirstFrom([y, x, x], x, 0) == 1;
  }

  /** A run of matches at the head of the chain is removed entirely. */
  lemma EraseRemovesHeadRun(n: nat, x: MultiMapTuple, rest: seq<MultiMapTuple>)
    requires x !in rest
    ensures EraseCount(seq(n, _ => x) + rest, x) == n
    ensures Erased(seq(n, _ => x) + rest, x) == rest
  {
    var ts := seq(n, _ => x) + rest;
    var p := HeadRun(ts, x);
    assert forall j :: 0 <= j < n ==> ts[j] == x;
    assert n < |ts| ==> ts[n] == rest[0] && rest[0] in rest;
    assert p == n;
    assert ts[p..] == rest;
  }

  // ----- Preservation of the file invariant -----

  /** The file createNew leaves: every table entry -1, no records, growth
      pointer right after the table, empty free list. */
  lemma CreateWellFormed(hash: string -> nat, n: nat, words: map<int, int>)
    requires forall i :: 0 <= i < n ==> BucketAddress(i) in words && words[BucketAddress(i)] == NoOffset
    ensures WellFormed(Arena(n, TableEnd(n), NoOffset, words, map[]), hash, seq(n, _ => []), [])
  {
  }

  lemma SlotsOfChainsAllocated(a: Arena, hash: string -> nat, chains: seq<seq<int>>, free: seq<int>, o: int)
    requires WellFormed(a, hash, chains, free)
    ensures (exists i :: 0 <= i < |chains| && o in chains[i]) ==> Allocated(a, o)
    ensures o in free ==> Allocated(a, o)
  {
    if exists i :: 0 <= i < |chains| && o in chains[i] {
      var i :| 0 <= i < |chains| && o in chains[i];
      assert ChainOk(a, hash, i, chains[i]);
      var j :| 0 <= j < |chains[i]| && chains[i][j] == o;
    }
    if o in free {
      var j :| 0 <= j < |free| && free[j] == o;
    }
  }

  /** The slots below the growth pointer are exactly the slots on a chain
      or on the free list, and each of them is on exactly one of these. */
  lemma SlotsPartitioned(a: Arena, hash: string -> nat, chains: seq<seq<int>>, free: seq<int>, o: int)
    requires WellFormed(a, hash, chains, free)
    ensures IsSlot(a.numBuckets, o) && o < a.firstUnused <==> Tracked(chains, free, o)
    ensures o in free ==> forall i :: 0 <= i < |chains| ==> o !in chains[i]
    ensures forall i, i' :: 0 <= i < |chains| && 0 <= i' < |chains| && o in chains[i] && o in chains[i'] ==> i == i'
  {
    SlotsOfChainsAllocated(a, hash, chains, free, o);
  }

  /** A file whose only record is on neither a chain nor the free list is
      not well formed: a leaked slot is rejected. */
  lemma LeakedSlotRejected(hash: string -> nat)
    ensures !WellFormed(Arena(1, TableEnd(1) + NodeSize, NoOffset, map[BucketAddress(0) := NoOffset],
                              map[TableEnd(1) := Node("k", "v", "c", NoOffset)]), hash, [[]], [])
  {
    assert IsSlot(1, TableEnd(1));
    assert !Tracked([[]], [], TableEnd(1));
  }

  /** Why the file can be kept as two maps, `words` and `nodes`: table
      entries lie inside the table and do not overlap, every slot in use
      starts after the table, and two slots in use are a record apart. */
  lemma RegionsDisjoint(a: Arena, hash: string -> nat, chains: seq<seq<int>>, free: seq<int>,
                        i: nat, i': nat, o: int, o': int)
    requires WellFormed(a, hash, chains, free) && i < i' < a.numBuckets
    requires Tracked(chains, free, o) && Tracked(chains, free, o') && o < o'
    ensures BucketAddress(i) + OffsetSize <= BucketAddress(i') && BucketAddress(i') + OffsetSize <= TableEnd(a.numBuckets)
    ensures TableEnd(a.numBuckets) <= o && o + NodeSize <= o'
  {
    SlotsPartitioned(a, hash, chains, free, o);
    SlotsPartitioned(a, hash, chains, free, o');
    BucketsDisjoint(a.numBuckets, i, i');
    BucketsDisjoint(a.numBuckets, i', i');
    SlotsAfterTable(a.numBuckets, i', o);
    SlotsDisjoint(a.numBuckets, o, o');
  }

  /** Every offset on a chain names a record in the file. */
  lemma ChainSlotsPresent(a: Arena, hash: string -> nat, chains: seq<seq<int>>, free: seq<int>, i: int)
    requires WellFormed(a, hash, chains, free) && 0 <= i < |chains|
    ensures forall j :: 0 <= j < |chains[i]| ==> chains[i][j] in a.nodes
  {
    assert ChainOk(a, hash, i, chains[i]);
  }

  /** Slots lie after the table, so the sentinel -1 never names one: an
      empty table entry, a chain's last `next`, the bottom of the free list
      and an empty m_freedNodes are exactly where -1 appears. */
  lemma Sentinels(a: Arena, hash: string -> nat, chains: seq<seq<int>>, free: seq<int>)
    requires WellFormed(a, hash, chains, free)
    ensures a.freedNodes == NoOffset <==> free == []
    ensures forall i :: 0 <= i < |chains| ==> (a.words[BucketAddress(i)] == NoOffset <==> chains[i] == [])
    ensures forall i, j :: 0 <= i < |chains| && 0 <= j < |chains[i]| ==>
      (a.nodes[chains[i][j]].next == NoOffset <==> j == |chains[i]| - 1)
    ensures forall k :: 0 <= k < |free| ==> (a.nodes[free[k]].next == NoOffset <==> k == 0)
  {
    forall i | 0 <= i < |chains|
      ensures chains[i] != [] ==> chains[i][0] != NoOffset
      ensures forall j :: 0 <= j < |chains[i]| ==> (a.nodes[chains[i][j]].next == NoOffset <==> j == |chains[i]| - 1)
    {
      assert ChainOk(a, hash, i, chains[i]);
      forall j | 0 <= j < |chains[i]| ensures Allocated(a, chains[i][j]) && chains[i][j] >= 0 {
      }
    }
    forall k | 0 <= k < |free| ensures Allocated(a, free[k]) && free[k] >= 0 {
    }
  }

  /** The links of one chain as a walk along it sees them. */
  lemma ChainLinks(a: Arena, hash: string -> nat, chains: seq<seq<int>>, free: seq<int>, b: int)
    requires WellFormed(a, hash, chains, free) && 0 <= b < |chains|
    ensures forall j :: 0 <= j < |chains[b]| ==>
                chains[b][j] in a.nodes && a.nodes[chains[b][j]].next == NextIn(chains[b], j)
    ensures forall j :: 0 <= j < |chains[b]| ==> (a.nodes[chains[b][j]].next == NoOffset <==> j == |chains[b]| - 1)
  {
    assert ChainOk(a, hash, b, chains[b]);
    forall j | 0 <= j < |chains[b]| ensures Allocated(a, chains[b][j]) && chains[b][j] >= 0 {
    }
  }

  /** Moving the first element of a suffix onto the end of a prefix. */
  lemma PushPrefix<A>(f: seq<A>, s: seq<A>, n: int)
    requires 0 <= n < |s|
    ensures (f + s[..n]) + [s[n]] == f + s[..n + 1]
    ensures s[n..][1..] == s[n + 1..]
  {
    assert s[..n + 1] == s[..n] + [s[n]];
  }

  /** A second update at the same index overrides the first. */
  lemma UpdateTwice<A>(s: seq<A>, i: int, v: A, w: A)
    requires 0 <= i < |s|
    ensures s[i := v][i := w] == s[i := w]
  {
  }

  /** Dropping the first element of entry `b` once more, after `s1` had
      already replaced it by the suffix of `c` from `n`. */
  lemma DropOneMore<A>(s0: seq<seq<A>>, b: int, c: seq<A>, n: int, s1: seq<seq<A>>, s2: seq<seq<A>>)
    requires 0 <= b < |s0| && 0 <= n < |c|
    requires s1 == s0[b := c[n..]] && s2 == s1[b := s1[b][1..]]
    ensures s2 == s0[b := c[n + 1..]]
  {
    assert c[n..][1..] == c[n + 1..];
    UpdateTwice(s0, b, c[n..], c[n + 1..]);
  }

  /** The records of every chain, bucket by bucket. */
  function AllTuples(nodes: map<int, Node>, chains: seq<seq<int>>): (r: seq<seq<MultiMapTuple>>)
    requires forall i, j :: 0 <= i < |chains| && 0 <= j < |chains[i]| ==> chains[i][j] in nodes
    ensures |r| == |chains| && forall i :: 0 <= i < |chains| ==> r[i] == TuplesAt(nodes, chains[i])
  {
    seq(|chains|, i requires 0 <= i < |chains| => TuplesAt(nodes, chains[i]))
  }

  lemma AllSlotsPresent(a: Arena, hash: string -> nat, chains: seq<seq<int>>, free: seq<int>)
    requires WellFormed(a, hash, chains, free)
    ensures forall i, j :: 0 <= i < |chains| && 0 <= j < |chains[i]| ==> chains[i][j] in a.nodes
  {
    forall i | 0 <= i < |chains| ensures forall j :: 0 <= j < |chains[i]| ==> chains[i][j] in a.nodes {
      ChainSlotsPresent(a, hash, chains, free, i);
    }
  }
}
