/** The disk-based hash multimap (DiskMultiMap.cpp): a header, a bucket
    table and chains of fixed-size records in one binary file, with freed
    records kept on a linked free list for reuse. The file is modelled by
    the fields `words` and `nodes`; the ghost fields `chains` and `free`
    name the slots of each chain and of the free list. */
module PersistentMultiMap {
  import opened Layout
  import opened Tuples
  import opened Chains
  import opened ArenaSteps

  datatype Option<T> = None | Some(value: T)

  /** A multimap file at rest: its offset-sized words and its records. */
  datatype Store = Store(words: map<int, int>, nodes: map<int, Node>)

  /** The associations of an open multimap as values: each bucket's
      records in chain order, and the hash that places keys in buckets. */
  datatype Snapshot = Snapshot(buckets: seq<seq<MultiMapTuple>>, hash: string -> nat)

  /** What search finds for `k` in a snapshot; nothing when there are no
      buckets. */
  function Lookup(s: Snapshot, k: string): (r: seq<MultiMapTuple>)
    ensures forall t :: t in r ==> t.key == k
  {
    if |s.buckets| == 0 then []
    else
      var b := s.hash(k) % |s.buckets|;
      forall t | t in KeyFilter(s.buckets[b], k) ensures t.key == k {
        KeyFilterMember(s.buckets[b], k, t);
      }
      KeyFilter(s.buckets[b], k)
  }

  /** Every value stored in a snapshot. */
  ghost function AllValues(s: Snapshot): set<string>
  {
    set b, t | 0 <= b < |s.buckets| && t in s.buckets[b] :: t.value
  }

  /** The value of every record search finds is among the stored values. */
  lemma LookupValue(s: Snapshot, k: string, t: MultiMapTuple)
    requires t in Lookup(s, k)
    ensures t.value in AllValues(s)
  {
    KeyFilterMember(s.buckets[s.hash(k) % |s.buckets|], k, t);
  }

  /** How many times `t` occurs in `ts`. */
  ghost function Occurrences(ts: seq<MultiMapTuple>, t: MultiMapTuple): nat
  {
    if ts == [] then 0 else (if ts[0] == t then 1 else 0) + Occurrences(ts[1..], t)
  }

  lemma {:induction false} OccurrencesIsMultiset(ts: seq<MultiMapTuple>, t: MultiMapTuple)
    ensures Occurrences(ts, t) == multiset(ts)[t]
  {
    if ts != [] {
      assert ts == [ts[0]] + ts[1..];
      OccurrencesIsMultiset(ts[1..], t);
    }
  }

  /** How many copies of `t` a snapshot holds. */
  ghost function Multiplicity(s: Snapshot, t: MultiMapTuple): nat
  {
    Occurrences(Lookup(s, t.key), t)
  }

  /** The first record found for a key is held at least once. */
  lemma FirstRecordHeld(s: Snapshot, k: string)
    requires Lookup(s, k) != []
    ensures Lookup(s, k)[0].key == k && Multiplicity(s, Lookup(s, k)[0]) > 0
  {
    assert Lookup(s, k)[0] in Lookup(s, k);
  }

  /** A key none of whose tuples is held has no records. */
  lemma NoMultiplicityNoRecords(s: Snapshot, k: string)
    requires forall t: MultiMapTuple :: t.key == k ==> Multiplicity(s, t) == 0
    ensures Lookup(s, k) == []
  {
    if Lookup(s, k) != [] {
      FirstRecordHeld(s, k);
      assert false;
    }
  }

  /** A snapshot after one more successful insert: `t` appended to the
      end of its key's bucket. */
  function Place(s: Snapshot, t: MultiMapTuple): (r: Snapshot)
    ensures |r.buckets| == |s.buckets| && r.hash == s.hash
  {
    if |s.buckets| == 0 then s
    else
      var b := s.hash(t.key) % |s.buckets|;
      Snapshot(s.buckets[b := s.buckets[b] + [t]], s.hash)
  }

  /** A snapshot after inserting each of `ts` in order. */
  function PlaceAll(s: Snapshot, ts: seq<MultiMapTuple>): (r: Snapshot)
    ensures |r.buckets| == |s.buckets| && r.hash == s.hash
  {
    if ts == [] then s else Place(PlaceAll(s, ts[..|ts| - 1]), ts[|ts| - 1])
  }

  /** Inserting `t` adds it after the records search already finds for its
      key and changes nothing for any other key. */
  lemma LookupPlace(s: Snapshot, t: MultiMapTuple, k: string)
    requires |s.buckets| > 0
    ensures Lookup(Place(s, t), k) == Lookup(s, k) + if t.key == k then [t] else []
  {
    var b := s.hash(t.key) % |s.buckets|;
    var c := s.buckets[b] + [t];
    assert c[..|c| - 1] == s.buckets[b];
  }

  /** Inserting a sequence of tuples appends, for every key, exactly the
      ones with that key, in insertion order. */
  lemma {:induction false} LookupPlaceAll(s: Snapshot, ts: seq<MultiMapTuple>, k: string)
    requires |s.buckets| > 0
    ensures Lookup(PlaceAll(s, ts), k) == Lookup(s, k) + KeyFilter(ts, k)
    decreases |ts|
  {
    if ts != [] {
      var init := ts[..|ts| - 1];
      LookupPlaceAll(s, init, k);
      LookupPlace(PlaceAll(s, init), ts[|ts| - 1], k);
    }
  }

  /** Inserting two sequences one after the other. */
  lemma {:induction false} PlaceAllAppend(s: Snapshot, ts: seq<MultiMapTuple>, us: seq<MultiMapTuple>)
    ensures PlaceAll(s, ts + us).buckets == PlaceAll(PlaceAll(s, ts), us).buckets
    decreases |us|
  {
    if us == [] {
      assert ts + us == ts;
    } else {
      assert (ts + us)[..|ts + us| - 1] == ts + us[..|us| - 1];
      PlaceAllAppend(s, ts, us[..|us| - 1]);
    }
  }

  /** A tuple is held exactly when search for its key finds it. */
  lemma HeldIffFound(s: Snapshot, t: MultiMapTuple)
    ensures Multiplicity(s, t) > 0 <==> t in Lookup(s, t.key)
  {
    OccurrencesIsMultiset(Lookup(s, t.key), t);
  }

  /** Inserting `ts` adds to each tuple's copies its occurrences in `ts`. */
  lemma MultiplicityPlaceAll(s: Snapshot, ts: seq<MultiMapTuple>, u: MultiMapTuple)
    requires |s.buckets| > 0
    ensures Multiplicity(PlaceAll(s, ts), u) == Multiplicity(s, u) + multiset(ts)[u]
  {
    LookupPlaceAll(s, ts, u.key);
    OccurrencesIsMultiset(Lookup(PlaceAll(s, ts), u.key), u);
    OccurrencesIsMultiset(Lookup(s, u.key), u);
    KeyFilterCount(ts, u.key, u);
  }

  /** The arena a stored file describes once its header is read back. */
  function StoredArena(s: Store): Arena
    requires FirstUnusedAt in s.words && FreedNodesAt in s.words && NumBucketsAt in s.words
    requires s.words[NumBucketsAt] >= 0
  {
    Arena(s.words[NumBucketsAt], s.words[FirstUnusedAt], s.words[FreedNodesAt], s.words, s.nodes)
  }

  /** A file as close leaves it: header present and the arena well formed. */
  ghost predicate StoreOk(hash: string -> nat, s: Store, chains: seq<seq<int>>, free: seq<int>)
  {
    FirstUnusedAt in s.words && FreedNodesAt in s.words && NumBucketsAt in s.words &&
    s.words[NumBucketsAt] >= 0 &&
    WellFormed(StoredArena(s), hash, chains, free)
  }

  /** Iterator over the records search found: the current one and a queue
      of the rest. */
  class Iterator {
    var valid: bool
    var current: MultiMapTuple
    var queue: seq<MultiMapTuple>

    /** The records still to be visited, the current one first. */
    ghost function Remaining(): seq<MultiMapTuple>
      reads this
    {
      if valid then [current] + queue else []
    }

    /** The default constructor: an iterator that is not valid. */
    constructor Empty()
      ensures Remaining() == []
    {
      valid := false;
      current := MultiMapTuple("", "", "");
      queue := [];
    }

    /** A valid iterator positioned on the first of `q`. */
    constructor (q: seq<MultiMapTuple>)
      requires q != []
      ensures Remaining() == q
    {
      valid := true;
      current := q[0];
      queue := q[1..];
    }

    function IsValid(): (r: bool)
      reads this
      ensures r <==> Remaining() != []
    {
      valid
    }

    /** operator++: move to the next record; an invalid iterator stays invalid. */
    method Next()
      modifies this
      ensures Remaining() == if old(Remaining()) == [] then [] else old(Remaining())[1..]
    {
      if !valid {
        return;
      }
      if queue == [] {
        valid := false;
        return;
      }
      current := queue[0];
      queue := queue[1..];
    }

    /** operator*: the current record, or three empty strings when not valid. */
    function Deref(): (t: MultiMapTuple)
      reads this
      ensures Remaining() != [] ==> t == Remaining()[0]
      ensures Remaining() == [] ==> t == MultiMapTuple("", "", "")
    {
      if !IsValid() then MultiMapTuple("", "", "") else current
    }
  }

  class DiskMultiMap {
    /** std::hash<std::string>, fixed for the life of the object. */
    const hash: string -> nat
    /** Whether the binary file is open. */
    var isOpen: bool
    var numBuckets: nat
    var firstUnused: int
    var freedNodes: int
    /** The file's offset-sized words (header and bucket table) by byte offset. */
    var words: map<int, int>
    /** The file's records by byte offset. */
    var nodes: map<int, Node>
    ghost var chains: seq<seq<int>>
    ghost var free: seq<int>

    function View(): Arena
      reads this
    {
      Arena(numBuckets, firstUnused, freedNodes, words, nodes)
    }

    ghost predicate Valid()
      reads this
    {
      isOpen ==> WellFormed(View(), hash, chains, free)
    }

    /** Open, well formed and with at least one bucket: what insert,
        search and erase need (they hash modulo the bucket count). */
    ghost predicate Ready()
      reads this
    {
      Valid() && isOpen && numBuckets > 0
    }

    /** The bucket of a key: its hash modulo the bucket count. */
    function Bucket(k: string): (b: nat)
      reads this
      requires numBuckets > 0
      ensures b < numBuckets
    {
      hash(k) % numBuckets
    }

    /** The records of each bucket, in chain order. */
    ghost function Contents(): (r: seq<seq<MultiMapTuple>>)
      reads this
      requires Ready()
      ensures |r| == numBuckets
    {
      AllSlotsPresent(View(), hash, chains, free);
      AllTuples(nodes, chains)
    }

    /** The associations stored under key `k`, in the order search yields them. */
    ghost function Records(k: string): seq<MultiMapTuple>
      reads this
      requires Ready()
    {
      KeyFilter(Contents()[Bucket(k)], k)
    }

    /** The current associations as a value. */
    ghost function Snap(): (s: Snapshot)
      reads this
      requires Ready()
      ensures forall k :: Lookup(s, k) == Records(k)
    {
      Snapshot(Contents(), hash)
    }

    lemma CountIsMultiplicity()
      requires Ready()
      ensures forall t :: Count(t) == Multiplicity(Snap(), t)
    {
      forall t ensures Count(t) == Multiplicity(Snap(), t) {
        OccurrencesIsMultiset(Records(t.key), t);
      }
    }

    /** Buckets after one successful insert of `t`, as a snapshot step. */
    lemma ContentsPlaced(s0: Snapshot, t: MultiMapTuple)
      requires Ready() && s0.hash == hash && |s0.buckets| == numBuckets
      requires Contents() == s0.buckets[Bucket(t.key) := s0.buckets[Bucket(t.key)] + [t]]
      ensures Contents() == Place(s0, t).buckets
    {
    }

    /** When the buckets are those of `s0` after inserting `ts`, each key's
        records are its records in `s0` followed by its tuples in `ts`. */
    lemma RecordsOfPlaced(s0: Snapshot, ts: seq<MultiMapTuple>)
      requires Ready() && |s0.buckets| > 0 && s0.hash == hash
      requires Contents() == PlaceAll(s0, ts).buckets
      ensures forall k :: Records(k) == Lookup(s0, k) + KeyFilter(ts, k)
    {
      forall k ensures Records(k) == Lookup(s0, k) + KeyFilter(ts, k) {
        LookupPlaceAll(s0, ts, k);
      }
    }

    /** How many copies of `t` are stored. */
    ghost function Count(t: MultiMapTuple): nat
      reads this
      requires Ready()
    {
      multiset(Records(t.key))[t]
    }

    constructor (hash: string -> nat)
      ensures this.hash == hash && !isOpen && Valid()
    {
      this.hash := hash;
      isOpen := false;
      numBuckets := 0;
      firstUnused := 0;
      freedNodes := NoOffset;
      words := map[];
      nodes := map[];
      chains := [];
      free := [];
    }

    /** createNew: `created` is whether the binary file could be created.
        An open file is closed first (without writing its header). */
    method CreateNew(n: nat, created: bool) returns (ok: bool)
      requires Valid()
      modifies this
      ensures Valid() && ok == created && isOpen == created
      ensures ok ==> numBuckets == n && firstUnused == TableEnd(n) && freedNodes == NoOffset
      ensures ok ==> nodes == map[] && |chains| == n && free == []
      ensures ok ==> forall i :: 0 <= i < n ==> chains[i] == [] && words[BucketAddress(i)] == NoOffset
      ensures ok && n > 0 ==> forall k :: Records(k) == []
    {
      if isOpen {
        isOpen := false;
      }
      if !created {
        return false;
      }
      words := map[];
      nodes := map[];
      numBuckets := n;
      firstUnused := n * OffsetSize + HashTableStart;
      freedNodes := NoOffset;
      var i := HashTableStart;
      ghost var k := 0;
      while i < n * OffsetSize + HashTableStart
        invariant 0 <= k <= n && i == BucketAddress(k)
        invariant !isOpen && numBuckets == n && firstUnused == TableEnd(n) && freedNodes == NoOffset && nodes == map[]
        invariant forall j :: 0 <= j < k ==> BucketAddress(j) in words && words[BucketAddress(j)] == NoOffset
        decreases n - k
      {
        words := words[i := NoOffset];
        i := i + OffsetSize;
        k := k + 1;
      }
      chains := seq(n, _ => []);
      free := [];
      CreateWellFormed(hash, n, words);
      isOpen := true;
      ok := true;
      assert Valid();
      if n > 0 {
        forall key | true ensures Records(key) == [] {
          assert chains[Bucket(key)] == [];
        }
      }
    }

    /** openExisting: `file` is the file's contents, or None when it cannot
        be opened; the header is read back into the fields. The ghost
        `storedChains` and `storedFree` describe the stored file. */
    method OpenExisting(file: Option<Store>, ghost storedChains: seq<seq<int>>, ghost storedFree: seq<int>)
      returns (ok: bool)
      requires Valid()
      requires file.Some? ==> StoreOk(hash, file.value, storedChains, storedFree)
      modifies this
      ensures Valid() && ok == file.Some? && isOpen == ok
      ensures ok ==> words == file.value.words && nodes == file.value.nodes
      ensures ok ==> firstUnused == words[FirstUnusedAt] && freedNodes == words[FreedNodesAt] && numBuckets == words[NumBucketsAt]
      ensures ok ==> chains == storedChains && free == storedFree
    {
      if isOpen {
        isOpen := false;
      }
      if file.None? {
        return false;
      }
      words := file.value.words;
      nodes := file.value.nodes;
      firstUnused := words[FirstUnusedAt];
      freedNodes := words[FreedNodesAt];
      numBuckets := words[NumBucketsAt];
      chains := storedChains;
      free := storedFree;
      isOpen := true;
      ok := true;
    }

    /** close: the header words are written (a write to a closed file does
        nothing) and the file is closed. */
    method Close()
      requires Valid()
      modifies this
      ensures Valid() && !isOpen
      ensures nodes == old(nodes) && numBuckets == old(numBuckets) && firstUnused == old(firstUnused)
      ensures freedNodes == old(freedNodes) && chains == old(chains) && free == old(free)
      ensures !old(isOpen) ==> words == old(words)
      ensures old(isOpen) ==> words == old(words)[FirstUnusedAt := firstUnused][FreedNodesAt := freedNodes][NumBucketsAt := numBuckets]
      ensures old(isOpen) ==> StoreOk(hash, Store(words, nodes), chains, free) && StoredArena(Store(words, nodes)) == View()
    {
      if isOpen {
        ghost var a := View();
        words := words[FirstUnusedAt := firstUnused][FreedNodesAt := freedNodes][NumBucketsAt := numBuckets];
        forall i | 0 <= i < |chains| ensures words[BucketAddress(i)] == a.words[BucketAddress(i)] {
          HeaderPrecedesTable(i);
        }
        isOpen := false;
      }
    }

    /** Closing and opening the same file again restores the header and
        every stored association. */
    method CloseAndReopen() returns (ok: bool)
      requires Ready()
      modifies this
      ensures ok && Ready()
      ensures numBuckets == old(numBuckets) && firstUnused == old(firstUnused) && freedNodes == old(freedNodes)
      ensures forall k :: Records(k) == old(Records(k))
    {
      Close();
      ok := OpenExisting(Some(Store(words, nodes)), chains, free);
    }

    /** generateOpenOffset: pop the free-list head, or -1 if the list is empty. */
    method GenerateOpenOffset() returns (o: int)
      requires isOpen && FreeOk(View(), free)
      modifies this
      ensures o == if old(free) == [] then NoOffset else old(free)[|old(free)| - 1]
      ensures free == Popped(old(free)) && freedNodes == TopOf(free)
      ensures words == old(words) && nodes == old(nodes) && firstUnused == old(firstUnused)
      ensures numBuckets == old(numBuckets) && isOpen == old(isOpen) && chains == old(chains)
    {
      PopFree(View(), free);
      if freedNodes == NoOffset {
        return NoOffset;
      }
      var temp := nodes[freedNodes];
      o := freedNodes;
      freedNodes := temp.next;
      free := Popped(free);
    }

    /** addToUnusedNodes: push a slot on the free list, overwriting it with
        a dummy record that links to the previous head. */
    method AddToUnusedNodes(offset: int)
      requires isOpen
      modifies this
      ensures nodes == old(nodes)[offset := FreeNode(old(freedNodes))]
      ensures freedNodes == offset && free == old(free) + [offset]
      ensures words == old(words) && firstUnused == old(firstUnused) && numBuckets == old(numBuckets)
      ensures isOpen == old(isOpen) && chains == old(chains)
    {
      if freedNodes == NoOffset {
        freedNodes := offset;
        nodes := nodes[offset := FreeNode(NoOffset)];
        free := free + [offset];
        return;
      }
      nodes := nodes[offset := FreeNode(freedNodes)];
      freedNodes := offset;
      free := free + [offset];
    }

    /** insert: refuse over-long fields; otherwise append the record at the
        end of its bucket's chain, in a reused slot when one is free. */
    method Insert(key: string, value: string, context: string) returns (ok: bool)
      requires Ready()
      modifies this
      ensures Ready() && numBuckets == old(numBuckets)
      ensures ok <==> Fits(MultiMapTuple(key, value, context))
      ensures !ok ==> Contents() == old(Contents())
      ensures ok ==> Contents() == old(Contents())[Bucket(key) := old(Contents())[Bucket(key)] + [MultiMapTuple(key, value, context)]]
      ensures forall k :: Records(k) == if ok && k == key then old(Records(k)) + [MultiMapTuple(key, value, context)] else old(Records(k))
      ensures !ok ==> View() == old(View()) && chains == old(chains) && free == old(free)
      ensures ok ==> var b, c := Bucket(key), old(chains)[Bucket(key)];
        (c != [] ==> c[|c| - 1] in old(nodes)) &&
        View() == Appended(old(View()), old(free), c, b, MultiMapTuple(key, value, context)) &&
        chains == old(chains)[b := c + [NewSlot(old(View()), old(free))]] && free == Popped(old(free))
      ensures firstUnused >= old(firstUnused)
    {
      if |key| > MaxFieldLength || |value| > MaxFieldLength || |context| > MaxFieldLength {
        return false;
      }
      var t := MultiMapTuple(key, value, context);
      ghost var a, c0, f0 := View(), chains, free;
      ghost var before := Contents();
      AllSlotsPresent(a, hash, c0, f0);
      assert before == AllTuples(a.nodes, c0);
      var b := Bucket(key);
      assert 0 <= b < |c0| && Fits(t) && hash(t.key) % a.numBuckets == b;
      Sentinels(a, hash, chains, free);
      ChainSlotsPresent(a, hash, chains, free, b);
      var bucket := words[BucketAddress(b)];
      if bucket == NoOffset {
        StartChain(b, t);
      } else {
        ExtendChain(b, bucket, t);
      }
      CommitAppend(a, c0, f0, b, t, before);
      ok := true;
    }

    /** insert into an empty bucket: the bucket word points at the new
        record, placed in a freed slot when there is one and at the end of
        the file otherwise. */
    method StartChain(b: nat, t: MultiMapTuple)
      requires isOpen && WellFormed(View(), hash, chains, free)
      requires b < numBuckets && chains[b] == []
      modifies this
      ensures View() == Appended(old(View()), old(free), [], b, t)
      ensures free == Popped(old(free)) && chains == old(chains) && isOpen
    {
      ghost var a := View();
      var record := Node(t.key, t.value, t.context, NoOffset);
      if freedNodes != NoOffset {
        var freeOffset := GenerateOpenOffset();
        words := words[BucketAddress(b) := freeOffset];
        nodes := nodes[freeOffset := record];
      } else {
        PopFree(a, free);
        words := words[BucketAddress(b) := firstUnused];
        nodes := nodes[firstUnused := record];
        firstUnused := firstUnused + NodeSize;
      }
    }

    /** insert into a bucket in use: walk to the last record of the chain
        and link the new record after it. */
    method ExtendChain(b: nat, bucket: int, t: MultiMapTuple)
      requires isOpen && WellFormed(View(), hash, chains, free)
      requires b < numBuckets && chains[b] != [] && bucket == chains[b][0]
      modifies this
      ensures free == Popped(old(free)) && chains == old(chains) && isOpen
      ensures chains[b][|chains[b]| - 1] in old(nodes)
      ensures View() == Appended(old(View()), old(free), chains[b], b, t)
    {
      ghost var a, c := View(), chains[b];
      ChainLinks(a, hash, chains, free, b);
      assert FreeOk(a, free);
      var record := Node(t.key, t.value, t.context, NoOffset);
      var temp := nodes[bucket];
      var offsetOfTemp := bucket;
      ghost var j := 0;
      while temp.next != NoOffset
        invariant 0 <= j < |c| && offsetOfTemp == c[j] && temp == nodes[offsetOfTemp]
        invariant View() == a
        decreases |c| - j
      {
        offsetOfTemp := temp.next;
        temp := nodes[temp.next];
        j := j + 1;
      }
      assert j == |c| - 1;
      if freedNodes != NoOffset {
        var freeOffset := GenerateOpenOffset();
        assert Node(temp.key, temp.value, temp.context, freeOffset) == a.nodes[c[j]].(next := freeOffset);
        nodes := nodes[offsetOfTemp := Node(temp.key, temp.value, temp.context, freeOffset)];
        nodes := nodes[freeOffset := record];
      } else {
        PopFree(a, free);
        assert Node(temp.key, temp.value, temp.context, firstUnused) == a.nodes[c[j]].(next := firstUnused);
        nodes := nodes[offsetOfTemp := Node(temp.key, temp.value, temp.context, firstUnused)];
        nodes := nodes[firstUnused := record];
        firstUnused := firstUnused + NodeSize;
      }
    }

    /** The ghost side of insert: the appended slot joins the chain, and
        the file invariant and the records follow. */
    ghost method CommitAppend(a: Arena, c0: seq<seq<int>>, f0: seq<int>, b: int, t: MultiMapTuple,
                              before: seq<seq<MultiMapTuple>>)
      requires isOpen && a.numBuckets > 0 && WellFormed(a, hash, c0, f0)
      requires forall i, j :: 0 <= i < |c0| && 0 <= j < |c0[i]| ==> c0[i][j] in a.nodes
      requires before == AllTuples(a.nodes, c0)
      requires 0 <= b < |c0| && Fits(t) && hash(t.key) % a.numBuckets == b
      requires View() == Appended(a, f0, c0[b], b, t) && free == Popped(f0)
      modifies this
      ensures Ready() && View() == old(View()) && free == old(free)
      ensures chains == c0[b := c0[b] + [NewSlot(a, f0)]]
      ensures Contents() == before[b := before[b] + [t]]
      ensures forall k :: Records(k) == if k == t.key then KeyFilter(before[Bucket(k)], k) + [t] else KeyFilter(before[Bucket(k)], k)
    {
      AppendPreserves(a, hash, c0, f0, b, t, View());
      chains := c0[b := c0[b] + [NewSlot(a, f0)]];
      RecordsAfterAppend(before, b, t);
    }

    /** Appending `t` to its bucket's records appends it to the records of
        its key and leaves every other key's records alone. */
    lemma RecordsAfterAppend(before: seq<seq<MultiMapTuple>>, b: int, t: MultiMapTuple)
      requires Ready() && |before| == numBuckets && b == Bucket(t.key)
      requires Contents() == before[b := before[b] + [t]]
      ensures forall k :: Records(k) == if k == t.key then KeyFilter(before[Bucket(k)], k) + [t] else KeyFilter(before[Bucket(k)], k)
    {
      forall k | true
        ensures Records(k) == if k == t.key then KeyFilter(before[Bucket(k)], k) + [t] else KeyFilter(before[Bucket(k)], k)
      {
        if Bucket(k) == b {
          KeyFilterAppend(before[b], [t], k);
          assert KeyFilter([t], k) == (if t.key == k then [t] else []) by {
            assert [t][..0] == [];
          }
        }
      }
    }

    /** search: collect, in chain order, the records of the key's bucket
        whose key matches; an iterator over them, invalid if there are none. */
    method Search(key: string) returns (it: Iterator)
      requires Ready()
      ensures fresh(it) && it.Remaining() == Records(key)
    {
      var b := Bucket(key);
      Sentinels(View(), hash, chains, free);
      var bucket := words[BucketAddress(b)];
      if bucket == NoOffset {
        it := new Iterator.Empty();
        return;
      }
      ghost var c := chains[b];
      ghost var ts := Contents()[b];
      assert ChainOk(View(), hash, b, c);
      var q: seq<MultiMapTuple> := [];
      var temp := nodes[bucket];
      ghost var j := 0;
      while temp.next != NoOffset
        invariant 0 <= j < |c| && temp == nodes[c[j]] && q == KeyFilter(ts[..j], key)
        decreases |c| - j
      {
        if temp.key == key {
          q := q + [MultiMapTuple(temp.key, temp.value, temp.context)];
        }
        assert ts[..j + 1][..j] == ts[..j];
        temp := nodes[temp.next];
        j := j + 1;
      }
      if temp.key == key {
        q := q + [MultiMapTuple(temp.key, temp.value, temp.context)];
      }
      assert ts[..j + 1][..j] == ts[..j] && ts[..j + 1] == ts;
      if q == [] {
        it := new Iterator.Empty();
      } else {
        it := new Iterator(q);
      }
    }
  
    /** erase: remove the run of records equal to the triple at the head of
        the key's chain and, after it, only the first later match; return
        how many were removed. */
    method Erase(key: string, value: string, context: string) returns (r: int)
      requires Ready()
      requires key != "" || value != "" || context != ""
      modifies this
      ensures Ready() && numBuckets == old(numBuckets) && firstUnused == old(firstUnused)
      ensures r == EraseCount(old(Contents())[Bucket(key)], MultiMapTuple(key, value, context))
      ensures Contents() == old(Contents())[Bucket(key) := Erased(old(Contents())[Bucket(key)], MultiMapTuple(key, value, context))]
      ensures forall k :: k != key ==> Records(k) == old(Records(k))
      ensures forall t :: Count(t) == old(Count(t)) - if t == MultiMapTuple(key, value, context) then r else 0
      ensures r == 0 <==> old(Count(MultiMapTuple(key, value, context))) == 0
      ensures var b, x := Bucket(key), MultiMapTuple(key, value, context);
        var ts := old(Contents())[b];
        var p := HeadRun(ts, x);
        |old(chains)[b]| == |ts| &&
        chains == old(chains)[b := Kept(old(chains)[b], p, FirstFrom(ts, x, p))] &&
        free == old(free) + Freed(old(chains)[b], p, FirstFrom(ts, x, p))
    {
      var x := MultiMapTuple(key, value, context);
      ghost var before := Contents();
      var b := Bucket(key);
      r := EraseInBucket(b, x);
      RecordsAfterErase(before, x);
    }

    /** erase within bucket `b`: drop the head run of `x`, then unlink the
        first later match; the chain loses exactly those slots, which go
        onto the free list in that order. */
    method EraseInBucket(b: nat, x: MultiMapTuple) returns (r: int)
      requires Ready() && b == Bucket(x.key)
      requires x.key != "" || x.value != "" || x.context != ""
      modifies this
      ensures Ready() && numBuckets == old(numBuckets) && firstUnused == old(firstUnused)
      ensures r == EraseCount(old(Contents())[b], x)
      ensures Contents() == old(Contents())[b := Erased(old(Contents())[b], x)]
      ensures var ts := old(Contents())[b];
        var p := HeadRun(ts, x);
        |old(chains)[b]| == |ts| &&
        chains == old(chains)[b := Kept(old(chains)[b], p, FirstFrom(ts, x, p))] &&
        free == old(free) + Freed(old(chains)[b], p, FirstFrom(ts, x, p))
    {
      ghost var c0, before := chains, Contents();
      Sentinels(View(), hash, chains, free);
      var bucket := words[BucketAddress(b)];
      if bucket == NoOffset {
        assert before[b] == [] && before[b := []] == before;
        assert c0[b] == [] && c0[b][0..] == [] && c0[b := []] == c0 && free + [] == free;
        assert HeadRun(before[b], x) == 0 && FirstFrom(before[b], x, 0) == -1;
        assert chains == c0[b := Kept(c0[b], 0, -1)] && free == old(free) + Freed(c0[b], 0, -1);
        return 0;
      }
      ghost var c, ts := c0[b], before[b];
      var finished, currentNode, temp;
      r, finished, currentNode, temp := DropHeadRun(b, bucket, x);
      ghost var p := r;
      if finished {
        assert ts[p..] == [] && FirstFrom(ts, x, p) == -1;
        assert c[..p] + [] == c[..p];
        assert chains == c0[b := Kept(c, p, -1)] && free == old(free) + Freed(c, p, -1);
        return;
      }
      ghost var mid := Contents();
      assert mid[b] == ts[p..] && chains[b] == c[p..];
      var removed := UnlinkFirstMatch(b, x, currentNode, temp);
      r := r + removed;
      EraseAfterHeadRun(ts, x, p);
      EraseStagesCompose(c0, old(free), b, ts, x, p, chains, free);
      assert Contents() == mid[b := Erased(ts, x)];
      UpdateTwice(before, b, ts[p..], Erased(ts, x));
    }

    /** Erasing `x` from its bucket's records leaves every other key's
        records alone and lowers the count of `x` by what erase reports,
        which is zero exactly when `x` was not stored. */
    lemma RecordsAfterErase(before: seq<seq<MultiMapTuple>>, x: MultiMapTuple)
      requires Ready() && |before| == numBuckets
      requires Contents() == before[Bucket(x.key) := Erased(before[Bucket(x.key)], x)]
      ensures forall k :: k != x.key ==> Records(k) == KeyFilter(before[Bucket(k)], k)
      ensures forall t :: (Count(t) ==
        multiset(KeyFilter(before[Bucket(t.key)], t.key))[t] - if t == x then EraseCount(before[Bucket(x.key)], x) else 0)
      ensures EraseCount(before[Bucket(x.key)], x) == 0 <==> multiset(KeyFilter(before[Bucket(x.key)], x.key))[x] == 0
    {
      var b := Bucket(x.key);
      EraseRemovesOnlyMatches(before[b], x);
      EraseCountZeroIff(before[b], x);
      KeyFilterCount(before[b], x.key, x);
      forall k | k != x.key
        ensures Records(k) == KeyFilter(before[Bucket(k)], k)
      {
        if Bucket(k) == b {
          EraseKeepsOtherKeys(before[b], x, k);
        }
      }
      forall t
        ensures Count(t) == multiset(KeyFilter(before[Bucket(t.key)], t.key))[t] - if t == x then EraseCount(before[b], x) else 0
      {
        KeyFilterCount(Contents()[Bucket(t.key)], t.key, t);
        KeyFilterCount(before[Bucket(t.key)], t.key, t);
      }
    }

    /** The first loop of erase: while the chain's first record equals `x`,
        free it and point the bucket at its successor. */
    method DropHeadRun(b: nat, bucket: int, x: MultiMapTuple)
      returns (n: int, finished: bool, currentNode: int, temp: Node)
      requires Ready() && b < numBuckets && chains[b] != [] && bucket == chains[b][0]
      modifies this
      ensures Ready() && numBuckets == old(numBuckets) && firstUnused == old(firstUnused)
      ensures n == HeadRun(old(Contents())[b], x)
      ensures finished <==> n == |old(chains)[b]|
      ensures chains == old(chains)[b := old(chains)[b][n..]] && free == old(free) + old(chains)[b][..n]
      ensures Contents() == old(Contents())[b := old(Contents())[b][n..]]
      ensures !finished ==> chains[b] != [] && currentNode == chains[b][0] && temp == nodes[currentNode]
    {
      ghost var c0, f0, before := chains, free, Contents();
      ghost var c, ts := c0[b], before[b];
      ChainRecord(b, 0);
      temp := nodes[bucket];
      currentNode := bucket;
      n := 0;
      assert c[0..] == c && ts[0..] == ts && c[..0] == [] && before[b := ts] == before;
      finished := false;
      while !finished && temp.key == x.key && temp.value == x.value && temp.context == x.context
        invariant Ready() && numBuckets == old(numBuckets)
        invariant 0 <= n <= |c| == |ts| && (finished <==> n == |c|)
        invariant n <= HeadRun(ts, x)
        invariant firstUnused == old(firstUnused)
        invariant chains == c0[b := c[n..]] && free == f0 + c[..n]
        invariant Contents() == before[b := ts[n..]]
        invariant !finished ==> currentNode == c[n] && currentNode in nodes && temp == nodes[currentNode] && TupleOf(temp) == ts[n]
        decreases |c| - n
      {
        PopRunHead(b, x, c0, f0, before, n, currentNode, temp);
        HeadRunGrows(ts, x, n);
        n := n + 1;
        if temp.next == NoOffset {
          // the chain is used up: erase returns here
          finished := true;
        } else {
          currentNode := temp.next;
          temp := nodes[temp.next];
        }
      }
    }

    /** One pass of erase's first loop, in terms of the chain `c0[b]` and
        records `before[b]` the loop started from: their `n`-th entry, now
        the head, equals `x` and is freed. */
    method PopRunHead(b: nat, x: MultiMapTuple, ghost c0: seq<seq<int>>, ghost f0: seq<int>,
                      ghost before: seq<seq<MultiMapTuple>>, ghost n: nat, currentNode: int, temp: Node)
      requires Ready() && b < numBuckets && b < |c0| && b < |before| && n < |c0[b]| == |before[b]|
      requires chains == c0[b := c0[b][n..]] && free == f0 + c0[b][..n]
      requires Contents() == before[b := before[b][n..]]
      requires currentNode == c0[b][n] && currentNode in nodes && temp == nodes[currentNode]
      requires temp.key == x.key && temp.value == x.value && temp.context == x.context
      modifies this
      ensures Ready() && numBuckets == old(numBuckets) && firstUnused == old(firstUnused)
      ensures before[b][n] == x
      ensures temp.next == NoOffset <==> n + 1 == |c0[b]|
      ensures n + 1 < |c0[b]| ==> temp.next == c0[b][n + 1]
      ensures chains == c0[b := c0[b][n + 1..]] && free == f0 + c0[b][..n + 1]
      ensures Contents() == before[b := before[b][n + 1..]]
      ensures n + 1 < |c0[b]| ==> temp.next in nodes && TupleOf(nodes[temp.next]) == before[b][n + 1]
    {
      ChainRecord(b, 0);
      ghost var cs, cur := chains, Contents();
      PopHead(b, currentNode, temp);
      PushPrefix(f0, c0[b], n);
      DropOneMore(c0, b, c0[b], n, cs, chains);
      DropOneMore(before, b, before[b], n, cur, Contents());
      if n + 1 < |c0[b]| {
        ChainRecord(b, 0);
      }
    }

    /** A record of a chain as a walk reads it. */
    lemma ChainRecord(b: nat, j: nat)
      requires Ready() && b < numBuckets && j < |chains[b]|
      ensures chains[b][j] in nodes && Contents()[b][j] == TupleOf(nodes[chains[b][j]])
      ensures nodes[chains[b][j]].next == NextIn(chains[b], j)
      ensures nodes[chains[b][j]].next == NoOffset <==> j == |chains[b]| - 1
    {
      ChainLinks(View(), hash, chains, free, b);
      AllSlotsPresent(View(), hash, chains, free);
    }

    /** A step along a chain from a record that has a successor. */
    lemma ChainStep(b: nat, j: nat, temp: Node)
      requires Ready() && b < numBuckets && j < |chains[b]|
      requires temp == nodes[chains[b][j]] && temp.next != NoOffset
      ensures j + 1 < |chains[b]| && temp.next == chains[b][j + 1] && temp.next in nodes
      ensures Contents()[b][j + 1] == TupleOf(nodes[temp.next])
    {
      ChainRecord(b, j);
      ChainRecord(b, j + 1);
    }

    /** A step along the free list from a slot that has one below it. */
    lemma FreeStep(k: nat, temp: Node)
      requires FreeLinked(View(), free) && k < |free|
      requires temp == nodes[free[k]] && temp.next != NoOffset
      ensures k > 0 && temp.next == free[k - 1] && temp.next in nodes
      ensures nodes[temp.next] == FreeNode(BelowIn(free, k - 1))
    {
      FreeRecord(k);
      FreeRecord(k - 1);
    }

    /** A slot of the free list as a walk reads it: a dummy record. */
    lemma FreeRecord(k: nat)
      requires FreeLinked(View(), free) && k < |free|
      ensures free[k] in nodes && nodes[free[k]] == FreeNode(BelowIn(free, k))
      ensures nodes[free[k]].next == NoOffset <==> k == 0
    {
      if k > 0 {
        assert Allocated(View(), free[k - 1]);
      }
    }

    /** One pass of erase's first loop: free the chain's first record and
        point the bucket at the record that followed it. */
    method PopHead(b: nat, currentNode: int, temp: Node)
      requires Ready() && b < numBuckets && chains[b] != []
      requires currentNode == chains[b][0] && temp == nodes[currentNode]
      modifies this
      ensures Ready() && numBuckets == old(numBuckets) && firstUnused == old(firstUnused)
      ensures chains == old(chains)[b := old(chains)[b][1..]] && free == old(free) + [currentNode]
      ensures Contents() == old(Contents())[b := old(Contents())[b][1..]]
    {
      ghost var a, cs, fs, cur := View(), chains, free, Contents();
      AllSlotsPresent(a, hash, cs, fs);
      AddToUnusedNodes(currentNode);
      words := words[BucketAddress(b) := temp.next];
      CommitPopHead(a, cs, fs, b, cur);
    }

    /** The second loop of erase: look one record ahead and unlink the
        first later record equal to `x`. Once a record has been unlinked,
        the walk goes on from the freed slot, that is along the free list,
        whose dummy records never equal a triple that is not all empty; the
        loop is written here as those three stages, in the order it runs. */
    method UnlinkFirstMatch(b: nat, x: MultiMapTuple, currentNode0: int, temp0: Node) returns (removed: int)
      requires Ready() && b < numBuckets && chains[b] != []
      requires x.key != "" || x.value != "" || x.context != ""
      requires currentNode0 == chains[b][0] && temp0 == nodes[currentNode0] && Contents()[b][0] != x
      modifies this
      ensures Ready() && numBuckets == old(numBuckets) && firstUnused == old(firstUnused)
      ensures removed == if FirstFrom(old(Contents())[b], x, 0) == -1 then 0 else 1
      ensures chains == old(chains)[b := Kept(old(chains)[b], 0, FirstFrom(old(Contents())[b], x, 0))]
      ensures free == old(free) + Freed(old(chains)[b], 0, FirstFrom(old(Contents())[b], x, 0))
      ensures Contents() == old(Contents())[b := Kept(old(Contents())[b], 0, FirstFrom(old(Contents())[b], x, 0))]
    {
      ghost var c, ts := chains[b], Contents()[b];
      var found, currentNode, temp, nextNode, j := FindLaterMatch(b, x, currentNode0, temp0);
      if !found {
        KeptNothing(c);
        KeptNothing(ts);
        assert chains[b := c] == chains && Contents()[b := ts] == Contents() && free + [] == free;
        return 0;
      }
      UnlinkNext(b, j, currentNode, temp, nextNode);
      removed := 1;
      currentNode := temp.next;
      temp := nodes[temp.next];
      assert FreeLinked(View(), free) && free[|free| - 1] == currentNode;
      var bottom := WalkFreeList(x, |free| - 1, currentNode, temp);
    }

    /** erase's second loop up to its first match: walk the chain looking
        one record ahead, and stop before the record equal to `x`. */
    method FindLaterMatch(b: nat, x: MultiMapTuple, currentNode0: int, temp0: Node)
      returns (found: bool, currentNode: int, temp: Node, nextNode: Node, ghost j: nat)
      requires Ready() && b < numBuckets && chains[b] != []
      requires currentNode0 == chains[b][0] && temp0 == nodes[currentNode0] && Contents()[b][0] != x
      ensures found <==> FirstFrom(Contents()[b], x, 0) != -1
      ensures found ==> FirstFrom(Contents()[b], x, 0) == j + 1 && j + 1 < |chains[b]|
      ensures found ==> currentNode == chains[b][j] && temp == nodes[currentNode]
      ensures found ==> temp.next == chains[b][j + 1] && nextNode == nodes[temp.next]
    {
      ghost var c, ts := chains[b], Contents()[b];
      ghost var m := FirstFrom(ts, x, 0);
      currentNode, temp := currentNode0, temp0;
      nextNode := Node("", "", "", 0);
      j := 0;
      while temp.next != NoOffset
        invariant 0 <= j < |c| && currentNode == c[j] && temp == nodes[currentNode]
        invariant m == FirstFrom(ts, x, j + 1)
        decreases |c| - j
      {
        ChainStep(b, j, temp);
        nextNode := nodes[temp.next];
        assert ts[j + 1] == TupleOf(nextNode);
        if nextNode.key == x.key && nextNode.value == x.value && nextNode.context == x.context {
          return true, currentNode, temp, nextNode, j;
        }
        currentNode := temp.next;
        temp := nodes[temp.next];
        j := j + 1;
      }
      ChainRecord(b, j);
      assert j + 1 == |c| == |ts|;
      assert m == -1;
      found := false;
    }

    /** erase's second loop after its unlink: from the freed slot the walk
        follows the free list to its bottom, and no dummy record there
        equals `x`, so nothing more is removed. */
    method WalkFreeList(x: MultiMapTuple, ghost k0: int, currentNode0: int, temp0: Node) returns (bottom: int)
      requires x.key != "" || x.value != "" || x.context != ""
      requires FreeLinked(View(), free) && 0 <= k0 < |free| && currentNode0 == free[k0] && temp0 == nodes[currentNode0]
      ensures bottom == free[0]
    {
      var currentNode, temp := currentNode0, temp0;
      ghost var k := k0;
      while temp.next != NoOffset
        invariant 0 <= k < |free| && currentNode == free[k] && temp == nodes[currentNode]
        decreases k
      {
        FreeStep(k, temp);
        var nextNode := nodes[temp.next];
        assert !(nextNode.key == x.key && nextNode.value == x.value && nextNode.context == x.context);
        currentNode := temp.next;
        temp := nodes[temp.next];
        k := k - 1;
      }
      FreeRecord(k);
      bottom := currentNode;
    }

    /** One unlink in erase's second loop: free the record after
        `currentNode` and link `currentNode` to the record after that. */
    method UnlinkNext(b: nat, ghost j: nat, currentNode: int, temp: Node, nextNode: Node)
      requires Ready() && b < numBuckets && j + 1 < |chains[b]|
      requires currentNode == chains[b][j] && temp == nodes[currentNode]
      requires temp.next == chains[b][j + 1] && nextNode == nodes[temp.next]
      modifies this
      ensures Ready() && numBuckets == old(numBuckets) && firstUnused == old(firstUnused)
      ensures chains == old(chains)[b := Kept(old(chains)[b], 0, j + 1)]
      ensures free == old(free) + Freed(old(chains)[b], 0, j + 1)
      ensures Contents() == old(Contents())[b := Kept(old(Contents())[b], 0, j + 1)]
    {
      ghost var a, cs, fs, cur := View(), chains, free, Contents();
      AllSlotsPresent(a, hash, cs, fs);
      AddToUnusedNodes(temp.next);
      nodes := nodes[currentNode := Node(temp.key, temp.value, temp.context, nextNode.next)];
      CommitUnlink(a, cs, fs, b, j, cur);
      UnlinkedIsKept(cs[b], j);
      UnlinkedIsKept(cur[b], j);
    }

    /** The ghost side of one pass of erase's first loop. */
    ghost method CommitPopHead(a: Arena, c: seq<seq<int>>, f: seq<int>, b: int, cur: seq<seq<MultiMapTuple>>)
      requires isOpen && a.numBuckets > 0 && WellFormed(a, hash, c, f)
      requires forall i, j :: 0 <= i < |c| && 0 <= j < |c[i]| ==> c[i][j] in a.nodes
      requires cur == AllTuples(a.nodes, c)
      requires 0 <= b < |c| && c[b] != []
      requires View() == Arena(a.numBuckets, a.firstUnused, c[b][0],
                               a.words[BucketAddress(b) := a.nodes[c[b][0]].next],
                               a.nodes[c[b][0] := FreeNode(a.freedNodes)])
      requires free == f + [c[b][0]]
      modifies this
      ensures Ready() && View() == old(View()) && free == old(free)
      ensures chains == c[b := c[b][1..]]
      ensures Contents() == cur[b := cur[b][1..]]
    {
      PopHeadPreserves(a, hash, c, f, b, View());
      chains := c[b := c[b][1..]];
      AllSlotsPresent(View(), hash, chains, free);
      assert forall i :: 0 <= i < |c| ==> Contents()[i] == cur[b := cur[b][1..]][i];
    }

    /** The ghost side of an unlink in erase's second loop. */
    ghost method CommitUnlink(a: Arena, c: seq<seq<int>>, f: seq<int>, b: int, j: int, cur: seq<seq<MultiMapTuple>>)
      requires isOpen && a.numBuckets > 0 && WellFormed(a, hash, c, f)
      requires forall i, l :: 0 <= i < |c| && 0 <= l < |c[i]| ==> c[i][l] in a.nodes
      requires cur == AllTuples(a.nodes, c)
      requires 0 <= b < |c| && 0 <= j && j + 1 < |c[b]|
      requires View() == Arena(a.numBuckets, a.firstUnused, c[b][j + 1], a.words,
                               a.nodes[c[b][j + 1] := FreeNode(a.freedNodes)]
                                      [c[b][j] := a.nodes[c[b][j]].(next := a.nodes[c[b][j + 1]].next)])
      requires free == f + [c[b][j + 1]]
      modifies this
      ensures Ready() && View() == old(View()) && free == old(free)
      ensures chains == c[b := Unlinked(c[b], j)]
      ensures Contents() == cur[b := Unlinked(cur[b], j)]
    {
      UnlinkPreserves(a, hash, c, f, b, j, View());
      chains := c[b := Unlinked(c[b], j)];
      AllSlotsPresent(View(), hash, chains, free);
      assert forall i :: 0 <= i < |c| ==> Contents()[i] == cur[b := Unlinked(cur[b], j)][i];
    }
}
}
