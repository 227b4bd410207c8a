/** The three ways insert and erase rewrite the file, each shown to keep
    the file invariant and to change the chains' records as intended. */
module ArenaSteps {
  import opened Layout
  import opened Tuples
  import opened Chains

  /** The slot insert writes to: the free-list head if there is one
      (generateOpenOffset), else the growth pointer. */
  function NewSlot(a: Arena, free: seq<int>): int
  {
    if free == [] then a.firstUnused else free[|free| - 1]
  }

  /** The free list after generateOpenOffset pops its head. */
  function Popped(free: seq<int>): seq<int>
  {
    if free == [] then [] else free[..|free| - 1]
  }

  /** The file after insert appends `t` to bucket `b`, whose chain is `c`:
      the table entry (if the chain was empty) or the old last record links
      to the allocated slot, which receives the record. */
  function Appended(a: Arena, free: seq<int>, c: seq<int>, b: int, t: MultiMapTuple): Arena
    requires c != [] ==> c[|c| - 1] in a.nodes
  {
    var o := NewSlot(a, free);
    Arena(a.numBuckets,
          if free == [] then a.firstUnused + NodeSize else a.firstUnused,
          TopOf(Popped(free)),
          if c == [] then a.words[BucketAddress(b) := o] else a.words,
          (if c == [] then a.nodes else a.nodes[c[|c| - 1] := a.nodes[c[|c| - 1]].(next := o)])
            [o := Node(t.key, t.value, t.context, NoOffset)])
  }

  /** `c` with the slot at index `j + 1` unlinked. */
  function Unlinked<A>(c: seq<A>, j: int): seq<A>
    requires 0 <= j && j + 1 < |c|
  {
    c[..j + 1] + c[j + 2..]
  }

  /** Unlinking after index `j` is erase's removal of its first later
      match when that match is at `j + 1`; with no match nothing goes. */
  lemma UnlinkedIsKept<A>(c: seq<A>, j: int)
    requires 0 <= j && j + 1 < |c|
    ensures Unlinked(c, j) == Kept(c, 0, j + 1) && Freed(c, 0, j + 1) == [c[j + 1]]
  {
  }

  lemma KeptNothing<A>(c: seq<A>)
    ensures Kept(c, 0, -1) == c && Freed(c, 0, -1) == []
  {
  }

  /** generateOpenOffset's test and read: m_freedNodes is -1 exactly when
      the free list is empty, and otherwise its record links to the next. */
  lemma PopFree(a: Arena, free: seq<int>)
    requires FreeOk(a, free)
    ensures a.freedNodes == NoOffset <==> free == []
    ensures free != [] ==> a.freedNodes in a.nodes && a.nodes[a.freedNodes].next == TopOf(Popped(free))
  {
    if free != [] {
      assert Allocated(a, free[|free| - 1]);
      if |free| > 1 {
        assert Popped(free)[|free| - 2] == free[|free| - 2];
      }
    }
  }

  // ----- Ownership of slots -----

  lemma Owned(chains: seq<seq<int>>, free: seq<int>, i: int, s: int)
    requires Separate(chains, free) && 0 <= i < |chains| && s in chains[i]
    ensures s !in free
    ensures forall i' :: 0 <= i' < |chains| && s in chains[i'] ==> i' == i
  {
  }

  lemma Distinct(c: seq<int>, j: int, j': int)
    requires NoDup(c) && 0 <= j < |c| && 0 <= j' < |c| && j != j'
    ensures c[j] != c[j']
  {
    if j > j' {
      assert c[j'] != c[j];
    }
  }

  /** The slot insert allocates belongs to no chain and is a slot below the
      new growth pointer. */
  lemma NewSlotFresh(a: Arena, hash: string -> nat, chains: seq<seq<int>>, free: seq<int>)
    requires Linked(a, hash, chains, free)
    ensures forall i :: 0 <= i < |chains| ==> NewSlot(a, free) !in chains[i]
    ensures IsSlot(a.numBuckets, NewSlot(a, free))
    ensures NewSlot(a, free) < if free == [] then a.firstUnused + NodeSize else a.firstUnused
    ensures IsSlot(a.numBuckets, a.firstUnused + NodeSize)
  {
    var o := NewSlot(a, free);
    NextSlot(a.numBuckets, a.firstUnused);
    forall i | 0 <= i < |chains| ensures o !in chains[i] {
      if free == [] {
        assert ChainOk(a, hash, i, chains[i]);
        assert forall j :: 0 <= j < |chains[i]| ==> chains[i][j] != o;
      } else {
        assert o in free;
      }
    }
    if free != [] {
      assert Allocated(a, free[|free| - 1]);
    }
  }

  // ----- Chains -----

  /** A chain whose records are untouched stays well linked, with the same records. */
  lemma ChainUnchanged(a: Arena, a': Arena, hash: string -> nat, i: int, c: seq<int>)
    requires ChainOk(a, hash, i, c)
    requires a'.numBuckets == a.numBuckets && a'.firstUnused >= a.firstUnused
    requires forall j :: 0 <= j < |c| ==> c[j] in a'.nodes && a'.nodes[c[j]] == a.nodes[c[j]]
    ensures ChainOk(a', hash, i, c)
    ensures TuplesAt(a'.nodes, c) == TuplesAt(a.nodes, c)
  {
  }

  /** insert's new record becomes the chain's last; the old last links to it. */
  lemma ChainAppend(a: Arena, a': Arena, hash: string -> nat, b: int, c: seq<int>, o: int, t: MultiMapTuple)
    requires ChainOk(a, hash, b, c) && o !in c
    requires a'.numBuckets == a.numBuckets && a'.firstUnused >= a.firstUnused
    requires forall s :: s in a.nodes ==> s in a'.nodes
    requires Allocated(a', o) && a'.nodes[o] == Node(t.key, t.value, t.context, NoOffset)
    requires hash(t.key) % a.numBuckets == b && Fits(t)
    requires forall j :: 0 <= j < |c| - 1 ==> a'.nodes[c[j]] == a.nodes[c[j]]
    requires c != [] ==> a'.nodes[c[|c| - 1]] == a.nodes[c[|c| - 1]].(next := o)
    ensures ChainOk(a', hash, b, c + [o])
    ensures TuplesAt(a'.nodes, c + [o]) == TuplesAt(a.nodes, c) + [t]
  {
    var c' := c + [o];
    forall j | 0 <= j < |c'|
      ensures Allocated(a', c'[j]) && a'.nodes[c'[j]].next == NextIn(c', j)
      ensures hash(a'.nodes[c'[j]].key) % a'.numBuckets == b && Fits(TupleOf(a'.nodes[c'[j]]))
      ensures TupleOf(a'.nodes[c'[j]]) == (TuplesAt(a.nodes, c) + [t])[j]
    {
      if j < |c| {
        assert c'[j] == c[j];
      }
    }
  }

  /** erase's first loop, one step: the chain loses its head. */
  lemma ChainDropHead(a: Arena, a': Arena, hash: string -> nat, b: int, c: seq<int>)
    requires ChainOk(a, hash, b, c) && c != []
    requires a'.numBuckets == a.numBuckets && a'.firstUnused >= a.firstUnused
    requires forall j :: 1 <= j < |c| ==> c[j] in a'.nodes && a'.nodes[c[j]] == a.nodes[c[j]]
    ensures ChainOk(a', hash, b, c[1..])
    ensures TuplesAt(a'.nodes, c[1..]) == TuplesAt(a.nodes, c)[1..]
  {
    forall j | 0 <= j < |c| - 1
      ensures Allocated(a', c[1..][j]) && a'.nodes[c[1..][j]].next == NextIn(c[1..], j)
      ensures hash(a'.nodes[c[1..][j]].key) % a'.numBuckets == b && Fits(TupleOf(a'.nodes[c[1..][j]]))
      ensures TupleOf(a'.nodes[c[1..][j]]) == TuplesAt(a.nodes, c)[1..][j]
    {
      DroppedAt(a, a', hash, b, c, j);
    }
  }

  /** One record of a chain that lost its head. */
  lemma DroppedAt(a: Arena, a': Arena, hash: string -> nat, b: int, c: seq<int>, j: int)
    requires ChainOk(a, hash, b, c) && 0 <= j < |c| - 1
    requires a'.numBuckets == a.numBuckets && a'.firstUnused >= a.firstUnused
    requires forall j :: 1 <= j < |c| ==> c[j] in a'.nodes && a'.nodes[c[j]] == a.nodes[c[j]]
    ensures Allocated(a', c[1..][j]) && a'.nodes[c[1..][j]].next == NextIn(c[1..], j)
    ensures hash(a'.nodes[c[1..][j]].key) % a'.numBuckets == b && Fits(TupleOf(a'.nodes[c[1..][j]]))
    ensures TupleOf(a'.nodes[c[1..][j]]) == TuplesAt(a.nodes, c)[1..][j]
  {
    assert c[1..][j] == c[j + 1];
    assert TuplesAt(a.nodes, c)[1..][j] == TuplesAt(a.nodes, c)[j + 1];
    assert Allocated(a, c[j + 1]) && a.nodes[c[j + 1]].next == NextIn(c, j + 1);
    assert hash(a.nodes[c[j + 1]].key) % a.numBuckets == b && Fits(TupleOf(a.nodes[c[j + 1]]));
  }

  /** erase's second loop, a match: the record after index `j` is skipped. */
  lemma ChainUnlink(a: Arena, a': Arena, hash: string -> nat, b: int, c: seq<int>, j: int)
    requires ChainOk(a, hash, b, c) && 0 <= j && j + 1 < |c|
    requires a'.numBuckets == a.numBuckets && a'.firstUnused >= a.firstUnused
    requires forall k :: 0 <= k < |c| && k != j && k != j + 1 ==> c[k] in a'.nodes && a'.nodes[c[k]] == a.nodes[c[k]]
    requires c[j] in a'.nodes && a'.nodes[c[j]] == a.nodes[c[j]].(next := a.nodes[c[j + 1]].next)
    ensures ChainOk(a', hash, b, Unlinked(c, j))
    ensures TuplesAt(a'.nodes, Unlinked(c, j)) == Unlinked(TuplesAt(a.nodes, c), j)
  {
    var c' := Unlinked(c, j);
    var ts' := Unlinked(TuplesAt(a.nodes, c), j);
    forall k | 0 <= k < |c'|
      ensures Allocated(a', c'[k]) && a'.nodes[c'[k]].next == NextIn(c', k)
      ensures hash(a'.nodes[c'[k]].key) % a'.numBuckets == b && Fits(TupleOf(a'.nodes[c'[k]]))
      ensures TupleOf(a'.nodes[c'[k]]) == ts'[k]
    {
      UnlinkedAt(a, a', hash, b, c, j, k);
    }
  }

  /** One slot of an unlinked chain: the slot it was before, with the
      `next` it must now have. */
  lemma UnlinkedAt(a: Arena, a': Arena, hash: string -> nat, b: int, c: seq<int>, j: int, k: int)
    requires ChainOk(a, hash, b, c) && 0 <= j && j + 1 < |c| && 0 <= k < |c| - 1
    requires a'.numBuckets == a.numBuckets && a'.firstUnused >= a.firstUnused
    requires forall k :: 0 <= k < |c| && k != j && k != j + 1 ==> c[k] in a'.nodes && a'.nodes[c[k]] == a.nodes[c[k]]
    requires c[j] in a'.nodes && a'.nodes[c[j]] == a.nodes[c[j]].(next := a.nodes[c[j + 1]].next)
    ensures Allocated(a', Unlinked(c, j)[k]) && a'.nodes[Unlinked(c, j)[k]].next == NextIn(Unlinked(c, j), k)
    ensures hash(a'.nodes[Unlinked(c, j)[k]].key) % a'.numBuckets == b && Fits(TupleOf(a'.nodes[Unlinked(c, j)[k]]))
    ensures TupleOf(a'.nodes[Unlinked(c, j)[k]]) == Unlinked(TuplesAt(a.nodes, c), j)[k]
  {
    UnlinkedIndex(c, j, k);
    UnlinkedIndex(TuplesAt(a.nodes, c), j, k);
    if k + 1 < |c| - 1 {
      UnlinkedIndex(c, j, k + 1);
    }
  }

  /** Where the `k`-th element of an unlinked sequence comes from. */
  lemma UnlinkedIndex<A>(c: seq<A>, j: int, k: int)
    requires 0 <= j && j + 1 < |c| && 0 <= k < |c| - 1
    ensures |Unlinked(c, j)| == |c| - 1
    ensures Unlinked(c, j)[k] == c[if k <= j then k else k + 1]
  {
  }

  // ----- Free list -----

  /** Dropping the head of the free list keeps the rest linked. */
  lemma FreePrefix(a: Arena, a': Arena, f: seq<int>, k: int)
    requires FreeLinked(a, f) && 0 <= k <= |f|
    requires a'.numBuckets == a.numBuckets && a'.firstUnused >= a.firstUnused
    requires forall j :: 0 <= j < k ==> f[j] in a'.nodes && a'.nodes[f[j]] == a.nodes[f[j]]
    ensures FreeLinked(a', f[..k])
  {
    forall j | 0 <= j < k
      ensures Allocated(a', f[..k][j]) && a'.nodes[f[..k][j]] == FreeNode(BelowIn(f[..k], j))
    {
      assert f[..k][j] == f[j];
    }
  }

  /** addToUnusedNodes: a slot holding a dummy linked to the old head is the new head. */
  lemma FreePush(a: Arena, a': Arena, f: seq<int>, h: int)
    requires FreeLinked(a, f)
    requires a'.numBuckets == a.numBuckets && a'.firstUnused >= a.firstUnused
    requires forall j :: 0 <= j < |f| ==> f[j] in a'.nodes && a'.nodes[f[j]] == a.nodes[f[j]]
    requires Allocated(a', h) && a'.nodes[h] == FreeNode(TopOf(f))
    ensures FreeLinked(a', f + [h])
  {
    var f' := f + [h];
    forall j | 0 <= j < |f'|
      ensures Allocated(a', f'[j]) && a'.nodes[f'[j]] == FreeNode(BelowIn(f', j))
    {
      if j < |f| {
        assert f'[j] == f[j];
      }
    }
  }

  // ----- Separation -----

  lemma SeparateAppend(chains: seq<seq<int>>, free: seq<int>, b: int, o: int)
    requires Separate(chains, free) && 0 <= b < |chains|
    requires free != [] ==> o == free[|free| - 1]
    requires forall i :: 0 <= i < |chains| ==> o !in chains[i]
    ensures Separate(chains[b := chains[b] + [o]], Popped(free))
  {
    var chains' := chains[b := chains[b] + [o]];
    var f' := Popped(free);
    assert forall s :: s in f' ==> s in free;
    assert o !in f' by {
      if free != [] {
        forall j | 0 <= j < |f'| ensures f'[j] != o {
          Distinct(free, j, |free| - 1);
        }
      }
    }
    forall i | 0 <= i < |chains'| ensures NoDup(chains'[i]) {
      if i == b {
        assert NoDup(chains[b]);
        assert o !in chains[b];
      }
    }
    forall i, i', s | 0 <= i < |chains'| && 0 <= i' < |chains'| && s in chains'[i] && s in chains'[i']
      ensures i == i'
    {
      if s != o {
        assert s in chains[i] && s in chains[i'];
      }
    }
    forall i, s | 0 <= i < |chains'| && s in chains'[i]
      ensures s !in f'
    {
      if s != o {
        assert s in chains[i];
      }
    }
  }

  /** A slot leaves chain `b` (which keeps only slots it had) and joins the free list. */
  lemma SeparateMove(chains: seq<seq<int>>, free: seq<int>, b: int, c': seq<int>, s: int)
    requires Separate(chains, free) && 0 <= b < |chains|
    requires NoDup(c') && s in chains[b] && s !in c'
    requires forall x :: x in c' ==> x in chains[b]
    ensures Separate(chains[b := c'], free + [s])
  {
    var chains' := chains[b := c'];
    Owned(chains, free, b, s);
    forall i, i', x | 0 <= i < |chains'| && 0 <= i' < |chains'| && x in chains'[i] && x in chains'[i']
      ensures i == i'
    {
      assert x in chains[i] && x in chains[i'];
    }
    forall i, x | 0 <= i < |chains'| && x in chains'[i]
      ensures x !in free + [s]
    {
      assert x in chains[i];
    }
    assert NoDup(free + [s]) by {
      forall j, j' | 0 <= j < j' < |free| + 1 ensures (free + [s])[j] != (free + [s])[j'] {
        assert (free + [s])[j] == free[j];
      }
    }
  }

  lemma DropHeadNoDup(c: seq<int>)
    requires NoDup(c) && c != []
    ensures NoDup(c[1..]) && c[0] !in c[1..]
    ensures forall x :: x in c[1..] ==> x in c
    ensures forall x :: x in c ==> x == c[0] || x in c[1..]
  {
    assert c == [c[0]] + c[1..];
    forall k | 0 <= k < |c| - 1 ensures c[1..][k] != c[0] {
      Distinct(c, k + 1, 0);
    }
  }

  lemma UnlinkedNoDup(c: seq<int>, j: int)
    requires NoDup(c) && 0 <= j && j + 1 < |c|
    ensures NoDup(Unlinked(c, j)) && c[j + 1] !in Unlinked(c, j)
    ensures forall x :: x in Unlinked(c, j) ==> x in c
    ensures forall x :: x in c ==> x == c[j + 1] || x in Unlinked(c, j)
  {
    var c' := Unlinked(c, j);
    assert c == c[..j + 1] + [c[j + 1]] + c[j + 2..];
    assert forall k :: 0 <= k < |c'| ==> c'[k] == c[if k <= j then k else k + 1];
    forall k, k' | 0 <= k < k' < |c'| ensures c'[k] != c'[k'] {
      Distinct(c, if k <= j then k else k + 1, if k' <= j then k' else k' + 1);
    }
    forall k | 0 <= k < |c'| ensures c'[k] != c[j + 1] {
      Distinct(c, if k <= j then k else k + 1, j + 1);
    }
  }

  // ----- No leaked slot -----

  /** insert's allocation: the popped free-list head, or the slot at the old
      growth pointer, joins chain `b`, so no slot below the new growth
      pointer is left on neither a chain nor the free list. */
  lemma AppendAccounted(a: Arena, chains: seq<seq<int>>, free: seq<int>, b: int, t: MultiMapTuple, a': Arena)
    requires Accounted(a, chains, free) && IsSlot(a.numBuckets, a.firstUnused) && 0 <= b < |chains|
    requires chains[b] != [] ==> chains[b][|chains[b]| - 1] in a.nodes
    requires a' == Appended(a, free, chains[b], b, t)
    ensures Accounted(a', chains[b := chains[b] + [NewSlot(a, free)]], Popped(free))
  {
    var o := NewSlot(a, free);
    var chains' := chains[b := chains[b] + [o]];
    assert o in chains'[b];
    forall s | IsSlot(a'.numBuckets, s) && s < a'.firstUnused ensures Tracked(chains', Popped(free), s) {
      if s < a.firstUnused {
        assert Tracked(chains, free, s);
        if s in free {
          var k :| 0 <= k < |free| && free[k] == s;
          if k < |free| - 1 {
            assert Popped(free)[k] == s;
          }
        } else {
          var i :| 0 <= i < |chains| && s in chains[i];
          assert s in chains'[i];
        }
      } else {
        if a.firstUnused < s {
          SlotsDisjoint(a.numBuckets, a.firstUnused, s);
        }
      }
    }
  }

  /** erase's unlinks: slot `s` leaves chain `b` for the free list and the
      chain keeps its other slots, so every slot stays accounted for. */
  lemma MoveAccounted(a: Arena, a': Arena, chains: seq<seq<int>>, free: seq<int>, b: int, c': seq<int>, s: int)
    requires Accounted(a, chains, free) && 0 <= b < |chains|
    requires a'.numBuckets == a.numBuckets && a'.firstUnused == a.firstUnused
    requires forall x :: x in chains[b] ==> x == s || x in c'
    ensures Accounted(a', chains[b := c'], free + [s])
  {
    var chains' := chains[b := c'];
    forall o | IsSlot(a'.numBuckets, o) && o < a'.firstUnused ensures Tracked(chains', free + [s], o) {
      assert Tracked(chains, free, o);
      if o !in free && o != s {
        var i :| 0 <= i < |chains| && o in chains[i];
        assert o in chains'[i];
      }
    }
  }

  // ----- The three steps -----

  /** insert: the new record goes to the allocated slot and becomes the
      last of bucket `b`'s chain; the free list loses its head or the
      growth pointer advances by one record. */
  lemma AppendPreserves(a: Arena, hash: string -> nat, chains: seq<seq<int>>, free: seq<int>,
                        b: int, t: MultiMapTuple, a': Arena)
    requires WellFormed(a, hash, chains, free)
    requires 0 <= b < |chains| && Fits(t) && hash(t.key) % a.numBuckets == b
    requires chains[b] != [] ==> chains[b][|chains[b]| - 1] in a.nodes
    requires a' == Appended(a, free, chains[b], b, t)
    ensures WellFormed(a', hash, chains[b := chains[b] + [NewSlot(a, free)]], Popped(free))
    ensures forall i :: 0 <= i < |chains| ==>
      TuplesAt(a'.nodes, chains[b := chains[b] + [NewSlot(a, free)]][i]) ==
        if i == b then TuplesAt(a.nodes, chains[b]) + [t] else TuplesAt(a.nodes, chains[i])
  {
    var o := NewSlot(a, free);
    var chains' := chains[b := chains[b] + [o]];
    NewSlotFresh(a, hash, chains, free);
    AppendHeads(a, hash, chains, free, b, t, a');
    forall i | 0 <= i < |chains'|
      ensures ChainOk(a', hash, i, chains'[i])
      ensures TuplesAt(a'.nodes, chains'[i]) == if i == b then TuplesAt(a.nodes, chains[b]) + [t] else TuplesAt(a.nodes, chains[i])
    {
      AppendKeepsChain(a, hash, chains, free, b, t, a', i);
    }
    AppendFree(a, hash, chains, free, b, t, a');
    SeparateAppend(chains, free, b, o);
    AppendAccounted(a, chains, free, b, t, a');
  }

  /** AppendPreserves, the table: only an empty bucket's entry changes, to the new slot. */
  lemma AppendHeads(a: Arena, hash: string -> nat, chains: seq<seq<int>>, free: seq<int>,
                    b: int, t: MultiMapTuple, a': Arena)
    requires Linked(a, hash, chains, free)
    requires 0 <= b < |chains| && Fits(t) && hash(t.key) % a.numBuckets == b
    requires chains[b] != [] ==> chains[b][|chains[b]| - 1] in a.nodes
    requires a' == Appended(a, free, chains[b], b, t)
    ensures forall i :: 0 <= i < |chains| ==>
      BucketAddress(i) in a'.words && a'.words[BucketAddress(i)] == HeadOf(chains[b := chains[b] + [NewSlot(a, free)]][i])
  {
    assert HeadOf(chains[b] + [NewSlot(a, free)]) == if chains[b] == [] then NewSlot(a, free) else chains[b][0];
  }

  /** AppendPreserves, one chain. */
  lemma AppendKeepsChain(a: Arena, hash: string -> nat, chains: seq<seq<int>>, free: seq<int>,
                         b: int, t: MultiMapTuple, a': Arena, i: int)
    requires Linked(a, hash, chains, free)
    requires 0 <= b < |chains| && Fits(t) && hash(t.key) % a.numBuckets == b
    requires chains[b] != [] ==> chains[b][|chains[b]| - 1] in a.nodes
    requires a' == Appended(a, free, chains[b], b, t)
    requires 0 <= i < |chains|
    ensures ChainOk(a', hash, i, chains[b := chains[b] + [NewSlot(a, free)]][i])
    ensures TuplesAt(a'.nodes, chains[b := chains[b] + [NewSlot(a, free)]][i]) ==
      if i == b then TuplesAt(a.nodes, chains[b]) + [t] else TuplesAt(a.nodes, chains[i])
  {
    var o := NewSlot(a, free);
    var c := chains[b];
    NewSlotFresh(a, hash, chains, free);
    assert ChainOk(a, hash, b, c);
    assert ChainOk(a, hash, i, chains[i]);
    assert NoDup(c);
    if i == b {
      forall j | 0 <= j < |c| - 1 ensures a'.nodes[c[j]] == a.nodes[c[j]] {
        Distinct(c, j, |c| - 1);
      }
      ChainAppend(a, a', hash, b, c, o, t);
    } else {
      forall j | 0 <= j < |chains[i]| ensures chains[i][j] in a'.nodes && a'.nodes[chains[i][j]] == a.nodes[chains[i][j]] {
        assert chains[i][j] in chains[i];
        if c != [] {
          assert c[|c| - 1] in c;
          Owned(chains, free, b, c[|c| - 1]);
        }
      }
      ChainUnchanged(a, a', hash, i, chains[i]);
    }
  }

  /** AppendPreserves, the free list: it loses its head, if it had one. */
  lemma AppendFree(a: Arena, hash: string -> nat, chains: seq<seq<int>>, free: seq<int>,
                   b: int, t: MultiMapTuple, a': Arena)
    requires Linked(a, hash, chains, free)
    requires 0 <= b < |chains| && Fits(t) && hash(t.key) % a.numBuckets == b
    requires chains[b] != [] ==> chains[b][|chains[b]| - 1] in a.nodes
    requires a' == Appended(a, free, chains[b], b, t)
    ensures FreeOk(a', Popped(free))
  {
    var c := chains[b];
    assert ChainOk(a, hash, b, c);
    if free != [] {
      forall j | 0 <= j < |free| - 1 ensures free[j] in a'.nodes && a'.nodes[free[j]] == a.nodes[free[j]] {
        Distinct(free, j, |free| - 1);
        if c != [] {
          assert c[|c| - 1] in c;
          Owned(chains, free, b, c[|c| - 1]);
        }
      }
      FreePrefix(a, a', free, |free| - 1);
    }
  }

  /** erase's first loop, one step: the head record is freed and the
      table entry takes its successor. */
  lemma PopHeadPreserves(a: Arena, hash: string -> nat, chains: seq<seq<int>>, free: seq<int>,
                         b: int, a': Arena)
    requires WellFormed(a, hash, chains, free)
    requires 0 <= b < |chains| && chains[b] != []
    requires a' == Arena(a.numBuckets, a.firstUnused, chains[b][0],
                         a.words[BucketAddress(b) := a.nodes[chains[b][0]].next],
                         a.nodes[chains[b][0] := FreeNode(a.freedNodes)])
    ensures WellFormed(a', hash, chains[b := chains[b][1..]], free + [chains[b][0]])
    ensures forall i :: 0 <= i < |chains| ==>
      TuplesAt(a'.nodes, chains[b := chains[b][1..]][i]) ==
        if i == b then TuplesAt(a.nodes, chains[b])[1..] else TuplesAt(a.nodes, chains[i])
  {
    var c := chains[b];
    var h := c[0];
    var chains' := chains[b := c[1..]];
    assert ChainOk(a, hash, b, c);
    forall i | 0 <= i < |chains'|
      ensures ChainOk(a', hash, i, chains'[i])
      ensures TuplesAt(a'.nodes, chains'[i]) == if i == b then TuplesAt(a.nodes, c)[1..] else TuplesAt(a.nodes, chains[i])
    {
      PopHeadKeepsChain(a, hash, chains, free, b, a', i);
    }
    PopHeadHeads(a, hash, chains, free, b, a');
    PopHeadFree(a, hash, chains, free, b, a');
    DropHeadNoDup(c);
    SeparateMove(chains, free, b, c[1..], h);
    MoveAccounted(a, a', chains, free, b, c[1..], h);
  }

  /** PopHeadPreserves, one chain. */
  lemma PopHeadKeepsChain(a: Arena, hash: string -> nat, chains: seq<seq<int>>, free: seq<int>,
                          b: int, a': Arena, i: int)
    requires Linked(a, hash, chains, free)
    requires 0 <= b < |chains| && chains[b] != [] && 0 <= i < |chains|
    requires a' == Arena(a.numBuckets, a.firstUnused, chains[b][0],
                         a.words[BucketAddress(b) := a.nodes[chains[b][0]].next],
                         a.nodes[chains[b][0] := FreeNode(a.freedNodes)])
    ensures ChainOk(a', hash, i, chains[b := chains[b][1..]][i])
    ensures TuplesAt(a'.nodes, chains[b := chains[b][1..]][i]) ==
      if i == b then TuplesAt(a.nodes, chains[b])[1..] else TuplesAt(a.nodes, chains[i])
  {
    var c := chains[b];
    assert ChainOk(a, hash, b, c);
    assert ChainOk(a, hash, i, chains[i]);
    assert c[0] in c;
    Owned(chains, free, b, c[0]);
    if i == b {
      assert NoDup(c);
      forall j | 1 <= j < |c| ensures a'.nodes[c[j]] == a.nodes[c[j]] {
        Distinct(c, j, 0);
      }
      ChainDropHead(a, a', hash, b, c);
    } else {
      forall j | 0 <= j < |chains[i]| ensures a'.nodes[chains[i][j]] == a.nodes[chains[i][j]] {
        assert chains[i][j] in chains[i];
      }
      ChainUnchanged(a, a', hash, i, chains[i]);
    }
  }

  /** PopHeadPreserves, the table: bucket `b`'s entry takes the old head's successor. */
  lemma PopHeadHeads(a: Arena, hash: string -> nat, chains: seq<seq<int>>, free: seq<int>,
                     b: int, a': Arena)
    requires Linked(a, hash, chains, free)
    requires 0 <= b < |chains| && chains[b] != []
    requires a' == Arena(a.numBuckets, a.firstUnused, chains[b][0],
                         a.words[BucketAddress(b) := a.nodes[chains[b][0]].next],
                         a.nodes[chains[b][0] := FreeNode(a.freedNodes)])
    ensures forall i :: 0 <= i < |chains| ==>
      BucketAddress(i) in a'.words && a'.words[BucketAddress(i)] == HeadOf(chains[b := chains[b][1..]][i])
  {
    assert ChainOk(a, hash, b, chains[b]);
    assert a.nodes[chains[b][0]].next == NextIn(chains[b], 0);
  }

  /** PopHeadPreserves, the free list: the freed head is pushed on it. */
  lemma PopHeadFree(a: Arena, hash: string -> nat, chains: seq<seq<int>>, free: seq<int>,
                    b: int, a': Arena)
    requires Linked(a, hash, chains, free)
    requires 0 <= b < |chains| && chains[b] != []
    requires a' == Arena(a.numBuckets, a.firstUnused, chains[b][0],
                         a.words[BucketAddress(b) := a.nodes[chains[b][0]].next],
                         a.nodes[chains[b][0] := FreeNode(a.freedNodes)])
    ensures FreeOk(a', free + [chains[b][0]])
  {
    var c := chains[b];
    var h := c[0];
    assert ChainOk(a, hash, b, c);
    assert h in c;
    Owned(chains, free, b, h);
    forall j | 0 <= j < |free| ensures a'.nodes[free[j]] == a.nodes[free[j]] {
      assert free[j] in free;
    }
    FreePush(a, a', free, h);
  }

  /** One chain after UnlinkPreserves's step. */
  lemma UnlinkKeepsChain(a: Arena, hash: string -> nat, chains: seq<seq<int>>, free: seq<int>,
                         b: int, j: int, a': Arena, i: int)
    requires Linked(a, hash, chains, free)
    requires 0 <= b < |chains| && 0 <= j && j + 1 < |chains[b]| && 0 <= i < |chains|
    requires a' == Arena(a.numBuckets, a.firstUnused, chains[b][j + 1], a.words,
                         a.nodes[chains[b][j + 1] := FreeNode(a.freedNodes)]
                                [chains[b][j] := a.nodes[chains[b][j]].(next := a.nodes[chains[b][j + 1]].next)])
    ensures ChainOk(a', hash, i, chains[b := Unlinked(chains[b], j)][i])
    ensures TuplesAt(a'.nodes, chains[b := Unlinked(chains[b], j)][i]) ==
      if i == b then Unlinked(TuplesAt(a.nodes, chains[b]), j) else TuplesAt(a.nodes, chains[i])
  {
    var c := chains[b];
    assert ChainOk(a, hash, b, c);
    assert ChainOk(a, hash, i, chains[i]);
    assert NoDup(c);
    if i == b {
      forall k | 0 <= k < |c| && k != j && k != j + 1 ensures a'.nodes[c[k]] == a.nodes[c[k]] {
        Distinct(c, k, j);
        Distinct(c, k, j + 1);
      }
      ChainUnlink(a, a', hash, b, c, j);
    } else {
      assert c[j] in c && c[j + 1] in c;
      Owned(chains, free, b, c[j]);
      Owned(chains, free, b, c[j + 1]);
      forall k | 0 <= k < |chains[i]| ensures a'.nodes[chains[i][k]] == a.nodes[chains[i][k]] {
        assert chains[i][k] in chains[i];
      }
      ChainUnchanged(a, a', hash, i, chains[i]);
    }
  }

  /** erase's second loop, a match: the record after `chains[b][j]` is
      freed and its predecessor is relinked to its successor. */
  lemma UnlinkPreserves(a: Arena, hash: string -> nat, chains: seq<seq<int>>, free: seq<int>,
                        b: int, j: int, a': Arena)
    requires WellFormed(a, hash, chains, free)
    requires 0 <= b < |chains| && 0 <= j && j + 1 < |chains[b]|
    requires a' == Arena(a.numBuckets, a.firstUnused, chains[b][j + 1], a.words,
                         a.nodes[chains[b][j + 1] := FreeNode(a.freedNodes)]
                                [chains[b][j] := a.nodes[chains[b][j]].(next := a.nodes[chains[b][j + 1]].next)])
    ensures WellFormed(a', hash, chains[b := Unlinked(chains[b], j)], free + [chains[b][j + 1]])
    ensures forall i :: 0 <= i < |chains| ==>
      TuplesAt(a'.nodes, chains[b := Unlinked(chains[b], j)][i]) ==
        if i == b then Unlinked(TuplesAt(a.nodes, chains[b]), j) else TuplesAt(a.nodes, chains[i])
  {
    var c := chains[b];
    var chains' := chains[b := Unlinked(c, j)];
    UnlinkHeads(a, hash, chains, free, b, j, a');
    forall i | 0 <= i < |chains'|
      ensures ChainOk(a', hash, i, chains'[i])
      ensures TuplesAt(a'.nodes, chains'[i]) == if i == b then Unlinked(TuplesAt(a.nodes, c), j) else TuplesAt(a.nodes, chains[i])
    {
      UnlinkKeepsChain(a, hash, chains, free, b, j, a', i);
    }
    UnlinkFree(a, hash, chains, free, b, j, a');
    assert NoDup(c);
    UnlinkedNoDup(c, j);
    SeparateMove(chains, free, b, Unlinked(c, j), c[j + 1]);
    MoveAccounted(a, a', chains, free, b, Unlinked(c, j), c[j + 1]);
  }

  /** UnlinkPreserves, the table: no table entry changes. */
  lemma UnlinkHeads(a: Arena, hash: string -> nat, chains: seq<seq<int>>, free: seq<int>,
                    b: int, j: int, a': Arena)
    requires Linked(a, hash, chains, free)
    requires 0 <= b < |chains| && 0 <= j && j + 1 < |chains[b]|
    requires a' == Arena(a.numBuckets, a.firstUnused, chains[b][j + 1], a.words,
                         a.nodes[chains[b][j + 1] := FreeNode(a.freedNodes)]
                                [chains[b][j] := a.nodes[chains[b][j]].(next := a.nodes[chains[b][j + 1]].next)])
    ensures forall i :: 0 <= i < |chains| ==>
      BucketAddress(i) in a'.words && a'.words[BucketAddress(i)] == HeadOf(chains[b := Unlinked(chains[b], j)][i])
  {
    assert Unlinked(chains[b], j)[0] == chains[b][0];
  }

  /** UnlinkPreserves, the free list: the unlinked slot is pushed on it. */
  lemma UnlinkFree(a: Arena, hash: string -> nat, chains: seq<seq<int>>, free: seq<int>,
                   b: int, j: int, a': Arena)
    requires Linked(a, hash, chains, free)
    requires 0 <= b < |chains| && 0 <= j && j + 1 < |chains[b]|
    requires a' == Arena(a.numBuckets, a.firstUnused, chains[b][j + 1], a.words,
                         a.nodes[chains[b][j + 1] := FreeNode(a.freedNodes)]
                                [chains[b][j] := a.nodes[chains[b][j]].(next := a.nodes[chains[b][j + 1]].next)])
    ensures FreeOk(a', free + [chains[b][j + 1]])
  {
    var c := chains[b];
    var u, d := c[j], c[j + 1];
    assert ChainOk(a, hash, b, c);
    assert u in c && d in c;
    Owned(chains, free, b, u);
    Owned(chains, free, b, d);
    Distinct(c, j, j + 1);
    assert Allocated(a, d);
    forall k | 0 <= k < |free| ensures free[k] in a'.nodes && a'.nodes[free[k]] == a.nodes[free[k]] {
      assert free[k] in free;
    }
    FreePush(a, a', free, d);
  }
}
