/** The association graph (IntelWeb.cpp): every telemetry edge is kept
    twice, in a forward multimap from source to destination and in a
    reverse multimap from destination to source. Crawl searches outward
    from known-bad indicators through rare entities; purge erases every
    edge touching an entity. */
module AssociationGraph {
  import opened Tuples
  import opened Ordered
  import opened Chains
  import opened PersistentMultiMap

  /** `maxDataItems * 2` in unsigned 32-bit arithmetic: the bucket count
      each map is created with. */
  function BucketCount(maxDataItems: nat): (n: nat)
    requires maxDataItems < 0x1_0000_0000
    ensures n < 0x1_0000_0000
    ensures maxDataItems < 0x8000_0000 ==> n == 2 * maxDataItems
    ensures maxDataItems >= 0x8000_0000 ==> n + 0x1_0000_0000 == 2 * maxDataItems
  {
    (maxDataItems * 2) % 0x1_0000_0000
  }

  /** The same association seen from its other end. */
  function Mirror(t: MultiMapTuple): MultiMapTuple
  {
    MultiMapTuple(t.value, t.key, t.context)
  }

  /** Each association of `ts` seen from its other end, in order. */
  function Mirrors(ts: seq<MultiMapTuple>): seq<MultiMapTuple>
  {
    if ts == [] then [] else Mirrors(ts[..|ts| - 1]) + [Mirror(ts[|ts| - 1])]
  }

  lemma {:induction false} MirrorsAppend(ts: seq<MultiMapTuple>, us: seq<MultiMapTuple>)
    ensures Mirrors(ts + us) == Mirrors(ts) + Mirrors(us)
    decreases |us|
  {
    if us == [] {
      assert ts + us == ts;
    } else {
      assert (ts + us)[..|ts + us| - 1] == ts + us[..|us| - 1];
      MirrorsAppend(ts, us[..|us| - 1]);
    }
  }

  lemma {:induction false} MirrorsMember(ts: seq<MultiMapTuple>, t: MultiMapTuple)
    requires t in ts
    ensures Mirror(t) in Mirrors(ts)
    decreases |ts|
  {
    if ts[|ts| - 1] != t {
      assert ts == ts[..|ts| - 1] + [ts[|ts| - 1]];
      MirrorsMember(ts[..|ts| - 1], t);
    }
  }

  /** Mirroring keeps each association's number of copies. */
  lemma {:induction false} MirrorsCount(ts: seq<MultiMapTuple>, u: MultiMapTuple)
    ensures multiset(Mirrors(ts))[Mirror(u)] == multiset(ts)[u]
    decreases |ts|
  {
    if ts != [] {
      var init := ts[..|ts| - 1];
      assert ts == init + [ts[|ts| - 1]];
      MirrorsCount(init, u);
    }
  }

  /** The edge one telemetry line contributes: a line is its tokens,
      context, source and destination first; a line with fewer than three
      tokens, or whose fields are too long to store, contributes none. */
  function LineEdge(line: seq<string>): seq<MultiMapTuple>
  {
    if |line| < 3 then []
    else if Fits(MultiMapTuple(line[1], line[2], line[0])) then [MultiMapTuple(line[1], line[2], line[0])]
    else []
  }

  /** The edges a telemetry file stores, in file order. */
  function Edges(lines: seq<seq<string>>): seq<MultiMapTuple>
  {
    if lines == [] then []
    else Edges(lines[..|lines| - 1]) + LineEdge(lines[|lines| - 1])
  }

  /** An edge is stored exactly when some line of at least three tokens
      names it and its fields fit. */
  lemma {:induction false} EdgesOfLines(lines: seq<seq<string>>, t: MultiMapTuple)
    ensures t in Edges(lines) <==>
      exists i :: 0 <= i < |lines| && |lines[i]| >= 3 && t == MultiMapTuple(lines[i][1], lines[i][2], lines[i][0]) && Fits(t)
    decreases |lines|
  {
    if lines != [] {
      var init := lines[..|lines| - 1];
      EdgesOfLines(init, t);
      if t in Edges(lines) && t !in Edges(init) {
        var i := |lines| - 1;
        assert 0 <= i < |lines| && |lines[i]| >= 3 && t == MultiMapTuple(lines[i][1], lines[i][2], lines[i][0]) && Fits(t);
      }
      if exists i :: 0 <= i < |lines| && |lines[i]| >= 3 && t == MultiMapTuple(lines[i][1], lines[i][2], lines[i][0]) && Fits(t) {
        var i :| 0 <= i < |lines| && |lines[i]| >= 3 && t == MultiMapTuple(lines[i][1], lines[i][2], lines[i][0]) && Fits(t);
        if i < |lines| - 1 {
          assert init[i] == lines[i];
        }
      }
    }
  }

  /** Every stored edge is filed under its source and, mirrored, under
      its destination, so it can be found from both of its ends. */
  lemma EdgesBothWays(es: seq<MultiMapTuple>, t: MultiMapTuple)
    requires t in es
    ensures t in KeyFilter(es, t.key) && Mirror(t) in KeyFilter(Mirrors(es), t.value)
  {
    KeyFilterMember(es, t.key, t);
    MirrorsMember(es, t);
    KeyFilterMember(Mirrors(es), t.value, Mirror(t));
  }

  /** The edge of a line and its mirror, spelled out. */
  lemma LineMirror(line: seq<string>)
    ensures |line| < 3 ==> LineEdge(line) == [] && Mirrors(LineEdge(line)) == []
    ensures |line| >= 3 ==> (LineEdge(line) ==
      if Fits(MultiMapTuple(line[1], line[2], line[0])) then [MultiMapTuple(line[1], line[2], line[0])] else [])
    ensures |line| >= 3 ==> (Mirrors(LineEdge(line)) ==
      if Fits(MultiMapTuple(line[1], line[2], line[0])) then [MultiMapTuple(line[2], line[1], line[0])] else [])
  {
    if |line| >= 3 && Fits(MultiMapTuple(line[1], line[2], line[0])) {
      assert [MultiMapTuple(line[1], line[2], line[0])][..0] == [];
    }
  }

  /** Inserting no tuple or a single one. */
  lemma PlaceOneOrNone(s: Snapshot, l: seq<MultiMapTuple>)
    requires |l| <= 1
    ensures l == [] ==> PlaceAll(s, l) == s
    ensures |l| == 1 ==> PlaceAll(s, l).buckets == Place(s, l[0]).buckets
  {
    if |l| == 1 {
      assert l[..0] == [];
    }
  }

  // ----- Crawl as a transition system over the two maps' contents -----

  /** What crawl works from: both maps' contents, the indicators and the
      prevalence threshold. */
  datatype CrawlInput = CrawlInput(forward: Snapshot, reverse: Snapshot, indicators: seq<string>, threshold: nat)

  /** Crawl's working state: the bad and known-good sets, the queue, the
      interactions found, and (ghost bookkeeping) the entities expanded. */
  datatype CrawlState = CrawlState(bad: set<string>, good: set<string>, queue: seq<string>,
                                   done: set<string>, inter: set<InteractionTuple>)

  /** The far ends of the records in `ts`. */
  ghost function ValueSet(ts: seq<MultiMapTuple>): set<string>
  {
    set t | t in ts :: t.value
  }

  /** The entities associated with `e` in either direction. */
  ghost function Neighbours(g: CrawlInput, e: string): set<string>
  {
    ValueSet(Lookup(g.forward, e)) + ValueSet(Lookup(g.reverse, e))
  }

  ghost predicate HasRecords(g: CrawlInput, e: string)
  {
    Lookup(g.forward, e) != [] || Lookup(g.reverse, e) != []
  }

  /** isPrevalent's verdict: at least `threshold` records in both maps together. */
  ghost predicate Prevalent(g: CrawlInput, e: string)
  {
    |Lookup(g.forward, e)| + |Lookup(g.reverse, e)| >= g.threshold
  }

  /** The interaction a record stands for: a forward record (e, v, c) is
      the interaction from e to v, a reverse one from v to e. */
  function Interaction(t: MultiMapTuple, reversed: bool): InteractionTuple
  {
    if reversed then InteractionTuple(t.value, t.key, t.context) else InteractionTuple(t.key, t.value, t.context)
  }

  ghost function InteractionSet(ts: seq<MultiMapTuple>, reversed: bool): set<InteractionTuple>
  {
    set t | t in ts :: Interaction(t, reversed)
  }

  /** An interaction with an end in `s`: a forward record from an entity
      of `s`, or a reverse record to one. */
  ghost predicate Reported(g: CrawlInput, s: set<string>, i: InteractionTuple)
  {
    (i.from in s && MultiMapTuple(i.from, i.to, i.context) in Lookup(g.forward, i.from)) ||
    (i.to in s && MultiMapTuple(i.to, i.from, i.context) in Lookup(g.reverse, i.to))
  }

  /** What a visit appends to the queue: each value of `ts` not yet bad,
      once, in record order. */
  ghost function Pushed(ts: seq<MultiMapTuple>, bad: set<string>): seq<string>
  {
    if ts == [] then []
    else if ts[0].value in bad then Pushed(ts[1..], bad)
    else [ts[0].value] + Pushed(ts[1..], bad + {ts[0].value})
  }

  /** Every entity crawl can meet: the indicators and every stored value. */
  ghost function Universe(g: CrawlInput): set<string>
  {
    (set x | x in g.indicators) + AllValues(g.forward) + AllValues(g.reverse)
  }

  ghost function Rare(g: CrawlInput): set<string>
  {
    set x | x in Universe(g) && !Prevalent(g, x)
  }

  /** How many entries of `q` belong to `n`. */
  ghost function NCount(q: seq<string>, n: set<string>): nat
  {
    if q == [] then 0 else (if q[0] in n then 1 else 0) + NCount(q[1..], n)
  }

  /** The crawl's start: every indicator queued, in order. */
  ghost function Start(g: CrawlInput): CrawlState
  {
    CrawlState({}, {}, g.indicators, {}, {})
  }

  /** A dequeued entity that is known good or prevalent leaves the bad set
      and is not expanded. */
  ghost function Skip(s: CrawlState): CrawlState
    requires s.queue != []
  {
    var e := s.queue[0];
    CrawlState(s.bad - {e}, s.good + {e}, s.queue[1..], s.done, s.inter)
  }

  /** A dequeued rare entity is expanded: the far end of each of its
      forward and then reverse records becomes bad and, if it was not bad
      yet, is queued; each record's interaction is kept; the entity itself
      becomes bad if it has any record. */
  ghost function Expand(g: CrawlInput, s: CrawlState): CrawlState
    requires s.queue != []
  {
    var e := s.queue[0];
    var lf, lr := Lookup(g.forward, e), Lookup(g.reverse, e);
    var bad1 := s.bad + ValueSet(lf);
    var bad2 := bad1 + ValueSet(lr);
    CrawlState(if HasRecords(g, e) then bad2 + {e} else bad2, s.good,
               s.queue[1..] + Pushed(lf, s.bad) + Pushed(lr, bad1),
               s.done + {e}, s.inter + InteractionSet(lf, false) + InteractionSet(lr, true))
  }

  /** `x` is reached within `n` expansions: it is an indicator with
      records, or the far end of a record of a rare entity reached within
      `n - 1`. */
  ghost predicate ReachedIn(g: CrawlInput, x: string, n: nat)
    decreases n
  {
    (x in g.indicators && HasRecords(g, x)) ||
    (n > 0 && exists y :: ReachedIn(g, y, n - 1) && !Prevalent(g, y) && x in Neighbours(g, y))
  }

  /** `x` is reached from the indicators through rare entities. */
  ghost predicate Reached(g: CrawlInput, x: string)
  {
    exists n :: ReachedIn(g, x, n)
  }

  /** Known-good entities are prevalent. */
  ghost predicate GoodPrevalent(g: CrawlInput, s: CrawlState)
  {
    forall x :: x in s.good ==> Prevalent(g, x)
  }

  /** A bad entity that is prevalent, or not yet expanded, is still queued. */
  ghost predicate BadPending(g: CrawlInput, s: CrawlState)
  {
    forall x :: x in s.bad ==> (!Prevalent(g, x) || x in s.queue) && (x in s.done || x in s.queue)
  }

  /** Expanded entities are rare, bad when they have records, and each of
      their neighbours is bad or prevalent. */
  ghost predicate DoneClosed(g: CrawlInput, s: CrawlState)
  {
    (forall x, v :: x in s.done && v in Neighbours(g, x) ==> v in s.bad || Prevalent(g, v)) &&
    (forall x :: x in s.done ==> !Prevalent(g, x) && (HasRecords(g, x) ==> x in s.bad))
  }

  /** Bad entities are reached; queued ones are indicators or reached. */
  ghost predicate BadReached(g: CrawlInput, s: CrawlState)
  {
    (forall x :: x in s.bad ==> Reached(g, x)) &&
    (forall x :: x in s.queue ==> x in g.indicators || Reached(g, x))
  }

  /** Queued entities are indicators, bad or prevalent. */
  ghost predicate QueueKnown(g: CrawlInput, s: CrawlState)
  {
    forall x :: x in s.queue ==> x in Universe(g) && (x in g.indicators || x in s.bad || Prevalent(g, x))
  }

  /** Every rare indicator is queued or expanded. */
  ghost predicate IndicatorsCovered(g: CrawlInput, s: CrawlState)
  {
    forall x :: x in g.indicators ==> x in s.queue || x in s.done || Prevalent(g, x)
  }

  /** The interactions found are those with an end expanded. */
  ghost predicate InteractionsReported(g: CrawlInput, s: CrawlState)
  {
    forall i :: i in s.inter <==> Reported(g, s.done, i)
  }

  /** What holds between steps of the crawl. */
  ghost predicate CrawlInv(g: CrawlInput, s: CrawlState)
  {
    GoodPrevalent(g, s) && BadPending(g, s) && DoneClosed(g, s) && BadReached(g, s) &&
    QueueKnown(g, s) && IndicatorsCovered(g, s) && InteractionsReported(g, s)
  }

  lemma CrawlInvStart(g: CrawlInput)
    ensures CrawlInv(g, Start(g))
  {
  }

  /** Skipping a prevalent entity keeps the invariant and does not grow the
      number of queued rare entities. */
  lemma CrawlInvSkip(g: CrawlInput, s: CrawlState)
    requires CrawlInv(g, s) && s.queue != [] && Prevalent(g, s.queue[0])
    ensures CrawlInv(g, Skip(s))
    ensures NCount(Skip(s).queue, Rare(g)) == NCount(s.queue, Rare(g))
  {
    assert s.queue == [s.queue[0]] + Skip(s).queue;
  }

  lemma ValueSetCons(ts: seq<MultiMapTuple>, reversed: bool)
    requires ts != []
    ensures ValueSet(ts) == {ts[0].value} + ValueSet(ts[1..])
    ensures InteractionSet(ts, reversed) == {Interaction(ts[0], reversed)} + InteractionSet(ts[1..], reversed)
  {
    assert forall t :: t in ts <==> t == ts[0] || t in ts[1..] by {
      assert ts == [ts[0]] + ts[1..];
    }
  }

  /** A visit queues exactly the values not bad before it. */
  lemma {:induction false} PushedExactly(ts: seq<MultiMapTuple>, bad: set<string>)
    ensures forall v :: v in Pushed(ts, bad) <==> v in ValueSet(ts) && v !in bad
  {
    if ts != [] {
      ValueSetCons(ts, false);
      if ts[0].value in bad {
        PushedExactly(ts[1..], bad);
      } else {
        PushedExactly(ts[1..], bad + {ts[0].value});
      }
    }
  }

  lemma {:induction false} NCountAppend(p: seq<string>, q: seq<string>, n: set<string>)
    ensures NCount(p + q, n) == NCount(p, n) + NCount(q, n)
  {
    if p == [] {
      assert p + q == q;
    } else {
      assert (p + q)[1..] == p[1..] + q;
      NCountAppend(p[1..], q, n);
    }
  }

  lemma {:induction false} NCountNone(q: seq<string>, n: set<string>)
    requires forall v :: v in q ==> v !in n
    ensures NCount(q, n) == 0
  {
    if q != [] {
      NCountNone(q[1..], n);
    }
  }

  lemma NeighboursInUniverse(g: CrawlInput, e: string)
    ensures Neighbours(g, e) <= Universe(g)
  {
    forall v | v in Neighbours(g, e) ensures v in Universe(g) {
      if v in ValueSet(Lookup(g.forward, e)) {
        var t :| t in Lookup(g.forward, e) && t.value == v;
        LookupValue(g.forward, e, t);
      } else {
        var t :| t in Lookup(g.reverse, e) && t.value == v;
        LookupValue(g.reverse, e, t);
      }
    }
  }

  /** Expanding `e` reports exactly the interactions of `e`'s records. */
  lemma ReportedExtend(g: CrawlInput, done: set<string>, e: string, i: InteractionTuple)
    ensures Reported(g, done + {e}, i) <==>
      Reported(g, done, i) || i in InteractionSet(Lookup(g.forward, e), false) + InteractionSet(Lookup(g.reverse, e), true)
  {
    var tf, tr := MultiMapTuple(i.from, i.to, i.context), MultiMapTuple(i.to, i.from, i.context);
    assert Interaction(tf, false) == i && Interaction(tr, true) == i;
    if i in InteractionSet(Lookup(g.forward, e), false) {
      var t :| t in Lookup(g.forward, e) && Interaction(t, false) == i;
      assert t == tf;
    }
    if i in InteractionSet(Lookup(g.reverse, e), true) {
      var t :| t in Lookup(g.reverse, e) && Interaction(t, true) == i;
      assert t == tr;
    }
  }

  /** The queue and bad set after expanding `e`. */
  lemma ExpandMembers(g: CrawlInput, s: CrawlState)
    requires s.queue != []
    ensures forall x :: x in Expand(g, s).queue <==>
      x in s.queue[1..] || (x in Neighbours(g, s.queue[0]) && x !in s.bad)
    ensures Expand(g, s).bad ==
      s.bad + Neighbours(g, s.queue[0]) + (if HasRecords(g, s.queue[0]) then {s.queue[0]} else {})
    ensures Neighbours(g, s.queue[0]) != {} ==> HasRecords(g, s.queue[0])
  {
    var e := s.queue[0];
    var lf, lr := Lookup(g.forward, e), Lookup(g.reverse, e);
    PushedExactly(lf, s.bad);
    PushedExactly(lr, s.bad + ValueSet(lf));
  }

  lemma ExpandBadPending(g: CrawlInput, s: CrawlState)
    requires BadPending(g, s) && s.queue != [] && !Prevalent(g, s.queue[0])
    ensures BadPending(g, Expand(g, s))
  {
    ExpandMembers(g, s);
    assert s.queue == [s.queue[0]] + s.queue[1..];
  }

  lemma ExpandDoneClosed(g: CrawlInput, s: CrawlState)
    requires DoneClosed(g, s) && s.queue != [] && !Prevalent(g, s.queue[0])
    ensures DoneClosed(g, Expand(g, s))
  {
    ExpandMembers(g, s);
  }

  /** A neighbour of a rare entity that is reached, or an indicator, is
      reached one expansion later; so is the entity itself. */
  lemma NeighbourReached(g: CrawlInput, e: string, v: string)
    requires (e in g.indicators || Reached(g, e)) && !Prevalent(g, e) && v in Neighbours(g, e)
    ensures Reached(g, e) && Reached(g, v)
  {
    assert HasRecords(g, e) by {
      if v in ValueSet(Lookup(g.forward, e)) {
        var t :| t in Lookup(g.forward, e) && t.value == v;
      } else {
        var t :| t in Lookup(g.reverse, e) && t.value == v;
      }
    }
    var n: nat := 0;
    if e !in g.indicators {
      n :| ReachedIn(g, e, n);
    }
    assert ReachedIn(g, e, n);
    assert ReachedIn(g, v, n + 1);
  }

  lemma ExpandBadReached(g: CrawlInput, s: CrawlState)
    requires BadReached(g, s) && s.queue != [] && !Prevalent(g, s.queue[0])
    ensures BadReached(g, Expand(g, s))
  {
    var e, s' := s.queue[0], Expand(g, s);
    ExpandMembers(g, s);
    forall x | x in s'.bad ensures Reached(g, x) {
      if x in Neighbours(g, e) {
        NeighbourReached(g, e, x);
      } else if x == e && x !in s.bad {
        assert ReachedIn(g, e, 0) || Reached(g, e);
      }
    }
    forall x | x in s'.queue ensures x in g.indicators || Reached(g, x) {
      if x in Neighbours(g, e) {
        NeighbourReached(g, e, x);
      } else {
        assert x in s.queue;
      }
    }
  }

  lemma ExpandQueueKnown(g: CrawlInput, s: CrawlState)
    requires QueueKnown(g, s) && s.queue != []
    ensures QueueKnown(g, Expand(g, s))
  {
    ExpandMembers(g, s);
    NeighboursInUniverse(g, s.queue[0]);
    assert s.queue == [s.queue[0]] + s.queue[1..];
  }

  lemma ExpandIndicatorsCovered(g: CrawlInput, s: CrawlState)
    requires IndicatorsCovered(g, s) && s.queue != []
    ensures IndicatorsCovered(g, Expand(g, s))
  {
    ExpandMembers(g, s);
    assert s.queue == [s.queue[0]] + s.queue[1..];
  }

  lemma ExpandInteractionsReported(g: CrawlInput, s: CrawlState)
    requires InteractionsReported(g, s) && s.queue != []
    ensures InteractionsReported(g, Expand(g, s))
  {
    var s' := Expand(g, s);
    forall i ensures i in s'.inter <==> Reported(g, s'.done, i) {
      ReportedExtend(g, s.done, s.queue[0], i);
    }
  }

  /** Expanding a rare entity keeps the invariant, and either expands an
      entity for the first time or lowers the number of queued rare ones. */
  lemma CrawlInvExpand(g: CrawlInput, s: CrawlState)
    requires CrawlInv(g, s) && s.queue != [] && !Prevalent(g, s.queue[0])
    ensures CrawlInv(g, Expand(g, s))
    ensures s.queue[0] !in s.done ==> |Rare(g) - Expand(g, s).done| < |Rare(g) - s.done|
    ensures s.queue[0] in s.done ==>
      Expand(g, s).done == s.done && NCount(Expand(g, s).queue, Rare(g)) < NCount(s.queue, Rare(g))
  {
    ExpandBadPending(g, s);
    ExpandDoneClosed(g, s);
    ExpandBadReached(g, s);
    ExpandQueueKnown(g, s);
    ExpandIndicatorsCovered(g, s);
    ExpandInteractionsReported(g, s);
    if s.queue[0] in s.done {
      assert s.queue[0] in s.queue;
      ExpandAgain(g, s);
    } else {
      ExpandFirstTime(g, s);
    }
  }

  /** An entity expanded for the first time leaves the rare entities not
      yet expanded. */
  lemma ExpandFirstTime(g: CrawlInput, s: CrawlState)
    requires QueueKnown(g, s) && s.queue != [] && !Prevalent(g, s.queue[0]) && s.queue[0] !in s.done
    ensures |Rare(g) - Expand(g, s).done| < |Rare(g) - s.done|
  {
    var e := s.queue[0];
    assert e in Universe(g);
    assert Rare(g) - Expand(g, s).done == (Rare(g) - s.done) - {e};
    assert e in Rare(g) - s.done;
  }

  /** An entity expanded again queues only prevalent entities: all its
      neighbours are already bad or prevalent. */
  lemma ExpandAgainPushesPrevalent(g: CrawlInput, s: CrawlState, v: string)
    requires DoneClosed(g, s) && s.queue != [] && s.queue[0] in s.done
    requires v in Pushed(Lookup(g.forward, s.queue[0]), s.bad) ||
             v in Pushed(Lookup(g.reverse, s.queue[0]), s.bad + ValueSet(Lookup(g.forward, s.queue[0])))
    ensures Prevalent(g, v)
  {
    var e := s.queue[0];
    PushedExactly(Lookup(g.forward, e), s.bad);
    PushedExactly(Lookup(g.reverse, e), s.bad + ValueSet(Lookup(g.forward, e)));
    assert v in Neighbours(g, e) && v !in s.bad;
  }

  lemma PrevalentNotRare(g: CrawlInput, q: seq<string>)
    requires forall v :: v in q ==> Prevalent(g, v)
    ensures NCount(q, Rare(g)) == 0
  {
    NCountNone(q, Rare(g));
  }

  /** An entity expanded again lowers the number of queued rare entities. */
  lemma ExpandAgain(g: CrawlInput, s: CrawlState)
    requires DoneClosed(g, s) && s.queue != [] && !Prevalent(g, s.queue[0]) && s.queue[0] in s.done
    requires s.queue[0] in Universe(g)
    ensures NCount(Expand(g, s).queue, Rare(g)) < NCount(s.queue, Rare(g))
  {
    var e := s.queue[0];
    var lf, lr := Lookup(g.forward, e), Lookup(g.reverse, e);
    var tail := s.queue[1..];
    var pushed := Pushed(lf, s.bad) + Pushed(lr, s.bad + ValueSet(lf));
    assert s.queue == [e] + tail && Expand(g, s).queue == tail + pushed;
    forall v | v in pushed ensures Prevalent(g, v) {
      ExpandAgainPushesPrevalent(g, s, v);
    }
    PrevalentNotRare(g, pushed);
    NCountAppend([e], tail, Rare(g));
    NCountAppend(tail, pushed, Rare(g));
  }

  /** A set closed under rare neighbours that holds the rare indicators
      with records holds every rare entity reached. */
  lemma {:induction false} ReachedRareIsBad(g: CrawlInput, bad: set<string>, x: string, n: nat)
    requires forall y, v :: y in bad && v in Neighbours(g, y) ==> v in bad || Prevalent(g, v)
    requires forall y :: y in g.indicators && HasRecords(g, y) && !Prevalent(g, y) ==> y in bad
    requires ReachedIn(g, x, n) && !Prevalent(g, x)
    ensures x in bad
    decreases n
  {
    if !(x in g.indicators && HasRecords(g, x)) {
      var y :| ReachedIn(g, y, n - 1) && !Prevalent(g, y) && x in Neighbours(g, y);
      ReachedRareIsBad(g, bad, y, n - 1);
    }
  }

  /** When the queue runs dry, the bad set is exactly the rare entities
      reached from the indicators; it is closed under rare neighbours,
      holds every rare indicator with records, and the interactions found
      are exactly those with a bad end. */
  lemma CrawlEnd(g: CrawlInput, s: CrawlState)
    requires CrawlInv(g, s) && s.queue == []
    ensures forall x :: x in s.bad <==> Reached(g, x) && !Prevalent(g, x)
    ensures forall x, v :: x in s.bad && v in Neighbours(g, x) ==> v in s.bad || Prevalent(g, v)
    ensures forall x :: x in g.indicators && HasRecords(g, x) && !Prevalent(g, x) ==> x in s.bad
    ensures forall i :: i in s.inter <==> Reported(g, s.bad, i)
  {
    forall x | Reached(g, x) && !Prevalent(g, x) ensures x in s.bad {
      var n :| ReachedIn(g, x, n);
      ReachedRareIsBad(g, s.bad, x, n);
    }
    forall i ensures i in s.inter <==> Reported(g, s.bad, i) {
      if i.from in s.done && MultiMapTuple(i.from, i.to, i.context) in Lookup(g.forward, i.from) {
        assert HasRecords(g, i.from);
      }
      if i.to in s.done && MultiMapTuple(i.to, i.from, i.context) in Lookup(g.reverse, i.to) {
        assert HasRecords(g, i.to);
      }
    }
  }

  /** CrawlEnd, read through the outputs that list the bad set and the
      interactions. */
  lemma CrawlReport(g: CrawlInput, s: CrawlState, found: seq<string>, inter: seq<InteractionTuple>)
    requires CrawlInv(g, s) && s.queue == []
    requires forall x :: x in found <==> x in s.bad
    requires forall i :: i in inter <==> i in s.inter
    ensures forall x :: x in found <==> Reached(g, x) && !Prevalent(g, x)
    ensures forall x, v :: x in found && v in Neighbours(g, x) ==> v in found || Prevalent(g, v)
    ensures forall x :: (x in g.indicators && HasRecords(g, x) && !Prevalent(g, x)) ==> x in found
    ensures forall i :: i in inter <==> Reported(g, (set y | y in found), i)
  {
    CrawlEnd(g, s);
    assert (set y | y in found) == s.bad;
  }

  lemma HeadIsMember<T>(s: seq<T>)
    requires s != []
    ensures s[0] in s
  {
  }

  /** When no indicator has a record, nothing is reached. */
  lemma {:induction false} NothingReachedIn(g: CrawlInput, x: string, n: nat)
    requires forall y :: y in g.indicators ==> !HasRecords(g, y)
    ensures !ReachedIn(g, x, n)
    decreases n
  {
    if n > 0 {
      var m: nat := n - 1;
      forall y ensures !ReachedIn(g, y, m) {
        NothingReachedIn(g, y, m);
      }
    }
  }

  /** Indicators without any association give an empty list of bad
      entities and no interactions. */
  lemma SilentIndicatorsFindNothing(g: CrawlInput, found: seq<string>, inter: seq<InteractionTuple>)
    requires forall y :: y in g.indicators ==> !HasRecords(g, y)
    requires forall x :: x in found <==> Reached(g, x) && !Prevalent(g, x)
    requires forall i :: i in inter <==> Reported(g, (set y | y in found), i)
    ensures found == [] && inter == []
  {
    forall x, n: nat ensures !ReachedIn(g, x, n) {
      NothingReachedIn(g, x, n);
    }
    assert (set y | y in found) == {};
    if found != [] {
      HeadIsMember(found);
      assert false;
    }
    if inter != [] {
      HeadIsMember(inter);
      assert false;
    }
  }

  /** One of crawl's inner loops: walk the records of `it`, marking and
      queueing each far end not yet bad and keeping each interaction. */
  method Visit(it: Iterator, reversed: bool, bad: set<string>, queue: seq<string>,
               inter: set<InteractionTuple>, found: bool)
    returns (bad': set<string>, queue': seq<string>, inter': set<InteractionTuple>, found': bool)
    modifies it
    ensures bad' == bad + ValueSet(old(it.Remaining()))
    ensures queue' == queue + Pushed(old(it.Remaining()), bad)
    ensures inter' == inter + InteractionSet(old(it.Remaining()), reversed)
    ensures found' == (found || old(it.Remaining()) != [])
  {
    ghost var rs := it.Remaining();
    bad', queue', inter', found' := bad, queue, inter, found;
    while it.IsValid()
      invariant bad' + ValueSet(it.Remaining()) == bad + ValueSet(rs)
      invariant queue' + Pushed(it.Remaining(), bad') == queue + Pushed(rs, bad)
      invariant inter' + InteractionSet(it.Remaining(), reversed) == inter + InteractionSet(rs, reversed)
      invariant found' == (found || |it.Remaining()| < |rs|)
      invariant |it.Remaining()| <= |rs|
      decreases |it.Remaining()|
    {
      found' := true;
      var t := it.Deref();
      VisitStep(it.Remaining(), reversed, bad', queue', inter');
      if t.value !in bad' {
        bad' := bad' + {t.value};
        queue' := queue' + [t.value];
      }
      inter' := inter' + {Interaction(t, reversed)};
      it.Next();
    }
  }

  /** One record of a visit, on values. */
  lemma VisitStep(rem: seq<MultiMapTuple>, reversed: bool, bad: set<string>, queue: seq<string>,
                  inter: set<InteractionTuple>)
    requires rem != []
    ensures var v := rem[0].value;
      var bad1 := if v in bad then bad else bad + {v};
      var queue1 := if v in bad then queue else queue + [v];
      bad1 + ValueSet(rem[1..]) == bad + ValueSet(rem) &&
      queue1 + Pushed(rem[1..], bad1) == queue + Pushed(rem, bad) &&
      inter + {Interaction(rem[0], reversed)} + InteractionSet(rem[1..], reversed) == inter + InteractionSet(rem, reversed)
  {
    var v := rem[0].value;
    ValueSetCons(rem, reversed);
    if v !in bad {
      assert queue + Pushed(rem, bad) == (queue + [v]) + Pushed(rem[1..], bad + {v});
    }
  }

  // ----- Purge, on the counts of each tuple -----

  /** The two maps mirror each other: each association is held in `f` as
      often as its mirror is held in `r`. Ingest keeps this, and so does
      purge. */
  ghost predicate Mirrored(f: Snapshot, r: Snapshot)
  {
    forall u :: Multiplicity(f, u) == Multiplicity(r, Mirror(u))
  }

  lemma MirroredSymmetric(f: Snapshot, r: Snapshot)
    ensures Mirrored(f, r) <==> Mirrored(r, f)
  {
    forall u ensures Mirror(Mirror(u)) == u {}
    if Mirrored(f, r) {
      forall u ensures Multiplicity(r, u) == Multiplicity(f, Mirror(u)) {
        assert Multiplicity(f, Mirror(u)) == Multiplicity(r, Mirror(Mirror(u)));
      }
    }
    if Mirrored(r, f) {
      forall u ensures Multiplicity(f, u) == Multiplicity(r, Mirror(u)) {
        assert Multiplicity(r, Mirror(u)) == Multiplicity(f, Mirror(Mirror(u)));
      }
    }
  }
  /** In mirrored maps every neighbour has a record: the mirror of the
      record that names it is stored under it in the other map. So a rare
      indicator with no records is never reached there. */
  lemma MirroredNeighbourHasRecords(g: CrawlInput, e: string, v: string)
    requires Mirrored(g.forward, g.reverse) && v in Neighbours(g, e)
    ensures HasRecords(g, v)
  {
    if v in ValueSet(Lookup(g.forward, e)) {
      var t :| t in Lookup(g.forward, e) && t.value == v;
      HeldIffFound(g.forward, t);
      HeldIffFound(g.reverse, Mirror(t));
      assert Mirror(t) in Lookup(g.reverse, v);
    } else {
      var t :| t in Lookup(g.reverse, e) && t.value == v;
      MirroredSymmetric(g.forward, g.reverse);
      HeldIffFound(g.reverse, t);
      HeldIffFound(g.forward, Mirror(t));
      assert Mirror(t) in Lookup(g.forward, v);
    }
  }

  /** Without mirroring, an indicator with no records can still be reached
      as a neighbour, and so reported: forward holds (a, w, c), reverse is
      empty, and both a and w are indicators. */
  lemma UnmirroredRecordlessReached()
    ensures var g := CrawlInput(Snapshot([[MultiMapTuple("a", "w", "c")]], k => 0), Snapshot([[]], k => 0), ["a", "w"], 5);
      Reached(g, "w") && !HasRecords(g, "w") && !Prevalent(g, "w") && "w" in g.indicators
  {
    var t := MultiMapTuple("a", "w", "c");
    var g := CrawlInput(Snapshot([[t]], k => 0), Snapshot([[]], k => 0), ["a", "w"], 5);
    assert [t][..0] == [] && KeyFilter([], "a") == [];
    assert KeyFilter([t], "a") == KeyFilter([t][..0], "a") + [t];
    assert Lookup(g.forward, "a") == [t];
    assert "a" != "w";
    KeyFilterNone([t], "w");
    assert Lookup(g.forward, "w") == [];
    assert Lookup(g.reverse, "a") == [] && Lookup(g.reverse, "w") == [];
    assert ReachedIn(g, "a", 0);
    assert "w" in ValueSet(Lookup(g.forward, "a"));
    assert !Prevalent(g, "a") && "w" in Neighbours(g, "a");
    assert ReachedIn(g, "a", 0) && !Prevalent(g, "a") && "w" in Neighbours(g, "a");
    assert ReachedIn(g, "w", 1);
  }


  /** Inserting edges forward and their mirrors in reverse keeps the maps
      mirrored. */
  lemma IngestKeepsMirrored(f: Snapshot, r: Snapshot, es: seq<MultiMapTuple>)
    requires |f.buckets| > 0 && |r.buckets| > 0 && Mirrored(f, r)
    ensures Mirrored(PlaceAll(f, es), PlaceAll(r, Mirrors(es)))
  {
    forall u ensures Multiplicity(PlaceAll(f, es), u) == Multiplicity(PlaceAll(r, Mirrors(es)), Mirror(u)) {
      MultiplicityPlaceAll(f, es, u);
      MultiplicityPlaceAll(r, Mirrors(es), Mirror(u));
      MirrorsCount(es, u);
    }
  }

  /** In mirrored maps where search finds nothing under `e` in either,
      no stored association names `e` at either end. */
  lemma MirroredPurged(f: Snapshot, r: Snapshot, e: string)
    requires Mirrored(f, r) && Lookup(f, e) == [] && Lookup(r, e) == []
    ensures forall k, t :: t in Lookup(f, k) ==> t.key != e && t.value != e
    ensures forall k, t :: t in Lookup(r, k) ==> t.key != e && t.value != e
  {
    MirroredSymmetric(f, r);
    forall k, t | t in Lookup(f, k) ensures t.key != e && t.value != e {
      HeldIffFound(f, t);
      HeldIffFound(r, Mirror(t));
    }
    forall k, t | t in Lookup(r, k) ensures t.key != e && t.value != e {
      HeldIffFound(r, t);
      HeldIffFound(f, Mirror(t));
    }
  }

  /** No tuple has more copies in `s1` than in `s0`. */
  ghost predicate NoGrowth(s0: Snapshot, s1: Snapshot)
  {
    forall u {:trigger Multiplicity(s1, u)} :: Multiplicity(s1, u) <= Multiplicity(s0, u)
  }

  /** Only tuples under key `e` may differ. */
  ghost predicate SameOffKey(s0: Snapshot, s1: Snapshot, e: string)
  {
    forall u: MultiMapTuple {:trigger Multiplicity(s1, u)} :: u.key != e ==> Multiplicity(s1, u) == Multiplicity(s0, u)
  }

  /** Only tuples with value `e` may differ. */
  ghost predicate SameOffValue(s0: Snapshot, s1: Snapshot, e: string)
  {
    forall u: MultiMapTuple {:trigger Multiplicity(s1, u)} :: u.value != e ==> Multiplicity(s1, u) == Multiplicity(s0, u)
  }

  /** Only tuples naming `e` may differ. */
  ghost predicate Untouched(s0: Snapshot, s1: Snapshot, e: string)
  {
    forall u: MultiMapTuple :: u.key != e && u.value != e ==> Multiplicity(s1, u) == Multiplicity(s0, u)
  }

  /** One erase of `t`: at least one copy goes when there is one, and no
      other tuple changes. */
  ghost predicate ErasedOne(s0: Snapshot, s1: Snapshot, t: MultiMapTuple)
  {
    Multiplicity(s1, t) <= Multiplicity(s0, t) &&
    (Multiplicity(s0, t) > 0 ==> Multiplicity(s1, t) < Multiplicity(s0, t)) &&
    forall u {:trigger Multiplicity(s1, u)} :: u != t ==> Multiplicity(s1, u) == Multiplicity(s0, u)
  }

  /** One turn of a purge loop: erase the record `t` from `from` and its
      mirror from `to`. */
  method PurgeOne(t: MultiMapTuple, from: DiskMultiMap, to: DiskMultiMap)
    requires from != to && from.Ready() && to.Ready() && t.key != ""
    modifies from, to
    ensures from.Ready() && to.Ready()
    ensures from.numBuckets == old(from.numBuckets) && to.numBuckets == old(to.numBuckets)
    ensures ErasedOne(old(from.Snap()), from.Snap(), t)
    ensures ErasedOne(old(to.Snap()), to.Snap(), Mirror(t))
  {
    from.CountIsMultiplicity();
    to.CountIsMultiplicity();
    var removed := from.Erase(t.key, t.value, t.context);
    removed := to.Erase(t.value, t.key, t.context);
    from.CountIsMultiplicity();
    to.CountIsMultiplicity();
  }

  /** Where a purge loop over `from` stands: nothing has grown, only
      tuples under `e` in `from` and with value `e` in `to` have changed,
      and no tuple under `e` has more copies in `from` than the walk still
      has ahead of it. */
  ghost predicate PurgeProgress(f0: Snapshot, f: Snapshot, t0: Snapshot, t: Snapshot, rem: seq<MultiMapTuple>, e: string)
  {
    NoGrowth(f0, f) && SameOffKey(f0, f, e) && NoGrowth(t0, t) && SameOffValue(t0, t, e) &&
    (forall u: MultiMapTuple {:trigger Multiplicity(f, u)} :: u.key == e ==> Multiplicity(f, u) <= Occurrences(rem, u)) &&
    (forall u :: u in rem ==> u.key == e)
  }

  /** What one turn of a purge loop keeps. */
  lemma PurgeStep(f0: Snapshot, f: Snapshot, f1: Snapshot, t0: Snapshot, t: Snapshot, t1: Snapshot,
                  rem: seq<MultiMapTuple>, e: string)
    requires rem != [] && PurgeProgress(f0, f, t0, t, rem, e)
    requires ErasedOne(f, f1, rem[0]) && ErasedOne(t, t1, Mirror(rem[0]))
    ensures PurgeProgress(f0, f1, t0, t1, rem[1..], e)
  {
    assert rem[0] in rem;
    forall u | u in rem[1..] ensures u.key == e {
      assert u in rem;
    }
  }

  /** No mirror of a tuple under `e` has more copies in `t` than the walk
      `rem` still has ahead of it: what a purge loop keeps of `to` when the
      maps started mirrored. */
  ghost predicate MirrorBound(t: Snapshot, rem: seq<MultiMapTuple>, e: string)
  {
    forall u: MultiMapTuple {:trigger Multiplicity(t, Mirror(u))} :: u.key == e ==> Multiplicity(t, Mirror(u)) <= Occurrences(rem, u)
  }

  /** One turn of a purge loop lowers the bound on the mirrors in `to`
      along with the walk. */
  lemma MirrorBoundStep(t: Snapshot, t1: Snapshot, rem: seq<MultiMapTuple>, e: string)
    requires rem != [] && ErasedOne(t, t1, Mirror(rem[0]))
    requires MirrorBound(t, rem, e)
    ensures MirrorBound(t1, rem[1..], e)
  {
    forall u: MultiMapTuple | u.key == e ensures Multiplicity(t1, Mirror(u)) <= Occurrences(rem[1..], u) {
      assert Multiplicity(t, Mirror(u)) <= Occurrences(rem, u);
      if u != rem[0] {
        assert Mirror(u) != Mirror(rem[0]);
      }
    }
  }

  lemma PurgeStart(f0: Snapshot, t0: Snapshot, e: string)
    ensures PurgeProgress(f0, f0, t0, t0, Lookup(f0, e), e)
    ensures Mirrored(f0, t0) ==> MirrorBound(t0, Lookup(f0, e), e)
  {
  }

  lemma PurgeDone(f0: Snapshot, f: Snapshot, t0: Snapshot, t: Snapshot, e: string)
    requires PurgeProgress(f0, f, t0, t, [], e)
    ensures Lookup(f, e) == []
  {
    NoMultiplicityNoRecords(f, e);
  }

  /** A purge loop that started on mirrored maps leaves them mirrored:
      the tuples under `e` in `from` and their mirrors in `to` are all
      gone, and nothing else has changed. */
  lemma PurgeDoneMirrored(f0: Snapshot, f: Snapshot, t0: Snapshot, t: Snapshot, e: string)
    requires PurgeProgress(f0, f, t0, t, [], e) && Mirrored(f0, t0) && MirrorBound(t, [], e)
    ensures Mirrored(f, t)
  {
    forall u ensures Multiplicity(f, u) == Multiplicity(t, Mirror(u)) {
      if u.key != e {
        assert Mirror(u).value != e;
        assert Multiplicity(t, Mirror(u)) == Multiplicity(t0, Mirror(u));
      }
    }
  }

  /** One turn of a purge loop, on the iterator: erase its current record
      and the mirror, then advance. */
  method PurgeTurn(it: Iterator, from: DiskMultiMap, to: DiskMultiMap, ghost f0: Snapshot, ghost t0: Snapshot,
                   entity: string)
    requires from != to && from.Ready() && to.Ready() && entity != "" && it.Remaining() != []
    requires PurgeProgress(f0, from.Snap(), t0, to.Snap(), it.Remaining(), entity)
    requires Mirrored(f0, t0) ==> MirrorBound(to.Snap(), it.Remaining(), entity)
    modifies it, from, to
    ensures from.Ready() && to.Ready()
    ensures from.numBuckets == old(from.numBuckets) && to.numBuckets == old(to.numBuckets)
    ensures it.Remaining() == old(it.Remaining())[1..]
    ensures PurgeProgress(f0, from.Snap(), t0, to.Snap(), it.Remaining(), entity)
    ensures Mirrored(f0, t0) ==> MirrorBound(to.Snap(), it.Remaining(), entity)
  {
    var tuple := it.Deref();
    ghost var rem, f, t := it.Remaining(), from.Snap(), to.Snap();
    assert tuple in rem;
    PurgeOne(tuple, from, to);
    it.Next();
    PurgeStep(f0, f, from.Snap(), t0, t, to.Snap(), rem, entity);
    if Mirrored(f0, t0) {
      MirrorBoundStep(t, to.Snap(), rem, entity);
    }
  }

  /** One of purge's loops: walk a snapshot of `from`'s records under
      `entity`, erasing each and its mirror. Afterwards `from` holds no
      record under `entity`, no count has grown, and only tuples naming
      `entity` (as key in `from`, as value in `to`) can have lost copies. */
  method PurgeAll(it: Iterator, from: DiskMultiMap, to: DiskMultiMap, entity: string) returns (found: bool)
    requires from != to && from.Ready() && to.Ready() && entity != ""
    requires it.Remaining() == from.Records(entity)
    modifies it, from, to
    ensures from.Ready() && to.Ready()
    ensures from.numBuckets == old(from.numBuckets) && to.numBuckets == old(to.numBuckets)
    ensures found <==> old(from.Records(entity)) != []
    ensures !found ==> from.Snap() == old(from.Snap()) && to.Snap() == old(to.Snap())
    ensures from.Records(entity) == []
    ensures NoGrowth(old(from.Snap()), from.Snap()) && SameOffKey(old(from.Snap()), from.Snap(), entity)
    ensures NoGrowth(old(to.Snap()), to.Snap()) && SameOffValue(old(to.Snap()), to.Snap(), entity)
    ensures Mirrored(old(from.Snap()), old(to.Snap())) ==> Mirrored(from.Snap(), to.Snap())
  {
    found := false;
    ghost var rs := it.Remaining();
    ghost var f0, t0 := from.Snap(), to.Snap();
    PurgeStart(f0, t0, entity);
    assert rs == Lookup(f0, entity);
    while it.IsValid()
      invariant from.Ready() && to.Ready()
      invariant from.numBuckets == old(from.numBuckets) && to.numBuckets == old(to.numBuckets)
      invariant found <==> |it.Remaining()| < |rs|
      invariant !found ==> from.Snap() == f0 && to.Snap() == t0
      invariant |it.Remaining()| <= |rs|
      invariant PurgeProgress(f0, from.Snap(), t0, to.Snap(), it.Remaining(), entity)
      invariant Mirrored(f0, t0) ==> MirrorBound(to.Snap(), it.Remaining(), entity)
      decreases |it.Remaining()|
    {
      found := true;
      PurgeTurn(it, from, to, f0, t0, entity);
    }
    PurgeDone(f0, from.Snap(), t0, to.Snap(), entity);
    if Mirrored(f0, t0) {
      PurgeDoneMirrored(f0, from.Snap(), t0, to.Snap(), entity);
    }
  }

  /** Both purge loops together touch only tuples naming the entity. */
  lemma PurgeBoth(f0: Snapshot, f1: Snapshot, f2: Snapshot, r0: Snapshot, r1: Snapshot, r2: Snapshot, e: string)
    requires NoGrowth(f0, f1) && SameOffKey(f0, f1, e) && NoGrowth(r0, r1) && SameOffValue(r0, r1, e)
    requires NoGrowth(r1, r2) && SameOffKey(r1, r2, e) && NoGrowth(f1, f2) && SameOffValue(f1, f2, e)
    requires Lookup(f1, e) == []
    ensures NoGrowth(f0, f2) && NoGrowth(r0, r2) && Untouched(f0, f2, e) && Untouched(r0, r2, e)
    ensures Lookup(f2, e) == []
  {
    forall u: MultiMapTuple | u.key == e ensures Multiplicity(f2, u) == 0 {
      assert Multiplicity(f1, u) == 0;
    }
    NoMultiplicityNoRecords(f2, e);
  }

  class IntelWeb {
    /** m_sourceToDestination: key = source, value = destination. */
    const forward: DiskMultiMap
    /** m_destinationToSource: key = destination, value = source. */
    const reverse: DiskMultiMap

    ghost predicate Valid()
      reads this, forward, reverse
    {
      forward != reverse && forward.Valid() && reverse.Valid()
    }

    /** Both maps open with at least one bucket. */
    ghost predicate Ready()
      reads this, forward, reverse
    {
      Valid() && forward.Ready() && reverse.Ready()
    }

    constructor (hash: string -> nat)
      ensures Valid() && !forward.isOpen && !reverse.isOpen
    {
      forward := new DiskMultiMap(hash);
      reverse := new DiskMultiMap(hash);
    }

    /** createNew: create the forward map, then the reverse map, each with
        `BucketCount(maxDataItems)` buckets; `forwardCreated` and
        `reverseCreated` are whether each file could be created. When the
        second fails the first is closed again. */
    method CreateNew(maxDataItems: nat, forwardCreated: bool, reverseCreated: bool) returns (ok: bool)
      requires Valid() && maxDataItems < 0x1_0000_0000
      modifies forward, reverse
      ensures Valid()
      ensures ok <==> forwardCreated && reverseCreated
      ensures forward.isOpen == ok
      ensures !forwardCreated ==> unchanged(reverse)
      ensures forwardCreated && !reverseCreated ==> !reverse.isOpen
      ensures ok ==> reverse.isOpen && forward.numBuckets == reverse.numBuckets == BucketCount(maxDataItems)
      ensures ok && 0 < maxDataItems < 0x8000_0000 ==>
        Ready() && forall k :: forward.Records(k) == [] && reverse.Records(k) == []
    {
      var n := BucketCount(maxDataItems);
      var created := forward.CreateNew(n, forwardCreated);
      if !created {
        return false;
      }
      created := reverse.CreateNew(n, reverseCreated);
      if !created {
        forward.Close();
        return false;
      }
      return true;
    }

    /** openExisting: open the forward file, then the reverse file (None
        when a file cannot be opened); when the second fails the first is
        closed again. The ghost parameters describe each stored file. */
    method OpenExisting(forwardFile: Option<Store>, ghost forwardChains: seq<seq<int>>, ghost forwardFree: seq<int>,
                        reverseFile: Option<Store>, ghost reverseChains: seq<seq<int>>, ghost reverseFree: seq<int>)
      returns (ok: bool)
      requires Valid()
      requires forwardFile.Some? ==> StoreOk(forward.hash, forwardFile.value, forwardChains, forwardFree)
      requires reverseFile.Some? ==> StoreOk(reverse.hash, reverseFile.value, reverseChains, reverseFree)
      modifies forward, reverse
      ensures Valid()
      ensures ok <==> forwardFile.Some? && reverseFile.Some?
      ensures forward.isOpen == ok
      ensures forwardFile.None? ==> unchanged(reverse)
      ensures forwardFile.Some? && reverseFile.None? ==> !reverse.isOpen
      ensures ok ==> reverse.isOpen
      ensures ok ==> forward.words == forwardFile.value.words && forward.nodes == forwardFile.value.nodes
      ensures ok ==> reverse.words == reverseFile.value.words && reverse.nodes == reverseFile.value.nodes
    {
      var isOpen := forward.OpenExisting(forwardFile, forwardChains, forwardFree);
      if !isOpen {
        return false;
      }
      isOpen := reverse.OpenExisting(reverseFile, reverseChains, reverseFree);
      if !isOpen {
        forward.Close();
        return false;
      }
      return true;
    }

    /** close: close both maps, each writing its header if it was open. */
    method Close()
      requires Valid()
      modifies forward, reverse
      ensures Valid() && !forward.isOpen && !reverse.isOpen
      ensures forward.nodes == old(forward.nodes) && reverse.nodes == old(reverse.nodes)
      ensures old(forward.isOpen) ==> StoreOk(forward.hash, Store(forward.words, forward.nodes), forward.chains, forward.free)
      ensures old(reverse.isOpen) ==> StoreOk(reverse.hash, Store(reverse.words, reverse.nodes), reverse.chains, reverse.free)
    {
      forward.Close();
      reverse.Close();
    }

    /** ingest: `lines` is the telemetry file split into lines of tokens,
        or None when it cannot be opened. Each line of at least three
        tokens is inserted forward and, with its ends swapped, in reverse;
        shorter lines are skipped. */
    method Ingest(lines: Option<seq<seq<string>>>) returns (ok: bool)
      requires Ready()
      modifies forward, reverse
      ensures Ready()
      ensures forward.numBuckets == old(forward.numBuckets) && reverse.numBuckets == old(reverse.numBuckets)
      ensures ok == lines.Some?
      ensures !ok ==> forward.Contents() == old(forward.Contents()) && reverse.Contents() == old(reverse.Contents())
      ensures ok ==> forward.Contents() == PlaceAll(old(forward.Snap()), Edges(lines.value)).buckets
      ensures ok ==> reverse.Contents() == PlaceAll(old(reverse.Snap()), Mirrors(Edges(lines.value))).buckets
      ensures Mirrored(old(forward.Snap()), old(reverse.Snap())) ==> Mirrored(forward.Snap(), reverse.Snap())
    {
      if lines.None? {
        return false;
      }
      var ls := lines.value;
      ghost var f0, r0 := forward.Snap(), reverse.Snap();
      ghost var es: seq<MultiMapTuple> := [];
      ghost var ms: seq<MultiMapTuple> := [];
      var i := 0;
      while i < |ls|
        invariant 0 <= i <= |ls|
        invariant Ready()
        invariant forward.numBuckets == old(forward.numBuckets) && reverse.numBuckets == old(reverse.numBuckets)
        invariant forward.Contents() == PlaceAll(f0, es).buckets
        invariant reverse.Contents() == PlaceAll(r0, ms).buckets
        invariant es == Edges(ls[..i]) && ms == Mirrors(es)
      {
        ghost var l := LineEdge(ls[i]);
        IngestStep(ls, i);
        PlaceAllAppend(f0, es, l);
        PlaceAllAppend(r0, ms, Mirrors(l));
        InsertLine(ls[i]);
        es, ms := es + l, ms + Mirrors(l);
        i := i + 1;
      }
      assert ls[..i] == ls;
      if Mirrored(f0, r0) {
        IngestKeepsMirrored(f0, r0, es);
        assert forward.Snap() == PlaceAll(f0, es) && reverse.Snap() == PlaceAll(r0, ms);
      }
      ok := true;
    }

    /** The body of ingest's loop: a line of at least three tokens is
        inserted as (source, destination, context) forward and as
        (destination, source, context) in reverse. */
    method InsertLine(line: seq<string>)
      requires Ready()
      modifies forward, reverse
      ensures Ready()
      ensures forward.numBuckets == old(forward.numBuckets) && reverse.numBuckets == old(reverse.numBuckets)
      ensures forward.Contents() == PlaceAll(old(forward.Snap()), LineEdge(line)).buckets
      ensures reverse.Contents() == PlaceAll(old(reverse.Snap()), Mirrors(LineEdge(line))).buckets
    {
      LineMirror(line);
      PlaceOneOrNone(forward.Snap(), LineEdge(line));
      PlaceOneOrNone(reverse.Snap(), Mirrors(LineEdge(line)));
      if |line| >= 3 {
        var context, key, value := line[0], line[1], line[2];
        ghost var f0, r0 := forward.Snap(), reverse.Snap();
        var ok := forward.Insert(key, value, context);
        if ok {
          forward.ContentsPlaced(f0, MultiMapTuple(key, value, context));
        }
        assert reverse.Ready() && reverse.Snap() == r0;
        ok := reverse.Insert(value, key, context);
        if ok {
          reverse.ContentsPlaced(r0, MultiMapTuple(value, key, context));
        }
      }
    }

    /** One more line adds its edge, and its mirror, at the end. */
    lemma IngestStep(ls: seq<seq<string>>, i: int)
      requires 0 <= i < |ls|
      ensures Edges(ls[..i + 1]) == Edges(ls[..i]) + LineEdge(ls[i])
      ensures Mirrors(Edges(ls[..i + 1])) == Mirrors(Edges(ls[..i])) + Mirrors(LineEdge(ls[i]))
    {
      assert ls[..i + 1][..i] == ls[..i];
      MirrorsAppend(Edges(ls[..i]), LineEdge(ls[i]));
    }

    /** After a successful ingest every key's records are the ones it had,
        followed by the file's edges with that key: source keys forward,
        destination keys in reverse. */
    lemma IngestRecords(f0: Snapshot, r0: Snapshot, lines: seq<seq<string>>)
      requires Ready() && |f0.buckets| > 0 && |r0.buckets| > 0
      requires f0.hash == forward.hash && r0.hash == reverse.hash
      requires forward.Contents() == PlaceAll(f0, Edges(lines)).buckets
      requires reverse.Contents() == PlaceAll(r0, Mirrors(Edges(lines))).buckets
      ensures forall k :: forward.Records(k) == Lookup(f0, k) + KeyFilter(Edges(lines), k)
      ensures forall k :: reverse.Records(k) == Lookup(r0, k) + KeyFilter(Mirrors(Edges(lines)), k)
    {
      forward.RecordsOfPlaced(f0, Edges(lines));
      reverse.RecordsOfPlaced(r0, Mirrors(Edges(lines)));
    }

    /** purge: erase every record under `entity` in either map, with its
        mirror in the other map; true when there was at least one.
        Afterwards neither map holds a record under `entity`, no tuple has
        gained copies, and only tuples naming `entity` have lost any. */
    method Purge(entity: string) returns (atLeastOneRemoved: bool)
      requires Ready() && entity != ""
      modifies forward, reverse
      ensures Ready()
      ensures forward.numBuckets == old(forward.numBuckets) && reverse.numBuckets == old(reverse.numBuckets)
      ensures atLeastOneRemoved <==> old(forward.Records(entity)) != [] || old(reverse.Records(entity)) != []
      ensures forward.Records(entity) == [] && reverse.Records(entity) == []
      ensures NoGrowth(old(forward.Snap()), forward.Snap()) && NoGrowth(old(reverse.Snap()), reverse.Snap())
      ensures Untouched(old(forward.Snap()), forward.Snap(), entity) && Untouched(old(reverse.Snap()), reverse.Snap(), entity)
      ensures Mirrored(old(forward.Snap()), old(reverse.Snap())) ==>
        Mirrored(forward.Snap(), reverse.Snap()) &&
        (forall k, t :: t in forward.Records(k) ==> t.key != entity && t.value != entity) &&
        (forall k, t :: t in reverse.Records(k) ==> t.key != entity && t.value != entity)
    {
      ghost var f0, r0 := forward.Snap(), reverse.Snap();
      var sources := forward.Search(entity);
      var removedForward := PurgeAll(sources, forward, reverse, entity);
      ghost var f1, r1 := forward.Snap(), reverse.Snap();
      var destinations := reverse.Search(entity);
      var removedReverse := PurgeAll(destinations, reverse, forward, entity);
      PurgeBoth(f0, f1, forward.Snap(), r0, r1, reverse.Snap(), entity);
      if Mirrored(f0, r0) {
        MirroredSymmetric(f1, r1);
        MirroredSymmetric(forward.Snap(), reverse.Snap());
        MirroredPurged(forward.Snap(), reverse.Snap(), entity);
      }
      atLeastOneRemoved := removedForward || removedReverse;
    }

    /** The two maps' contents as crawl sees them. */
    ghost function Graph(indicators: seq<string>, threshold: nat): (g: CrawlInput)
      reads this, forward, reverse
      requires Ready()
      ensures g.indicators == indicators && g.threshold == threshold
      ensures forall k :: Lookup(g.forward, k) == forward.Records(k) && Lookup(g.reverse, k) == reverse.Records(k)
    {
      CrawlInput(forward.Snap(), reverse.Snap(), indicators, threshold)
    }

    /** One turn of crawl's main loop: dequeue an entity; if it is known
        good or prevalent, drop it from the bad set and remember it as good;
        otherwise visit its forward then its reverse records, and mark it
        bad if it has any. */
    method CrawlStep(ghost g: CrawlInput, minPrevalenceToBeGood: nat, bad: set<string>, good: set<string>, queue: seq<string>,
                     ghost done: set<string>, inter: set<InteractionTuple>)
      returns (bad': set<string>, good': set<string>, queue': seq<string>,
               ghost done': set<string>, inter': set<InteractionTuple>)
      requires Ready() && g == Graph(g.indicators, minPrevalenceToBeGood) && queue != []
      requires forall x :: x in good ==> Prevalent(g, x)
      ensures Prevalent(g, queue[0]) ==>
        CrawlState(bad', good', queue', done', inter') == Skip(CrawlState(bad, good, queue, done, inter))
      ensures !Prevalent(g, queue[0]) ==>
        CrawlState(bad', good', queue', done', inter') == Expand(g, CrawlState(bad, good, queue, done, inter))
    {
      var maliciousEntity := queue[0];
      queue' := queue[1..];
      bad', good', done', inter' := bad, good, done, inter;
      var prevalent := maliciousEntity in good;
      if !prevalent {
        prevalent := IsPrevalent(maliciousEntity, minPrevalenceToBeGood);
      }
      if prevalent {
        bad' := bad - {maliciousEntity};
        good' := good + {maliciousEntity};
        return;
      }
      var sources := forward.Search(maliciousEntity);
      var destinations := reverse.Search(maliciousEntity);
      var foundOneAssociation;
      bad', queue', inter', foundOneAssociation := Visit(sources, false, bad', queue', inter', false);
      bad', queue', inter', foundOneAssociation := Visit(destinations, true, bad', queue', inter', foundOneAssociation);
      if foundOneAssociation {
        bad' := bad' + {maliciousEntity};
      }
      done' := done + {maliciousEntity};
    }

    /** crawl: a breadth-first search from the indicators through the
        associations of rare entities. The entities found are exactly the
        rare entities reached from the indicators, so they are closed under
        association with rare entities; the interactions are those with a
        bad end. Both come out in ascending order. */
    method Crawl(indicators: seq<string>, minPrevalenceToBeGood: nat)
      returns (count: nat, badEntitiesFound: seq<string>, interactions: seq<InteractionTuple>)
      requires Ready()
      ensures count == |badEntitiesFound|
      ensures StrictlyAscending(badEntitiesFound, StringLess)
      ensures StrictlyAscending(interactions, InteractionLess)
      ensures forall x :: x in badEntitiesFound <==>
        Reached(Graph(indicators, minPrevalenceToBeGood), x) && !Prevalent(Graph(indicators, minPrevalenceToBeGood), x)
      ensures forall x, v :: x in badEntitiesFound && v in Neighbours(Graph(indicators, minPrevalenceToBeGood), x) ==>
        v in badEntitiesFound || Prevalent(Graph(indicators, minPrevalenceToBeGood), v)
      ensures forall x :: (x in indicators && HasRecords(Graph(indicators, minPrevalenceToBeGood), x) &&
                           !Prevalent(Graph(indicators, minPrevalenceToBeGood), x)) ==> x in badEntitiesFound
      ensures forall i :: i in interactions <==>
        Reported(Graph(indicators, minPrevalenceToBeGood), (set y | y in badEntitiesFound), i)
    {
      ghost var g := Graph(indicators, minPrevalenceToBeGood);
      var badEntitiesSet: set<string> := {};
      var interactionsSet: set<InteractionTuple> := {};
      var maliciousAssociationsQueue: seq<string> := [];
      var knownGoodEntities: set<string> := {};
      ghost var done: set<string> := {};
      for j := 0 to |indicators|
        invariant maliciousAssociationsQueue == indicators[..j]
      {
        maliciousAssociationsQueue := maliciousAssociationsQueue + [indicators[j]];
      }
      CrawlInvStart(g);
      while maliciousAssociationsQueue != []
        invariant CrawlInv(g, CrawlState(badEntitiesSet, knownGoodEntities, maliciousAssociationsQueue, done, interactionsSet))
        decreases |Rare(g) - done|, NCount(maliciousAssociationsQueue, Rare(g)), |maliciousAssociationsQueue|
      {
        ghost var s := CrawlState(badEntitiesSet, knownGoodEntities, maliciousAssociationsQueue, done, interactionsSet);
        if Prevalent(g, maliciousAssociationsQueue[0]) {
          CrawlInvSkip(g, s);
        } else {
          CrawlInvExpand(g, s);
        }
        badEntitiesSet, knownGoodEntities, maliciousAssociationsQueue, done, interactionsSet :=
          CrawlStep(g, minPrevalenceToBeGood, badEntitiesSet, knownGoodEntities, maliciousAssociationsQueue, done, interactionsSet);
      }
      StringLessIsStrictTotal();
      badEntitiesFound := Ascending(badEntitiesSet, StringLess);
      InteractionLessIsStrictTotal();
      interactions := Ascending(interactionsSet, InteractionLess);
      count := |badEntitiesFound|;
      CrawlReport(g, CrawlState(badEntitiesSet, knownGoodEntities, [], done, interactionsSet), badEntitiesFound, interactions);
    }

    /** isPrevalent: count the forward and the reverse records of the
        entity; prevalent when there are at least `threshold`. */
    method IsPrevalent(entity: string, threshold: nat) returns (r: bool)
      requires Ready()
      ensures r <==> |forward.Records(entity)| + |reverse.Records(entity)| >= threshold
    {
      ghost var total := |forward.Records(entity)| + |reverse.Records(entity)|;
      var numOccurrences := 0;
      var sources := forward.Search(entity);
      var destinations := reverse.Search(entity);
      ghost var rest := |destinations.Remaining()|;
      while sources.IsValid()
        invariant numOccurrences + |sources.Remaining()| + rest == total
        invariant |destinations.Remaining()| == rest
        decreases |sources.Remaining()|
      {
        numOccurrences := numOccurrences + 1;
        sources.Next();
      }
      while destinations.IsValid()
        invariant numOccurrences + |destinations.Remaining()| == total
        decreases |destinations.Remaining()|
      {
        numOccurrences := numOccurrences + 1;
        destinations.Next();
      }
      r := numOccurrences >= threshold;
    }
  }
}
