/** A worked crawl combining two pieces of the commented-out test code: the
    three edges DiskMultiMap.cpp inserts (a.exe to b.exe, b.exe to c.exe,
    a.exe to g.exe) and the crawl call of IntelWeb.cpp, with its two
    indicators (a.exe and a website that appears in no edge) and its
    prevalence threshold of 10. */
module CrawlExample {
  import opened Ordered
  import opened Tuples
  import opened Chains
  import opened PersistentMultiMap
  import opened AssociationGraph

  const A: string := "a.exe"
  const B: string := "b.exe"
  const C: string := "c.exe"
  const G: string := "g.exe"
  const W: string := "www.rare-malicious-website.com"

  const Telemetry: seq<MultiMapTuple> :=
    [MultiMapTuple(A, B, "comp1"), MultiMapTuple(B, C, "comp2"), MultiMapTuple(A, G, "comp3")]

  /** Both maps with a single bucket, after ingesting the three edges. */
  function ExampleGraph(): CrawlInput
  {
    CrawlInput(Snapshot([Telemetry], k => 0), Snapshot([Mirrors(Telemetry)], k => 0), [A, W], 10)
  }

  lemma MirroredTelemetry()
    ensures Mirrors(Telemetry) ==
      [MultiMapTuple(B, A, "comp1"), MultiMapTuple(C, B, "comp2"), MultiMapTuple(G, A, "comp3")]
  {
    var t0, t1, t2 := Telemetry[0], Telemetry[1], Telemetry[2];
    assert Mirrors([t0]) == [Mirror(t0)] by {
      assert [t0][..0] == [];
    }
    assert Mirrors([t0, t1]) == [Mirror(t0), Mirror(t1)] by {
      assert [t0, t1][..1] == [t0];
    }
    assert Telemetry[..2] == [t0, t1];
  }

  lemma ExampleLookup(k: string)
    ensures Lookup(ExampleGraph().forward, k) == KeyFilter(Telemetry, k)
    ensures Lookup(ExampleGraph().reverse, k) == KeyFilter(Mirrors(Telemetry), k)
  {
  }

  /** The records of an entity are the telemetry edges from it, forward,
      and their mirrors, in reverse. */
  lemma ExampleMembers(k: string)
    ensures forall t :: t in Lookup(ExampleGraph().forward, k) <==> t in Telemetry && t.key == k
    ensures forall t :: t in Lookup(ExampleGraph().reverse, k) <==> t in Mirrors(Telemetry) && t.key == k
  {
    ExampleLookup(k);
    forall t ensures t in KeyFilter(Telemetry, k) <==> t in Telemetry && t.key == k {
      KeyFilterMember(Telemetry, k, t);
    }
    forall t ensures t in KeyFilter(Mirrors(Telemetry), k) <==> t in Mirrors(Telemetry) && t.key == k {
      KeyFilterMember(Mirrors(Telemetry), k, t);
    }
  }

  /** Every entity's neighbours are among the four. */
  lemma ExampleNeighbours(k: string)
    ensures Neighbours(ExampleGraph(), k) <= {A, B, C, G}
  {
    var g := ExampleGraph();
    ExampleMembers(k);
    MirroredTelemetry();
    forall v | v in Neighbours(g, k) ensures v in {A, B, C, G} {
      if v in ValueSet(Lookup(g.forward, k)) {
        var t :| t in Lookup(g.forward, k) && t.value == v;
        assert t in Telemetry;
      } else {
        var t :| t in Lookup(g.reverse, k) && t.value == v;
        assert t in Mirrors(Telemetry);
      }
    }
  }

  /** No entity has more than six records, so none reaches 10. */
  lemma ExampleRare(k: string)
    ensures !Prevalent(ExampleGraph(), k)
  {
    ExampleLookup(k);
    MirroredTelemetry();
    KeyFilterLength(Telemetry, k);
    KeyFilterLength(Mirrors(Telemetry), k);
  }

  /** The website indicator appears in no edge. */
  lemma SilentWebsite()
    ensures !HasRecords(ExampleGraph(), W)
  {
    ExampleLookup(W);
    MirroredTelemetry();
    KeyFilterNone(Telemetry, W);
    KeyFilterNone(Mirrors(Telemetry), W);
  }

  lemma {:induction false} ReachedAmongFour(x: string, n: nat)
    requires ReachedIn(ExampleGraph(), x, n)
    ensures x in {A, B, C, G}
    decreases n
  {
    var g := ExampleGraph();
    if x in g.indicators && HasRecords(g, x) {
      assert x == A || x == W;
      SilentWebsite();
    } else {
      var y :| ReachedIn(g, y, n - 1) && !Prevalent(g, y) && x in Neighbours(g, y);
      ExampleNeighbours(y);
    }
  }

  /** a.exe is an indicator with records; b.exe and g.exe are its
      neighbours, and c.exe is b.exe's. */
  lemma ExampleReached()
    ensures ReachedIn(ExampleGraph(), A, 0) && ReachedIn(ExampleGraph(), B, 1)
    ensures ReachedIn(ExampleGraph(), G, 1) && ReachedIn(ExampleGraph(), C, 2)
  {
    var g := ExampleGraph();
    ExampleMembers(A);
    ExampleMembers(B);
    ExampleRare(A);
    ExampleRare(B);
    assert Telemetry[0] in Lookup(g.forward, A) && Telemetry[2] in Lookup(g.forward, A);
    assert Telemetry[1] in Lookup(g.forward, B);
    assert ReachedIn(g, A, 0);
    assert ReachedIn(g, B, 1);
  }

  /** With all four bad, an interaction is reported exactly when it is a
      telemetry edge. */
  lemma ExampleReported(i: InteractionTuple)
    ensures Reported(ExampleGraph(), {A, B, C, G}, i) <==> MultiMapTuple(i.from, i.to, i.context) in Telemetry
  {
    ExampleMembers(i.from);
    ExampleMembers(i.to);
    MirroredTelemetry();
  }

  /** A sequence holding four given strings and nothing else has them as its set. */
  lemma SetOfFour(found: seq<string>, a: string, b: string, c: string, d: string)
    requires a in found && b in found && c in found && d in found
    requires forall x :: x in found ==> x in {a, b, c, d}
    ensures (set x | x in found) == {a, b, c, d}
  {
  }

  /** Each of the four is reached and rare. */
  lemma FourReached()
    ensures Reached(ExampleGraph(), A) && !Prevalent(ExampleGraph(), A)
    ensures Reached(ExampleGraph(), B) && !Prevalent(ExampleGraph(), B)
    ensures Reached(ExampleGraph(), C) && !Prevalent(ExampleGraph(), C)
    ensures Reached(ExampleGraph(), G) && !Prevalent(ExampleGraph(), G)
  {
    ExampleReached();
    ExampleRare(A);
    ExampleRare(B);
    ExampleRare(C);
    ExampleRare(G);
  }

  /** The rare entities reached from a.exe are the four. */
  lemma ExampleFound(found: seq<string>)
    requires forall x :: x in found <==> Reached(ExampleGraph(), x) && !Prevalent(ExampleGraph(), x)
    ensures (set x | x in found) == {A, B, C, G}
  {
    var g := ExampleGraph();
    FourReached();
    assert A in found && B in found && C in found && G in found;
    forall x | x in found ensures x in {A, B, C, G} {
      var n :| ReachedIn(g, x, n);
      ReachedAmongFour(x, n);
    }
    SetOfFour(found, A, B, C, G);
  }

  /** An interaction is a telemetry edge exactly when it is one of the three. */
  lemma TelemetryEdge(i: InteractionTuple)
    ensures MultiMapTuple(i.from, i.to, i.context) in Telemetry <==>
      i in {InteractionTuple(A, B, "comp1"), InteractionTuple(B, C, "comp2"), InteractionTuple(A, G, "comp3")}
  {
  }

  /** A sequence whose members are exactly those of a set has that set as its set. */
  lemma SetOfMembers<T>(xs: seq<T>, s: set<T>)
    requires forall x :: x in xs <==> x in s
    ensures (set x | x in xs) == s
  {
  }

  /** A sequence whose set is `s` has exactly the members of `s`. */
  lemma MembersOfSet<T>(xs: seq<T>, s: set<T>)
    requires (set x | x in xs) == s
    ensures forall x :: x in xs <==> x in s
  {
  }

  /** With all four bad, the interactions reported are the three edges. */
  lemma InteractionsOfFour(inter: seq<InteractionTuple>)
    requires forall i :: i in inter <==> Reported(ExampleGraph(), {A, B, C, G}, i)
    ensures (set i | i in inter) ==
      {InteractionTuple(A, B, "comp1"), InteractionTuple(B, C, "comp2"), InteractionTuple(A, G, "comp3")}
  {
    var three := {InteractionTuple(A, B, "comp1"), InteractionTuple(B, C, "comp2"), InteractionTuple(A, G, "comp3")};
    forall i ensures i in inter <==> i in three {
      ExampleReported(i);
      TelemetryEdge(i);
    }
    SetOfMembers(inter, three);
  }

  /** The order of the three contexts, character by character. */
  lemma ContextsAscending()
    ensures StringLess("comp1", "comp2") && StringLess("comp2", "comp3") && StringLess("comp1", "comp3")
  {
    assert StringLess("1", "2") && StringLess("2", "3") && StringLess("1", "3");
    assert StringLess("p1", "p2") && StringLess("p2", "p3") && StringLess("p1", "p3");
    assert StringLess("mp1", "mp2") && StringLess("mp2", "mp3") && StringLess("mp1", "mp3");
    assert StringLess("omp1", "omp2") && StringLess("omp2", "omp3") && StringLess("omp1", "omp3");
  }

  /** A strictly ascending list of exactly the four entities lists them in order. */
  lemma FourInOrder(found: seq<string>)
    requires (set x | x in found) == {A, B, C, G}
    requires StrictlyAscending(found, StringLess)
    ensures found == [A, B, C, G]
  {
    var four := [A, B, C, G];
    StringLessIsStrictTotal();
    assert StringLess(A, B) && StringLess(B, C) && StringLess(C, G);
    assert StrictlyAscending(four, StringLess);
    MembersOfSet(found, {A, B, C, G});
    assert forall x :: x in four <==> x in {A, B, C, G};
    AscendingUnique(found, four, StringLess);
  }

  /** A strictly ascending list of exactly the three interactions lists them
      by context. */
  lemma ThreeInOrder(inter: seq<InteractionTuple>)
    requires (set i | i in inter) ==
      {InteractionTuple(A, B, "comp1"), InteractionTuple(B, C, "comp2"), InteractionTuple(A, G, "comp3")}
    requires StrictlyAscending(inter, InteractionLess)
    ensures inter == [InteractionTuple(A, B, "comp1"), InteractionTuple(B, C, "comp2"), InteractionTuple(A, G, "comp3")]
  {
    var three := [InteractionTuple(A, B, "comp1"), InteractionTuple(B, C, "comp2"), InteractionTuple(A, G, "comp3")];
    InteractionLessIsStrictTotal();
    ContextsAscending();
    assert StrictlyAscending(three, InteractionLess);
    MembersOfSet(inter, {InteractionTuple(A, B, "comp1"), InteractionTuple(B, C, "comp2"), InteractionTuple(A, G, "comp3")});
    assert forall i :: i in three <==> i in {InteractionTuple(A, B, "comp1"), InteractionTuple(B, C, "comp2"), InteractionTuple(A, G, "comp3")};
    AscendingUnique(inter, three, InteractionLess);
  }

  /** Crawling from a.exe and the website finds a.exe, b.exe, c.exe and
      g.exe, and the three interactions, each list in ascending order. */
  lemma ExampleCrawl(found: seq<string>, inter: seq<InteractionTuple>)
    requires forall x :: x in found <==> Reached(ExampleGraph(), x) && !Prevalent(ExampleGraph(), x)
    requires forall i :: i in inter <==> Reported(ExampleGraph(), (set y | y in found), i)
    requires StrictlyAscending(found, StringLess) && StrictlyAscending(inter, InteractionLess)
    ensures (set x | x in found) == {A, B, C, G}
    ensures (set i | i in inter) ==
      {InteractionTuple(A, B, "comp1"), InteractionTuple(B, C, "comp2"), InteractionTuple(A, G, "comp3")}
    ensures found == [A, B, C, G]
    ensures inter == [InteractionTuple(A, B, "comp1"), InteractionTuple(B, C, "comp2"), InteractionTuple(A, G, "comp3")]
  {
    ExampleFound(found);
    InteractionsOfFour(inter);
    FourInOrder(found);
    ThreeInOrder(inter);
  }
}
