/** The records exchanged between the multimap and the graph
    (MultiMapTuple, InteractionTuple) and the orders used to sort output
    (IntelWeb.h). */
module Tuples {
  import opened Ordered

  /** What a multimap search yields: one stored association. */
  datatype MultiMapTuple = MultiMapTuple(key: string, value: string, context: string)

  /** A directed interaction reported by crawl. */
  datatype InteractionTuple = InteractionTuple(from: string, to: string, context: string)

  /** std::string operator<: lexicographic by character code, a proper
      prefix being smaller. */
  predicate StringLess(a: string, b: string)
  {
    if a == [] then b != []
    else if b == [] then false
    else if a[0] != b[0] then a[0] < b[0]
    else StringLess(a[1..], b[1..])
  }

  lemma {:induction false} StringLessIrreflexive(a: string)
    ensures !StringLess(a, a)
  {
    if a != [] {
      StringLessIrreflexive(a[1..]);
    }
  }

  lemma {:induction false} StringLessTransitive(a: string, b: string, c: string)
    requires StringLess(a, b) && StringLess(b, c)
    ensures StringLess(a, c)
  {
    if a != [] && b != [] && c != [] && a[0] == b[0] == c[0] {
      StringLessTransitive(a[1..], b[1..], c[1..]);
    }
  }

  lemma {:induction false} StringLessConnected(a: string, b: string)
    requires a != b
    ensures StringLess(a, b) || StringLess(b, a)
  {
    if a != [] && b != [] && a[0] == b[0] {
      assert a == [a[0]] + a[1..] && b == [b[0]] + b[1..];
      StringLessConnected(a[1..], b[1..]);
    }
  }

  /** std::string's operator< is a strict total order. */
  lemma StringLessIsStrictTotal()
    ensures StrictTotalOrder(StringLess)
  {
    forall a: string ensures !StringLess(a, a) {
      StringLessIrreflexive(a);
    }
    forall a: string, b: string, c: string | StringLess(a, b) && StringLess(b, c)
      ensures StringLess(a, c)
    {
      StringLessTransitive(a, b, c);
    }
    forall a: string, b: string | a != b ensures StringLess(a, b) || StringLess(b, a) {
      StringLessConnected(a, b);
    }
  }

  /** operator< on InteractionTuple: context first, then from, then to. */
  predicate InteractionLess(a: InteractionTuple, b: InteractionTuple)
  {
    if a.context != b.context then StringLess(a.context, b.context)
    else if a.from != b.from then StringLess(a.from, b.from)
    else if a.to != b.to then StringLess(a.to, b.to)
    else false
  }

  /** The tuple order is the lexicographic order on (context, from, to). */
  lemma InteractionLessIsLexicographic(a: InteractionTuple, b: InteractionTuple)
    ensures InteractionLess(a, b) <==>
      StringLess(a.context, b.context) ||
      (a.context == b.context && StringLess(a.from, b.from)) ||
      (a.context == b.context && a.from == b.from && StringLess(a.to, b.to))
  {
    StringLessIrreflexive(a.context);
    StringLessIrreflexive(a.from);
    StringLessIrreflexive(a.to);
  }

  /** Sorting a std::set<InteractionTuple> is well defined: the tuple
      order is a strict total order, and equal tuples are not less. */
  lemma InteractionLessIsStrictTotal()
    ensures StrictTotalOrder(InteractionLess)
  {
    StringLessIsStrictTotal();
    forall a: InteractionTuple, b: InteractionTuple, c: InteractionTuple
      | InteractionLess(a, b) && InteractionLess(b, c)
      ensures InteractionLess(a, c)
    {
      InteractionLessIsLexicographic(a, b);
      InteractionLessIsLexicographic(b, c);
      InteractionLessIsLexicographic(a, c);
      StringLessIrreflexive(a.context);
      StringLessIrreflexive(a.from);
      if StringLess(a.context, b.context) && StringLess(b.context, c.context) {
        StringLessTransitive(a.context, b.context, c.context);
      }
      if StringLess(a.from, b.from) && StringLess(b.from, c.from) {
        StringLessTransitive(a.from, b.from, c.from);
      }
      if StringLess(a.to, b.to) && StringLess(b.to, c.to) {
        StringLessTransitive(a.to, b.to, c.to);
      }
    }
    forall a: InteractionTuple, b: InteractionTuple | a != b
      ensures InteractionLess(a, b) || InteractionLess(b, a)
    {
      if a.context != b.context {
        StringLessConnected(a.context, b.context);
      } else if a.from != b.from {
        StringLessConnected(a.from, b.from);
      } else {
        StringLessConnected(a.to, b.to);
      }
    }
  }
}
