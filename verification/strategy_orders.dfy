/** What each conflict resolution strategy makes of an agenda, in terms of the activations' numbers. */
module StrategyOrders {
  import opened AgendaOrder
  import opened Agenda

  /** The first time tag, if any, in which the two lists differ is greater in `x`; without one `x` is not shorter. */
  ghost predicate NotBelow(x: seq<nat>, y: seq<nat>) {
    && (forall k :: 0 <= k < |x| && k < |y| && x[..k] == y[..k] && x[k] != y[k] ==> x[k] > y[k])
    && !(|x| < |y| && x == y[..|x|])
  }

  /** The lex order: the sorted time tags of the matches, the greater first, and of two lists one of which begins with
      the other the longer first; with equal time tags the more complex rule, and then the older activation. */
  ghost predicate LexOrdered(a: Activation, b: Activation) {
    var x, y := a.basis.sortedTags, b.basis.sortedTags;
    && NotBelow(x, y)
    && (x == y ==>
          a.theRule.complexity > b.theRule.complexity
          || (a.theRule.complexity == b.theRule.complexity && a.timetag <= b.timetag))
  }

  lemma {:induction false} TagsNotBelow(x: seq<nat>, y: seq<nat>)
    ensures !CompareTags(x, y).LessThan? <==> NotBelow(x, y)
    ensures CompareTags(x, y).Equal? <==> x == y
  {
    if x != [] && y != [] && x[0] == y[0] {
      TagsNotBelow(x[1..], y[1..]);
      NotBelowTail(x, y);
      assert x == [x[0]] + x[1..] && y == [y[0]] + y[1..];
    } else if x != [] && y != [] {
      assert x[..0] == y[..0];
      assert |x| < |y| ==> y[..|x|][0] == y[0];
    }
  }

  lemma NotBelowTail(x: seq<nat>, y: seq<nat>)
    requires x != [] && y != [] && x[0] == y[0]
    ensures NotBelow(x, y) <==> NotBelow(x[1..], y[1..])
  {
    var u, v := x[1..], y[1..];
    forall k | 0 <= k < |u| && k < |v| ensures u[..k] == v[..k] <==> x[..k + 1] == y[..k + 1] {
      assert x[..k + 1] == [x[0]] + u[..k] && y[..k + 1] == [y[0]] + v[..k];
      assert x[..k + 1][1..] == u[..k] && y[..k + 1][1..] == v[..k];
    }
    assert |x| < |y| ==> (x == y[..|x|] <==> u == v[..|u|]) by {
      if |x| < |y| {
        assert x == [x[0]] + u && y[..|x|] == [y[0]] + v[..|u|];
        assert y[..|x|][1..] == v[..|u|];
      }
    }
    forall k | 0 <= k < |x| && k < |y| && x[..k] == y[..k] && x[k] != y[k]
      ensures k > 0 && u[k - 1] == x[k] && v[k - 1] == y[k] && u[..k - 1] == v[..k - 1]
    {
      assert x[..k - 1 + 1] == y[..k - 1 + 1];
    }
    forall k | 0 <= k < |u| && k < |v| && u[..k] == v[..k] && u[k] != v[k]
      ensures x[..k + 1] == y[..k + 1] && x[k + 1] == u[k] && y[k + 1] == v[k]
    {
    }
  }

  lemma ComparedLex(a: Activation, b: Activation)
    ensures LexOrdered(a, b) <==> MayPrecede(Lex, a, b)
  {
    TagsNotBelow(a.basis.sortedTags, b.basis.sortedTags);
    TagsFlip(a.basis.sortedTags, b.basis.sortedTags);
    hide CompareTags, NotBelow;
  }

  /** How activations stand on an agenda that agrees with its groups and is in order: the greater salience first. Of
      equal salience, under depth the newest first, under breadth the oldest; under complexity the most complex rule
      first, under simplicity the least complex, under random the smallest random number, and the oldest among equals;
      under lex in the lex order; under mea the greater time tag of the first pattern's match first, and in the lex
      order among equals. */
  lemma OrderIs(m: DefruleModule, i: int, j: int)
    requires m.Valid() && m.Ordered() && 0 <= i < j < |m.acts|
    ensures m.acts[i].salience >= m.acts[j].salience
    ensures m.acts[i].salience == m.acts[j].salience ==>
      var a, b := m.acts[i], m.acts[j];
      match m.strategy
      case Depth => a.timetag >= b.timetag
      case Breadth => a.timetag <= b.timetag
      case Lex => LexOrdered(a, b)
      case Mea =>
        a.basis.firstTag > b.basis.firstTag || (a.basis.firstTag == b.basis.firstTag && LexOrdered(a, b))
      case Complexity =>
        a.theRule.complexity > b.theRule.complexity
        || (a.theRule.complexity == b.theRule.complexity && a.timetag <= b.timetag)
      case Simplicity =>
        a.theRule.complexity < b.theRule.complexity
        || (a.theRule.complexity == b.theRule.complexity && a.timetag <= b.timetag)
      case Random =>
        a.randomID < b.randomID || (a.randomID == b.randomID && a.timetag <= b.timetag)
  {
    m.Descending();
    ComparedLex(m.acts[i], m.acts[j]);
    hide LexOrdered, ComparePartialMatches, ActsChained, GroupsChained, Bounded, Grouped;
    assert m.acts[i].salience == m.acts[j].salience ==> MayPrecede(m.strategy, m.acts[i], m.acts[j]);
  }
}
