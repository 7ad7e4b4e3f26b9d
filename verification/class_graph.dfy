/** Class hierarchies as values: which classes there are, and the links between them. */
module ClassGraph {

  class Defclass {
    const name: string
    const system: bool
    var id: nat
    var busy: nat
    var directSuperclasses: seq<Defclass>
    var directSubclasses: seq<Defclass>
    /** The traversals that have visited the class. */
    var traversalRecord: set<nat>

    constructor (n: string, s: bool, supers: seq<Defclass>) {
      name, system, id, busy := n, s, 0, 0;
      directSuperclasses, directSubclasses, traversalRecord := supers, [], {};
    }
  }

  /** A snapshot of the links; `rank` witnesses that there is no cycle. */
  datatype Graph = Graph(
    classes: set<Defclass>,
    subs: map<Defclass, seq<Defclass>>,
    supers: map<Defclass, seq<Defclass>>,
    rank: map<Defclass, nat>
  )

  ghost predicate Distinct<T>(s: seq<T>) {
    forall i, j :: 0 <= i < j < |s| ==> s[i] != s[j]
  }

  ghost predicate Acyclic(g: Graph) {
    && g.subs.Keys == g.classes && g.rank.Keys >= g.classes
    && (forall c, d :: c in g.classes && d in g.subs[c] ==> d in g.classes && g.rank[d] < g.rank[c])
  }

  /** The superclass and the subclass links agree. */
  ghost predicate Symmetric(g: Graph) {
    && g.subs.Keys == g.classes && g.supers.Keys == g.classes
    && (forall c, d :: c in g.classes && d in g.classes ==> (d in g.subs[c] <==> c in g.supers[d]))
    && (forall c, d :: c in g.classes && d in g.supers[c] ==> d in g.classes)
    && (forall c :: c in g.classes ==> Distinct(g.subs[c]))
  }

  /** `d` is `c` or inherits from it. */
  ghost predicate IsA(g: Graph, d: Defclass, c: Defclass)
    decreases if c in g.rank then g.rank[c] else 0
  {
    || d == c
    || (c in g.subs && c in g.rank
        && exists e :: e in g.subs[c] && e in g.rank && g.rank[e] < g.rank[c] && IsA(g, d, e))
  }

  /** The class and all classes that inherit from it. */
  ghost function Below(g: Graph, c: Defclass): set<Defclass> {
    set d | d in g.classes && IsA(g, d, c)
  }

  // ------------------------------------------------------------------------------------------
  // Removing classes
  // ------------------------------------------------------------------------------------------

  ghost function Remaining(s: seq<Defclass>, gone: set<Defclass>): seq<Defclass> {
    if s == [] then []
    else (if s[0] in gone then [] else [s[0]]) + Remaining(s[1..], gone)
  }

  ghost function Minus(g: Graph, gone: set<Defclass>): Graph {
    Graph(g.classes - gone,
          map c | c in g.classes - gone && c in g.subs :: Remaining(g.subs[c], gone),
          map c | c in g.classes - gone && c in g.supers :: g.supers[c],
          g.rank)
  }

  /** With a class all its subclasses are in the set. */
  ghost predicate Downward(g: Graph, gone: set<Defclass>) {
    forall c, d :: c in gone && c in g.subs && d in g.subs[c] ==> d in gone
  }

  lemma {:induction false} RemainingIs(s: seq<Defclass>, gone: set<Defclass>)
    ensures forall i :: 0 <= i < |Remaining(s, gone)| ==> Remaining(s, gone)[i] in s && Remaining(s, gone)[i] !in gone
    ensures forall i :: 0 <= i < |s| && s[i] !in gone ==> s[i] in Remaining(s, gone)
    ensures |Remaining(s, gone)| <= |s|
    ensures Distinct(s) ==> Distinct(Remaining(s, gone))
    ensures (exists x :: x in s && x in gone) ==> |Remaining(s, gone)| < |s|
  {
    if s != [] {
      RemainingIs(s[1..], gone);
      assert s == [s[0]] + s[1..];
      assert Distinct(s) ==> s[0] !in s[1..] && Distinct(s[1..]);
    }
  }

  lemma {:induction false} RemainingTwice(s: seq<Defclass>, a: set<Defclass>, b: set<Defclass>)
    ensures Remaining(Remaining(s, a), b) == Remaining(s, a + b)
  {
    if s != [] {
      RemainingTwice(s[1..], a, b);
      if s[0] !in a {
        assert ([s[0]] + Remaining(s[1..], a))[1..] == Remaining(s[1..], a);
      } else {
        assert Remaining(s, a) == Remaining(s[1..], a);
      }
    }
  }

  lemma {:induction false} RemainingAll(s: seq<Defclass>, gone: set<Defclass>)
    requires forall x :: x in s ==> x !in gone
    ensures Remaining(s, gone) == s
  {
    if s != [] {
      RemainingAll(s[1..], gone);
    }
  }

  lemma MinusNone(g: Graph)
    requires g.subs.Keys == g.classes && g.supers.Keys == g.classes
    ensures Minus(g, {}) == g
  {
    forall c | c in g.classes ensures Remaining(g.subs[c], {}) == g.subs[c] {
      RemainingAll(g.subs[c], {});
    }
    assert g.classes - {} == g.classes;
  }

  lemma MinusTwice(g: Graph, a: set<Defclass>, b: set<Defclass>)
    ensures Minus(Minus(g, a), b) == Minus(g, a + b)
  {
    var m, n := Minus(Minus(g, a), b), Minus(g, a + b);
    forall c | c in n.subs ensures c in m.subs && m.subs[c] == n.subs[c] {
      RemainingTwice(g.subs[c], a, b);
    }
    assert m.classes == n.classes && m.subs == n.subs && m.supers == n.supers;
  }

  lemma MinusAcyclic(g: Graph, gone: set<Defclass>)
    requires Acyclic(g)
    ensures Acyclic(Minus(g, gone))
  {
    hide Remaining;
    var m := Minus(g, gone);
    assert m.classes == g.classes - gone && m.rank == g.rank;
    forall c, d | c in m.classes && d in m.subs[c] ensures d in m.classes && m.rank[d] < m.rank[c] {
      RemainingIs(g.subs[c], gone);
      RemainingIs(g.subs[c], gone);
      assert d in Remaining(g.subs[c], gone);
    }
  }

  lemma MinusSymmetric(g: Graph, gone: set<Defclass>)
    requires Symmetric(g) && Downward(g, gone)
    ensures Symmetric(Minus(g, gone))
  {
    var m := Minus(g, gone);
    forall c | c in m.classes
      ensures Distinct(m.subs[c]) && forall d :: d in m.subs[c] <==> d in g.subs[c] && d !in gone
    {
      RemainingIs(g.subs[c], gone);
    }
  }

  // ------------------------------------------------------------------------------------------
  // Inheritance
  // ------------------------------------------------------------------------------------------

  lemma {:induction false} IsAIn(g: Graph, d: Defclass, c: Defclass)
    requires Acyclic(g) && c in g.classes && IsA(g, d, c)
    ensures d in g.classes && g.rank[d] <= g.rank[c] && (d != c ==> g.rank[d] < g.rank[c])
    decreases g.rank[c]
  {
    if d != c {
      var e :| e in g.subs[c] && e in g.rank && g.rank[e] < g.rank[c] && IsA(g, d, e);
      IsAIn(g, d, e);
    }
  }

  lemma {:induction false} IsATransitive(g: Graph, d: Defclass, e: Defclass, c: Defclass)
    requires Acyclic(g) && c in g.classes && IsA(g, d, e) && IsA(g, e, c)
    ensures IsA(g, d, c)
    decreases g.rank[c]
  {
    if e != c {
      var f :| f in g.subs[c] && f in g.rank && g.rank[f] < g.rank[c] && IsA(g, e, f);
      IsATransitive(g, d, e, f);
    }
  }

  /** A set that is closed downward and holds a class holds all that inherit from it. */
  lemma {:induction false} DownwardHolds(g: Graph, gone: set<Defclass>, d: Defclass, c: Defclass)
    requires Acyclic(g) && Downward(g, gone) && c in gone && c in g.classes && IsA(g, d, c)
    ensures d in gone
    decreases g.rank[c]
  {
    if d != c {
      var e :| e in g.subs[c] && e in g.rank && g.rank[e] < g.rank[c] && IsA(g, d, e);
      DownwardHolds(g, gone, d, e);
    }
  }

  lemma {:induction false} IsAMinus(g: Graph, gone: set<Defclass>, d: Defclass, c: Defclass)
    requires Acyclic(g) && c in g.classes - gone && IsA(Minus(g, gone), d, c)
    ensures IsA(g, d, c) && d !in gone
    decreases g.rank[c]
  {
    var m := Minus(g, gone);
    if d != c {
      var e :| e in m.subs[c] && e in m.rank && m.rank[e] < m.rank[c] && IsA(m, d, e);
      RemainingIs(g.subs[c], gone);
      IsAMinus(g, gone, d, e);
      assert e in g.subs[c];
    }
  }

  lemma SelfBelow(g: Graph, cls: Defclass)
    requires cls in g.classes
    ensures cls in Below(g, cls)
  {
  }

  lemma BelowSub(g: Graph, cls: Defclass, sub: Defclass)
    requires Acyclic(g) && cls in g.classes && sub in g.subs[cls]
    ensures Below(g, sub) <= Below(g, cls)
  {
    assert IsA(g, sub, sub) && IsA(g, sub, cls);
    forall d | d in Below(g, sub) ensures d in Below(g, cls) {
      IsATransitive(g, d, sub, cls);
    }
  }

  /** What is below a class is the class itself or below one of its direct subclasses. */
  lemma BelowSplits(g: Graph, cls: Defclass)
    requires Acyclic(g) && cls in g.classes
    ensures forall d :: d in Below(g, cls) ==>
      d == cls || exists i :: 0 <= i < |g.subs[cls]| && d in Below(g, g.subs[cls][i])
  {
    forall d | d in Below(g, cls) && d != cls
      ensures exists i :: 0 <= i < |g.subs[cls]| && d in Below(g, g.subs[cls][i])
    {
      var e :| e in g.subs[cls] && e in g.rank && g.rank[e] < g.rank[cls] && IsA(g, d, e);
      var i :| 0 <= i < |g.subs[cls]| && g.subs[cls][i] == e;
      assert d in Below(g, g.subs[cls][i]);
    }
  }
}
