/** Counting and listing the classes that inherit from a class, each once. */
module SubclassLists {
  import opened ClassGraph

  ghost function Elems(s: seq<Defclass>): set<Defclass> { set x | x in s }

  /** The classes a traversal from `todo` comes to, in order, when `seen` have been visited; all of `todo` rank
      below `n`. */
  ghost function Visit(g: Graph, n: nat, todo: seq<Defclass>, seen: set<Defclass>, deep: bool): seq<Defclass>
    decreases n, |todo|
  {
    if todo == [] then []
    else if todo[0] in seen then Visit(g, n, todo[1..], seen, deep)
    else
      var c := todo[0];
      var inner := if deep && c in g.subs && c in g.rank && g.rank[c] < n
                   then Visit(g, g.rank[c], g.subs[c], seen + {c}, deep) else [];
      [c] + inner + Visit(g, n, todo[1..], seen + {c} + Elems(inner), deep)
  }

  /** The links that a traversal follows. */
  ghost predicate Ranked(g: Graph, n: nat, todo: seq<Defclass>) {
    && Acyclic(g)
    && forall i :: 0 <= i < |todo| ==> todo[i] in g.classes && g.rank[todo[i]] < n
  }

  lemma VisitStep(g: Graph, n: nat, todo: seq<Defclass>, seen: set<Defclass>, deep: bool)
    requires Ranked(g, n, todo) && todo != []
    ensures todo[0] in seen ==> Visit(g, n, todo, seen, deep) == Visit(g, n, todo[1..], seen, deep)
    ensures todo[0] !in seen ==>
      var inner := if deep then Visit(g, g.rank[todo[0]], g.subs[todo[0]], seen + {todo[0]}, deep) else [];
      Visit(g, n, todo, seen, deep)
      == [todo[0]] + inner + Visit(g, n, todo[1..], seen + {todo[0]} + Elems(inner), deep)
  {
  }

  lemma SubsRanked(g: Graph, c: Defclass)
    requires Acyclic(g) && c in g.classes
    ensures Ranked(g, g.rank[c], g.subs[c])
  {
  }

  lemma ElemsPlus(a: seq<Defclass>, b: seq<Defclass>)
    ensures Elems(a + b) == Elems(a) + Elems(b)
  {
  }

  /** No class is visited twice. */
  lemma {:induction false} VisitDistinct(g: Graph, n: nat, todo: seq<Defclass>, seen: set<Defclass>, deep: bool)
    requires Ranked(g, n, todo)
    ensures Distinct(Visit(g, n, todo, seen, deep)) && Elems(Visit(g, n, todo, seen, deep)) !! seen
    decreases n, |todo|
  {
    hide Visit;
    if todo == [] {
      VisitNone(g, n, seen, deep);
    } else {
      VisitStep(g, n, todo, seen, deep);
      var c := todo[0];
      if c in seen {
        VisitDistinct(g, n, todo[1..], seen, deep);
      } else {
        SubsRanked(g, c);
        var inner := if deep then Visit(g, g.rank[c], g.subs[c], seen + {c}, deep) else [];
        if deep { VisitDistinct(g, g.rank[c], g.subs[c], seen + {c}, deep); }
        var rest := Visit(g, n, todo[1..], seen + {c} + Elems(inner), deep);
        VisitDistinct(g, n, todo[1..], seen + {c} + Elems(inner), deep);
        ElemsPlus([c] + inner, rest);
        ElemsPlus([c], inner);
        DistinctJoin(c, inner, rest);
      }
    }
  }

  lemma VisitNone(g: Graph, n: nat, seen: set<Defclass>, deep: bool)
    ensures Visit(g, n, [], seen, deep) == []
  {
  }

  lemma DistinctJoin(c: Defclass, inner: seq<Defclass>, rest: seq<Defclass>)
    requires Distinct(inner) && Distinct(rest) && c !in Elems(inner) && c !in Elems(rest) && Elems(inner) !! Elems(rest)
    ensures Distinct([c] + inner + rest)
  {
    var s := [c] + inner + rest;
    forall i, j | 0 <= i < j < |s| ensures s[i] != s[j] {
      assert i == 0 ==> s[i] == c;
      assert 0 < j <= |inner| ==> s[j] == inner[j - 1] && s[j] in Elems(inner);
      assert 0 < i <= |inner| ==> s[i] == inner[i - 1] && s[i] in Elems(inner);
      assert j > |inner| ==> s[j] == rest[j - 1 - |inner|] && s[j] in Elems(rest);
      assert i > |inner| ==> s[i] == rest[i - 1 - |inner|];
    }
  }

  /** Every class visited inherits from one of `todo`; without depth, it is one of them. */
  lemma {:induction false} VisitBelow(g: Graph, n: nat, todo: seq<Defclass>, seen: set<Defclass>, deep: bool, k: nat)
    requires Ranked(g, n, todo) && k < |Visit(g, n, todo, seen, deep)|
    ensures exists i ::
      0 <= i < |todo| && IsA(g, Visit(g, n, todo, seen, deep)[k], todo[i])
      && (!deep ==> Visit(g, n, todo, seen, deep)[k] == todo[i])
    decreases n, |todo|
  {
    hide Visit;
    if todo == [] {
      VisitNone(g, n, seen, deep);
    } else {
      VisitStep(g, n, todo, seen, deep);
      var c := todo[0];
      var v := Visit(g, n, todo, seen, deep);
      if c in seen {
        VisitBelow(g, n, todo[1..], seen, deep, k);
        var i :| 0 <= i < |todo[1..]| && IsA(g, v[k], todo[1..][i]) && (!deep ==> v[k] == todo[1..][i]);
        assert todo[1..][i] == todo[i + 1];
      } else {
        SubsRanked(g, c);
        var inner := if deep then Visit(g, g.rank[c], g.subs[c], seen + {c}, deep) else [];
        var rest := Visit(g, n, todo[1..], seen + {c} + Elems(inner), deep);
        if k == 0 {
          assert IsA(g, v[k], todo[0]);
        } else if k <= |inner| {
          VisitBelow(g, g.rank[c], g.subs[c], seen + {c}, deep, k - 1);
          var i :| 0 <= i < |g.subs[c]| && IsA(g, inner[k - 1], g.subs[c][i]);
          assert g.subs[c][i] in g.subs[c];
          assert IsA(g, v[k], todo[0]);
        } else {
          VisitBelow(g, n, todo[1..], seen + {c} + Elems(inner), deep, k - 1 - |inner|);
          var i :| 0 <= i < |todo[1..]| && IsA(g, v[k], todo[1..][i]) && (!deep ==> v[k] == todo[1..][i]);
          assert todo[1..][i] == todo[i + 1];
        }
      }
    }
  }

  /** The direct subclasses of the classes in `s` are all in `upto`. */
  ghost predicate Closed(g: Graph, s: set<Defclass>, upto: set<Defclass>) {
    forall c, i :: c in s && c in g.subs && 0 <= i < |g.subs[c]| ==> g.subs[c][i] in upto
  }

  lemma ClosedJoin(g: Graph, a: set<Defclass>, b: set<Defclass>, upto: set<Defclass>, more: set<Defclass>)
    requires Closed(g, a, upto) && Closed(g, b, more) && upto <= more
    ensures Closed(g, a + b, more)
  {
  }

  /** A traversal comes to all of `todo` and, going deep, to all subclasses of what it comes to. */
  lemma {:induction false} VisitAll(g: Graph, n: nat, todo: seq<Defclass>, seen: set<Defclass>, deep: bool)
    requires Ranked(g, n, todo)
    ensures forall i :: 0 <= i < |todo| ==> todo[i] in seen + Elems(Visit(g, n, todo, seen, deep))
    ensures deep ==> Closed(g, Elems(Visit(g, n, todo, seen, deep)), seen + Elems(Visit(g, n, todo, seen, deep)))
    decreases n, |todo|
  {
    hide Visit, Closed, Elems;
    if todo == [] {
      VisitNone(g, n, seen, deep);
      NothingClosed(g, seen + Elems([]));
    } else {
      VisitStep(g, n, todo, seen, deep);
      var c := todo[0];
      var v := Visit(g, n, todo, seen, deep);
      if c in seen {
        VisitAll(g, n, todo[1..], seen, deep);
        assert forall i :: 0 < i < |todo| ==> todo[i] == todo[1..][i - 1];
      } else {
        SubsRanked(g, c);
        var inner := if deep then Visit(g, g.rank[c], g.subs[c], seen + {c}, deep) else [];
        var now := seen + {c} + Elems(inner);
        var rest := Visit(g, n, todo[1..], now, deep);
        VisitAll(g, n, todo[1..], now, deep);
        ElemsPlus([c] + inner, rest);
        ElemsPlus([c], inner);
        ElemsOne(c);
        assert Elems(v) == {c} + Elems(inner) + Elems(rest) && now + Elems(rest) == seen + Elems(v);
        assert forall i :: 0 < i < |todo| ==> todo[i] == todo[1..][i - 1];
        if deep {
          VisitAll(g, g.rank[c], g.subs[c], seen + {c}, deep);
          OneClosed(g, c, now);
          ClosedJoin(g, {c}, Elems(inner), now, now);
          ClosedJoin(g, {c} + Elems(inner), Elems(rest), now, now + Elems(rest));
        }
      }
    }
  }

  lemma ElemsOne(c: Defclass)
    ensures Elems([c]) == {c}
  {
  }

  lemma NothingClosed(g: Graph, upto: set<Defclass>)
    ensures Elems([]) == {} && Closed(g, {}, upto)
  {
  }

  lemma OneClosed(g: Graph, c: Defclass, upto: set<Defclass>)
    requires c in g.subs && forall i :: 0 <= i < |g.subs[c]| ==> g.subs[c][i] in upto
    ensures Closed(g, {c}, upto)
  {
  }

  /** From fresh marks a deep traversal comes to exactly the classes that properly inherit from the class. */
  lemma ProperDescendants(g: Graph, cls: Defclass)
    requires Acyclic(g) && cls in g.classes
    ensures var v := Visit(g, g.rank[cls], g.subs[cls], {}, true);
      Distinct(v) && Elems(v) == Below(g, cls) - {cls}
  {
    hide Visit;
    SubsRanked(g, cls);
    var v := Visit(g, g.rank[cls], g.subs[cls], {}, true);
    VisitDistinct(g, g.rank[cls], g.subs[cls], {}, true);
    VisitAll(g, g.rank[cls], g.subs[cls], {}, true);
    forall k | 0 <= k < |v| ensures v[k] in Below(g, cls) - {cls} {
      VisitBelow(g, g.rank[cls], g.subs[cls], {}, true, k);
      var i :| 0 <= i < |g.subs[cls]| && IsA(g, v[k], g.subs[cls][i]);
      assert g.subs[cls][i] in g.subs[cls];
      IsAIn(g, v[k], g.subs[cls][i]);
      assert IsA(g, v[k], cls);
    }
    assert Downward(g, Elems(v));
    forall d | d in Below(g, cls) - {cls} ensures d in Elems(v) {
      var e :| e in g.subs[cls] && e in g.rank && g.rank[e] < g.rank[cls] && IsA(g, d, e);
      DownwardHolds(g, Elems(v), d, e);
    }
  }

  /** Without depth it comes to the distinct direct subclasses. */
  lemma DirectSubclasses(g: Graph, cls: Defclass)
    requires Acyclic(g) && cls in g.classes
    ensures var v := Visit(g, g.rank[cls], g.subs[cls], {}, false);
      Distinct(v) && Elems(v) == Elems(g.subs[cls])
  {
    hide Visit;
    SubsRanked(g, cls);
    var v := Visit(g, g.rank[cls], g.subs[cls], {}, false);
    VisitDistinct(g, g.rank[cls], g.subs[cls], {}, false);
    VisitAll(g, g.rank[cls], g.subs[cls], {}, false);
    forall k | 0 <= k < |v| ensures v[k] in Elems(g.subs[cls]) {
      VisitBelow(g, g.rank[cls], g.subs[cls], {}, false, k);
    }
  }

  // ------------------------------------------------------------------------------------------
  // The traversals
  // ------------------------------------------------------------------------------------------

  /** The subclass links are those of the snapshot. */
  ghost predicate SubLinks(g: Graph)
    reads g.classes`directSubclasses
  {
    g.subs.Keys == g.classes && forall c :: c in g.classes ==> c.directSubclasses == g.subs[c]
  }

  /** `seen` are the classes that traversal `tvid` has marked. */
  ghost predicate MarkedAre(g: Graph, tvid: nat, seen: set<Defclass>)
    reads g.classes`traversalRecord
  {
    forall c :: c in g.classes ==> (tvid in c.traversalRecord <==> c in seen)
  }

  lemma MarkIs(g: Graph, tvid: nat, seen: set<Defclass>, c: Defclass)
    requires MarkedAre(g, tvid, seen) && c in g.classes
    ensures tvid in c.traversalRecord <==> c in seen
  {
  }

  lemma SubIs(g: Graph, cls: Defclass)
    requires Acyclic(g) && SubLinks(g) && cls in g.classes
    ensures g.subs.Keys == g.classes && g.rank.Keys >= g.classes
    ensures cls.directSubclasses == g.subs[cls] && Ranked(g, g.rank[cls], g.subs[cls])
    ensures forall i :: 0 <= i < |g.subs[cls]| ==>
      g.subs[cls][i] in g.classes && 0 <= g.rank[g.subs[cls][i]] < g.rank[cls]
    ensures forall i :: 0 <= i <= |g.subs[cls]| ==> Ranked(g, g.rank[cls], g.subs[cls][i..])
  {
  }

  /** Marks one class. */
  method SetTraversalID(c: Defclass, tvid: nat, ghost g: Graph, ghost seen: set<Defclass>)
    requires MarkedAre(g, tvid, seen) && c in g.classes
    modifies c`traversalRecord
    ensures MarkedAre(g, tvid, seen + {c})
  {
    c.traversalRecord := c.traversalRecord + {tvid};
  }

  method CountSubclasses(cls: Defclass, inhp: bool, tvid: nat, ghost g: Graph, ghost seen: set<Defclass>)
    returns (cnt: nat)
    requires Acyclic(g) && SubLinks(g) && MarkedAre(g, tvid, seen) && cls in g.classes
    modifies g.classes`traversalRecord
    ensures cnt == |Visit(g, g.rank[cls], g.subs[cls], seen, inhp)|
    ensures MarkedAre(g, tvid, seen + Elems(Visit(g, g.rank[cls], g.subs[cls], seen, inhp)))
    decreases g.rank[cls]
  {
    hide *;
    SubIs(g, cls);
    ghost var n, subs := g.rank[cls], g.subs[cls];
    ghost var now := seen;
    cnt := 0;
    var i := 0;
    assert subs[0..] == subs;
    while i < |cls.directSubclasses|
      invariant 0 <= i <= |subs| && cls.directSubclasses == subs && SubLinks(g) && MarkedAre(g, tvid, now)
      invariant cnt + |Visit(g, n, subs[i..], now, inhp)| == |Visit(g, n, subs, seen, inhp)|
      invariant now + Elems(Visit(g, n, subs[i..], now, inhp)) == seen + Elems(Visit(g, n, subs, seen, inhp))
    {
      var subcls := cls.directSubclasses[i];
      assert subs[i..][0] == subcls && subs[i..][1..] == subs[i + 1..];
      VisitStep(g, n, subs[i..], now, inhp);
      MarkIs(g, tvid, now, subcls);
      if tvid !in subcls.traversalRecord {
        ghost var rest := subs[i + 1..];
        cnt := cnt + 1;
        SetTraversalID(subcls, tvid, g, now);
        SubIs(g, subcls);
        VisitNone(g, g.rank[subcls], now + {subcls}, inhp);
        ghost var inner := if inhp then Visit(g, g.rank[subcls], g.subs[subcls], now + {subcls}, inhp) else [];
        if inhp && |subcls.directSubclasses| != 0 {
          var more := CountSubclasses(subcls, inhp, tvid, g, now + {subcls});
          cnt := cnt + more;
        }
        JoinElems(subcls, inner, Visit(g, n, rest, now + {subcls} + Elems(inner), inhp), now);
        now := now + {subcls} + Elems(inner);
      }
      i := i + 1;
    }
    assert subs[i..] == [];
    VisitNone(g, n, now, inhp);
    NoElems(now);
  }

  /** What is stored for a class: its name or its address. */
  datatype Cell = NoCell | Symbol(name: string) | ClassPtr(cls: Defclass)

  function CellOf(c: Defclass, storeName: bool): Cell {
    if storeName then Symbol(c.name) else ClassPtr(c)
  }

  /** From cell `si` on, counted from 1, the cells hold `v`; the others are as in `was`. */
  ghost predicate Stored(cells: seq<Cell>, was: seq<Cell>, si: nat, v: seq<Defclass>, storeName: bool) {
    && |cells| == |was| && 1 <= si && si - 1 + |v| <= |was|
    && (forall k :: 0 <= k < si - 1 ==> cells[k] == was[k])
    && (forall k :: si - 1 <= k < si - 1 + |v| ==> cells[k] == CellOf(v[k - (si - 1)], storeName))
    && (forall k :: si - 1 + |v| <= k < |was| ==> cells[k] == was[k])
  }

  lemma StoredNone(was: seq<Cell>, si: nat, storeName: bool)
    requires 1 <= si <= |was| + 1
    ensures Stored(was, was, si, [], storeName)
  {
  }

  lemma StoredMore(a: seq<Cell>, b: seq<Cell>, c: seq<Cell>, si: nat, v: seq<Defclass>, w: seq<Defclass>,
                   storeName: bool)
    requires Stored(b, a, si, v, storeName) && Stored(c, b, si + |v|, w, storeName)
    ensures Stored(c, a, si, v + w, storeName)
  {
  }

  /** What the visit of a class that is visited for the first time adds behind it. */
  ghost function Inner(g: Graph, c: Defclass, seen: set<Defclass>, inhp: bool): seq<Defclass>
    requires Acyclic(g) && c in g.classes
  {
    if inhp then Visit(g, g.rank[c], g.subs[c], seen, inhp) else []
  }

  lemma InnerIs(g: Graph, c: Defclass, seen: set<Defclass>, inhp: bool)
    requires Acyclic(g) && c in g.classes
    ensures Inner(g, c, seen, inhp) == if inhp then Visit(g, g.rank[c], g.subs[c], seen, inhp) else []
    ensures g.subs[c] == [] ==> Inner(g, c, seen, inhp) == []
  {
  }

  /** Stores a class that is not marked yet, and what is below it. */
  method StoreBelow(mfval: array<Cell>, si: nat, subcls: Defclass, inhp: bool, tvid: nat, storeName: bool,
                    ghost g: Graph, ghost now: set<Defclass>)
    returns (stored: nat)
    requires Acyclic(g) && SubLinks(g) && MarkedAre(g, tvid, now) && subcls in g.classes && 1 <= si
    requires si + |Inner(g, subcls, now + {subcls}, inhp)| <= mfval.Length
    modifies mfval, g.classes`traversalRecord
    ensures stored == 1 + |Inner(g, subcls, now + {subcls}, inhp)|
    ensures Stored(mfval[..], old(mfval[..]), si, [subcls] + Inner(g, subcls, now + {subcls}, inhp), storeName)
    ensures MarkedAre(g, tvid, now + {subcls} + Elems(Inner(g, subcls, now + {subcls}, inhp)))
    decreases g.rank[subcls], 1
  {
    hide *;
    ghost var was, inner := mfval[..], Inner(g, subcls, now + {subcls}, inhp);
    InnerIs(g, subcls, now + {subcls}, inhp);
    SubIs(g, subcls);
    SetTraversalID(subcls, tvid, g, now);
    StoreOne(mfval, si, subcls, storeName);
    stored := 1;
    ghost var mid := mfval[..];
    if inhp && |subcls.directSubclasses| != 0 {
      var more := StoreSubclasses(mfval, si + 1, subcls, inhp, tvid, storeName, g, now + {subcls});
      stored := stored + more;
    } else {
      StoredNone(mid, si + 1, storeName);
      NoElems(now + {subcls});
    }
    StoredMore(was, mid, mfval[..], si, [subcls], inner, storeName);
  }

  method StoreSubclasses(mfval: array<Cell>, si: nat, cls: Defclass, inhp: bool, tvid: nat, storeName: bool,
                         ghost g: Graph, ghost seen: set<Defclass>)
    returns (stored: nat)
    requires Acyclic(g) && SubLinks(g) && MarkedAre(g, tvid, seen) && cls in g.classes && 1 <= si
    requires si - 1 + |Visit(g, g.rank[cls], g.subs[cls], seen, inhp)| <= mfval.Length
    modifies mfval, g.classes`traversalRecord
    ensures stored == |Visit(g, g.rank[cls], g.subs[cls], seen, inhp)|
    ensures Stored(mfval[..], old(mfval[..]), si, Visit(g, g.rank[cls], g.subs[cls], seen, inhp), storeName)
    ensures MarkedAre(g, tvid, seen + Elems(Visit(g, g.rank[cls], g.subs[cls], seen, inhp)))
    decreases g.rank[cls], 0
  {
    hide *;
    SubIs(g, cls);
    ghost var n, subs := g.rank[cls], g.subs[cls];
    ghost var all := Visit(g, n, subs, seen, inhp);
    ghost var now, done, was := seen, [], mfval[..];
    var i := si;
    var classi := 0;
    assert subs[0..] == subs && done + all == all;
    StoredNone(was, si, storeName);
    while classi < |cls.directSubclasses|
      invariant 0 <= classi <= |subs| && cls.directSubclasses == subs && SubLinks(g) && MarkedAre(g, tvid, now)
      invariant i == si + |done| && Stored(mfval[..], was, si, done, storeName)
      invariant done + Visit(g, n, subs[classi..], now, inhp) == all
      invariant now + Elems(Visit(g, n, subs[classi..], now, inhp)) == seen + Elems(all)
    {
      var subcls := cls.directSubclasses[classi];
      assert subs[classi..][0] == subcls && subs[classi..][1..] == subs[classi + 1..];
      VisitStep(g, n, subs[classi..], now, inhp);
      MarkIs(g, tvid, now, subcls);
      if tvid !in subcls.traversalRecord {
        ghost var rest := subs[classi + 1..];
        ghost var before, inner := mfval[..], Inner(g, subcls, now + {subcls}, inhp);
        InnerIs(g, subcls, now + {subcls}, inhp);
        var more := StoreBelow(mfval, i, subcls, inhp, tvid, storeName, g, now);
        i := i + more;
        StoredMore(was, before, mfval[..], si, done, [subcls] + inner, storeName);
        JoinElems(subcls, inner, Visit(g, n, rest, now + {subcls} + Elems(inner), inhp), now);
        assert done + ([subcls] + inner) == done + [subcls] + inner;
        done := done + [subcls] + inner;
        now := now + {subcls} + Elems(inner);
      }
      classi := classi + 1;
    }
    assert subs[classi..] == [];
    VisitNone(g, n, now, inhp);
    NoElems(now);
    assert done + [] == done;
    return i - si;
  }

  method StoreOne(mfval: array<Cell>, i: nat, c: Defclass, storeName: bool)
    requires 1 <= i <= mfval.Length
    modifies mfval
    ensures Stored(mfval[..], old(mfval[..]), i, [c], storeName)
  {
    if storeName {
      mfval[i - 1] := Symbol(c.name);
    } else {
      mfval[i - 1] := ClassPtr(c);
    }
  }

  lemma NoElems(now: set<Defclass>)
    ensures Elems([]) == {} && now + {} == now
  {
  }

  lemma JoinElems(c: Defclass, inner: seq<Defclass>, rest: seq<Defclass>, now: set<Defclass>)
    ensures now + Elems([c] + inner + rest) == now + {c} + Elems(inner) + Elems(rest)
    ensures inner == [] ==> now + {c} + Elems(inner) == now + {c}
  {
    ElemsPlus([c] + inner, rest);
    ElemsPlus([c], inner);
    ElemsOne(c);
  }

  // ------------------------------------------------------------------------------------------
  // The multifield of subclasses
  // ------------------------------------------------------------------------------------------

  const MAX_TRAVERSALS := 256

  ghost function Listing(g: Graph, cls: Defclass, inhp: bool): seq<Defclass>
    requires Acyclic(g) && cls in g.classes
  {
    Visit(g, g.rank[cls], g.subs[cls], {}, inhp)
  }

  class Traversals {
    /** The class hash table. */
    var classTable: seq<Defclass>
    /** The next traversal id; the ids below it are in use. */
    var ctid: nat

    constructor (table: seq<Defclass>) {
      classTable, ctid := table, 0;
    }

    /** A traversal id that no class is marked with, or -1. */
    method GetTraversalID(ghost g: Graph) returns (id: int)
      requires forall c :: c in g.classes <==> c in classTable
      modifies this`ctid, g.classes`traversalRecord
      ensures if old(ctid) >= 256 then id == -1 && ctid == old(ctid)
              else id == old(ctid) && ctid == old(ctid) + 1 && MarkedAre(g, old(ctid), {})
    {
      if ctid >= MAX_TRAVERSALS {
        return -1;
      }
      var i := 0;
      while i < |classTable|
        invariant 0 <= i <= |classTable| && ctid == old(ctid)
        invariant forall j :: 0 <= j < i ==> ctid !in classTable[j].traversalRecord
      {
        classTable[i].traversalRecord := classTable[i].traversalRecord - {ctid};
        i := i + 1;
      }
      ctid := ctid + 1;
      return ctid - 1;
    }

    method ReleaseTraversalID()
      requires ctid > 0
      modifies this`ctid
      ensures ctid == old(ctid) - 1
    {
      ctid := ctid - 1;
    }

    /** The subclasses as a multifield of names or addresses; no result when no traversal id is free. */
    method EnvClassSubclasses(cls: Defclass, inhp: bool, storeName: bool, ghost g: Graph) returns (result: array?<Cell>)
      requires Acyclic(g) && SubLinks(g) && cls in g.classes && forall c :: c in g.classes <==> c in classTable
      modifies this`ctid, g.classes`traversalRecord
      ensures result == null <==> old(ctid) >= 256
      ensures result != null ==> fresh(result) && result.Length == |Listing(g, cls, inhp)|
      ensures result != null ==>
        forall k :: 0 <= k < result.Length ==>
          var c := Listing(g, cls, inhp)[k]; result[k] == if storeName then Symbol(c.name) else ClassPtr(c)
      ensures ctid == old(ctid)
    {
      hide *;
      ListingIs(g, cls, inhp);
      var id := GetTraversalID(g);
      if id == -1 {
        return null;
      }
      var i := CountSubclasses(cls, inhp, id, g, {});
      ReleaseTraversalID();
      var cells := new Cell[i](_ => NoCell);
      if i == 0 {
        return cells;
      }
      id := GetTraversalID(g);
      if id == -1 {
        return cells;
      }
      ghost var was := cells[..];
      var stored := StoreSubclasses(cells, 1, cls, inhp, id, storeName, g, {});
      StoredAll(cells[..], was, Listing(g, cls, inhp), storeName);
      ReleaseTraversalID();
      return cells;
    }
  }

  lemma ListingIs(g: Graph, cls: Defclass, inhp: bool)
    requires Acyclic(g) && cls in g.classes
    ensures cls in g.rank && cls in g.subs && Listing(g, cls, inhp) == Visit(g, g.rank[cls], g.subs[cls], {}, inhp)
  {
  }

  lemma StoredAll(cells: seq<Cell>, was: seq<Cell>, v: seq<Defclass>, storeName: bool)
    requires Stored(cells, was, 1, v, storeName) && |was| == |v|
    ensures |cells| == |v|
    ensures forall k :: 0 <= k < |v| ==> cells[k] == if storeName then Symbol(v[k].name) else ClassPtr(v[k])
  {
  }
}
