/** Linking a new class under its superclasses, and deleting a class with everything that inherits from it. */
module ClassLinks {
  import opened ClassGraph
  import opened DeletionOrder

  /** The classes' own links are those of the snapshot. */
  ghost predicate Matches(g: Graph)
    reads g.classes`directSubclasses, g.classes`directSuperclasses
  {
    && g.subs.Keys == g.classes && g.supers.Keys == g.classes
    && (forall c :: c in g.classes ==> c.directSubclasses == g.subs[c])
    && (forall c :: c in g.classes ==> c.directSuperclasses == g.supers[c])
  }

  ghost predicate WellFormed(g: Graph) { Acyclic(g) && Symmetric(g) }

  function WithoutFirst(s: seq<Defclass>, x: Defclass): seq<Defclass> {
    if s == [] then []
    else if s[0] == x then s[1..]
    else [s[0]] + WithoutFirst(s[1..], x)
  }

  lemma {:induction false} WithoutFirstAt(s: seq<Defclass>, x: Defclass, i: nat)
    requires i <= |s| && x !in s[..i] && (i < |s| ==> s[i] == x)
    ensures WithoutFirst(s, x) == if i == |s| then s else s[..i] + s[i + 1..]
  {
    if i > 0 {
      assert s[1..][..i - 1] == s[..i][1..];
      assert x !in s[1..][..i - 1] && s[0] != x;
      WithoutFirstAt(s[1..], x, i - 1);
      if i < |s| {
        assert [s[0]] + (s[1..][..i - 1] + s[1..][i..]) == s[..i] + s[i + 1..];
      }
    }
  }

  lemma {:induction false} WithoutFirstIs(s: seq<Defclass>, x: Defclass)
    requires Distinct(s)
    ensures WithoutFirst(s, x) == Remaining(s, {x})
  {
    if s != [] {
      assert Distinct(s[1..]) && s[0] !in s[1..];
      WithoutFirstIs(s[1..], x);
      if s[0] == x {
        RemainingAll(s[1..], {x});
        assert Remaining(s, {x}) == Remaining(s[1..], {x});
      }
    }
  }

  method DeleteSubclassLink(sclass: Defclass, cls: Defclass)
    modifies sclass`directSubclasses
    ensures sclass.directSubclasses == WithoutFirst(old(sclass.directSubclasses), cls)
  {
    var src := sclass.directSubclasses;
    var deletedIndex := 0;
    while deletedIndex < |src|
      invariant 0 <= deletedIndex <= |src| && cls !in src[..deletedIndex]
    {
      if src[deletedIndex] == cls {
        break;
      }
      deletedIndex := deletedIndex + 1;
    }
    WithoutFirstAt(src, cls, deletedIndex);
    if deletedIndex == |src| {
      return;
    }
    sclass.directSubclasses := src[..deletedIndex] + src[deletedIndex + 1..];
  }

  /** Deleting a link twice is deleting it once. */
  lemma LinkDeleted(s: seq<Defclass>, cls: Defclass)
    requires Distinct(s)
    ensures WithoutFirst(s, cls) == Remaining(s, {cls})
    ensures WithoutFirst(Remaining(s, {cls}), cls) == Remaining(s, {cls})
  {
    WithoutFirstIs(s, cls);
    RemainingIs(s, {cls});
    RemainingTwice(s, {cls}, {cls});
    WithoutFirstIs(Remaining(s, {cls}), cls);
    assert {cls} + {cls} == {cls};
  }

  /** Unlinks a class without subclasses from all its superclasses. */
  method UnlinkFromSuperclasses(cls: Defclass, ghost g: Graph)
    requires WellFormed(g) && Matches(g) && cls in g.classes && g.subs[cls] == []
    modifies g.classes`directSubclasses
    ensures Matches(Minus(g, {cls}))
  {
    hide *;
    Links(g, cls);
    ghost var supers := cls.directSuperclasses;
    ghost var done: set<Defclass> := {};
    var i := 0;
    while i < |cls.directSuperclasses|
      invariant 0 <= i <= |supers| && cls.directSuperclasses == supers
      invariant forall c :: c in done <==> c in supers[..i]
      invariant forall c :: c in g.classes && c in done ==> c.directSubclasses == Remaining(g.subs[c], {cls})
      invariant forall c :: c in g.classes && c !in done ==> c.directSubclasses == g.subs[c]
    {
      var sclass := cls.directSuperclasses[i];
      assert sclass in supers && sclass in g.classes;
      LinkDeleted(g.subs[sclass], cls);
      DeleteSubclassLink(sclass, cls);
      assert supers[..i + 1] == supers[..i] + [sclass];
      done := done + {sclass};
      i := i + 1;
    }
    assert supers[..i] == supers;
    Unlinked(g, cls);
  }

  lemma Links(g: Graph, cls: Defclass)
    requires WellFormed(g) && Matches(g) && cls in g.classes
    ensures g.subs.Keys == g.classes && g.supers.Keys == g.classes
    ensures forall c :: c in g.classes ==> Distinct(g.subs[c]) && c.directSubclasses == g.subs[c]
    ensures forall c :: c in g.classes ==> c.directSuperclasses == g.supers[c]
    ensures forall c :: c in g.supers[cls] ==> c in g.classes
  {
  }

  lemma Unlinked(g: Graph, cls: Defclass)
    requires WellFormed(g) && cls in g.classes
    requires g.subs.Keys == g.classes && g.supers.Keys == g.classes
    requires forall c :: c in g.classes ==>
      c.directSubclasses == if c in g.supers[cls] then Remaining(g.subs[c], {cls}) else g.subs[c]
    requires forall c :: c in g.classes ==> c.directSuperclasses == g.supers[c]
    ensures Matches(Minus(g, {cls}))
  {
    var m := Minus(g, {cls});
    forall c | c in m.classes ensures c.directSubclasses == m.subs[c] {
      if c !in g.supers[cls] {
        assert cls !in g.subs[c];
        RemainingAll(g.subs[c], {cls});
      }
    }
  }

  // ------------------------------------------------------------------------------------------
  // A new class
  // ------------------------------------------------------------------------------------------

  /** The hierarchy with a new class under `supers`. */
  ghost function Plus(g: Graph, cls: Defclass, supers: seq<Defclass>): Graph {
    Graph(g.classes + {cls},
          map c | c in g.classes + {cls} ::
            if c == cls || c !in g.subs then [] else if c in supers then g.subs[c] + [cls] else g.subs[c],
          map c | c in g.classes + {cls} :: if c == cls || c !in g.supers then supers else g.supers[c],
          map c | c in g.classes + {cls} :: if c == cls || c !in g.rank then 0 else g.rank[c] + 1)
  }

  /** The links of one class of the extended hierarchy. */
  lemma PlusAt(g: Graph, cls: Defclass, supers: seq<Defclass>, c: Defclass)
    requires WellFormed(g) && cls !in g.classes && c in g.classes + {cls}
    ensures var p := Plus(g, cls, supers);
      && c in p.subs && c in p.supers && c in p.rank && c in p.classes
      && p.subs[c] == (if c == cls then [] else if c in supers then g.subs[c] + [cls] else g.subs[c])
      && p.supers[c] == (if c == cls then supers else g.supers[c])
      && p.rank[c] == (if c == cls then 0 else g.rank[c] + 1)
  {
  }

  lemma PlusKeys(g: Graph, cls: Defclass, supers: seq<Defclass>)
    ensures var p := Plus(g, cls, supers);
      p.classes == g.classes + {cls} && p.subs.Keys == p.classes && p.supers.Keys == p.classes &&
        p.rank.Keys == p.classes
  {
  }

  lemma PlusAcyclic(g: Graph, cls: Defclass, supers: seq<Defclass>)
    requires WellFormed(g) && cls !in g.classes
    ensures Acyclic(Plus(g, cls, supers))
  {
    var p := Plus(g, cls, supers);
    PlusKeys(g, cls, supers);
    hide Plus, Symmetric;
    forall c, d | c in p.classes && d in p.subs[c] ensures d in p.classes && p.rank[d] < p.rank[c] {
      PlusAt(g, cls, supers, c);
      if d != cls {
        assert d in g.subs[c];
        PlusAt(g, cls, supers, d);
      } else {
        PlusAt(g, cls, supers, cls);
        assert 0 <= g.rank[c];
      }
    }
  }

  lemma PlusSymmetric(g: Graph, cls: Defclass, supers: seq<Defclass>)
    requires WellFormed(g) && cls !in g.classes && Distinct(supers) && forall s :: s in supers ==> s in g.classes
    ensures Symmetric(Plus(g, cls, supers))
  {
    var p := Plus(g, cls, supers);
    PlusKeys(g, cls, supers);
    hide Plus, Acyclic;
    forall c, d | c in p.classes && d in p.classes ensures d in p.subs[c] <==> c in p.supers[d] {
      PlusLinks(g, cls, supers, c, d);
    }
    forall c, d | c in p.classes && d in p.supers[c] ensures d in p.classes {
      PlusAt(g, cls, supers, c);
    }
    forall c | c in p.classes ensures Distinct(p.subs[c]) {
      PlusAt(g, cls, supers, c);
      if c != cls { NewToAll(g, cls, c); }
    }
  }

  lemma PlusLinks(g: Graph, cls: Defclass, supers: seq<Defclass>, c: Defclass, d: Defclass)
    requires WellFormed(g) && cls !in g.classes && Distinct(supers) && forall s :: s in supers ==> s in g.classes
    requires c in Plus(g, cls, supers).classes && d in Plus(g, cls, supers).classes
    ensures var p := Plus(g, cls, supers);
      c in p.subs && d in p.supers && (d in p.subs[c] <==> c in p.supers[d])
  {
    PlusKeys(g, cls, supers);
    hide Plus, Acyclic;
    PlusAt(g, cls, supers, c);
    PlusAt(g, cls, supers, d);
    if d == cls && c != cls { NewToAll(g, cls, c); }
  }

  lemma NewToAll(g: Graph, cls: Defclass, c: Defclass)
    requires WellFormed(g) && cls !in g.classes && c in g.classes
    ensures cls !in g.subs[c] && cls !in g.supers[c]
  {
  }

  lemma PlusFormed(g: Graph, cls: Defclass, supers: seq<Defclass>)
    requires WellFormed(g) && cls !in g.classes && Distinct(supers) && forall s :: s in supers ==> s in g.classes
    ensures WellFormed(Plus(g, cls, supers))
  {
    hide Acyclic, Symmetric;
    PlusAcyclic(g, cls, supers);
    PlusSymmetric(g, cls, supers);
  }

  /** Appends a link, as AddClassLink does when no place is given. */
  method AddClassLink(sclass: Defclass, cls: Defclass)
    modifies sclass`directSubclasses
    ensures sclass.directSubclasses == old(sclass.directSubclasses) + [cls]
  {
    sclass.directSubclasses := sclass.directSubclasses + [cls];
  }

  /** Enters the class with each of its superclasses; the links stay symmetric and acyclic. */
  method BuildSubclassLinks(cls: Defclass, ghost g: Graph)
    requires WellFormed(g) && Matches(g) && cls !in g.classes && cls.directSubclasses == []
    requires Distinct(cls.directSuperclasses) && forall s :: s in cls.directSuperclasses ==> s in g.classes
    modifies g.classes`directSubclasses
    ensures WellFormed(Plus(g, cls, cls.directSuperclasses)) && Matches(Plus(g, cls, cls.directSuperclasses))
  {
    hide *;
    ghost var supers := cls.directSuperclasses;
    AllLinks(g);
    PlusFormed(g, cls, supers);
    ghost var done: set<Defclass> := {};
    var i := 0;
    while i < |cls.directSuperclasses|
      invariant 0 <= i <= |supers| && cls.directSuperclasses == supers && cls.directSubclasses == []
      invariant forall c :: c in done <==> c in supers[..i]
      invariant forall c :: c in g.classes && c in done ==> c.directSubclasses == g.subs[c] + [cls]
      invariant forall c :: c in g.classes && c !in done ==> c.directSubclasses == g.subs[c]
    {
      var sclass := cls.directSuperclasses[i];
      assert sclass in supers;
      Fresh(supers, i);
      AddClassLink(sclass, cls);
      assert supers[..i + 1] == supers[..i] + [sclass];
      done := done + {sclass};
      i := i + 1;
    }
    assert supers[..i] == supers;
    Linked(g, cls, supers);
  }

  lemma Fresh<T>(s: seq<T>, i: nat)
    requires Distinct(s) && i < |s|
    ensures s[i] !in s[..i]
  {
  }

  lemma AllLinks(g: Graph)
    requires WellFormed(g) && Matches(g)
    ensures g.subs.Keys == g.classes && g.supers.Keys == g.classes
    ensures forall c :: c in g.classes ==> c.directSubclasses == g.subs[c] && c.directSuperclasses == g.supers[c]
  {
  }

  lemma Linked(g: Graph, cls: Defclass, supers: seq<Defclass>)
    requires g.subs.Keys == g.classes && g.supers.Keys == g.classes && cls !in g.classes
    requires cls.directSuperclasses == supers && cls.directSubclasses == []
    requires forall c :: c in g.classes && c in supers ==> c.directSubclasses == g.subs[c] + [cls]
    requires forall c :: c in g.classes && c !in supers ==> c.directSubclasses == g.subs[c]
    requires forall c :: c in g.classes ==> c.directSuperclasses == g.supers[c]
    ensures Matches(Plus(g, cls, supers))
  {
  }

  // ------------------------------------------------------------------------------------------
  // Classes in use
  // ------------------------------------------------------------------------------------------

  /** `busy` are the classes whose busy counts are not zero. */
  ghost predicate BusyAre(g: Graph, busy: set<Defclass>)
    reads g.classes`busy
  {
    forall c :: c in g.classes ==> (c.busy > 0 <==> c in busy)
  }

  /** Whether the class or one that inherits from it is busy. */
  method IsClassBeingUsed(cls: Defclass, ghost g: Graph, ghost busy: set<Defclass>) returns (used: bool)
    requires WellFormed(g) && Matches(g) && BusyAre(g, busy) && cls in g.classes
    ensures used <==> Below(g, cls) * busy != {}
    decreases g.rank[cls]
  {
    hide *;
    Formed(g);
    SelfBelow(g, cls);
    BusyIs(g, busy, cls);
    if cls.busy > 0 {
      assert cls in Below(g, cls) * busy;
      return true;
    }
    Links(g, cls);
    SubsOf(g, cls);
    ghost var subs := cls.directSubclasses;
    var i := 0;
    while i < |cls.directSubclasses|
      invariant 0 <= i <= |subs| && cls.directSubclasses == subs
      invariant forall j :: 0 <= j < i ==> Below(g, subs[j]) * busy == {}
    {
      BelowSub(g, cls, subs[i]);
      var subUsed := IsClassBeingUsed(cls.directSubclasses[i], g, busy);
      if subUsed {
        assert Below(g, subs[i]) * busy <= Below(g, cls) * busy;
        return true;
      }
      i := i + 1;
    }
    NoneBelow(g, cls, busy);
    return false;
  }

  lemma BusyIs(g: Graph, busy: set<Defclass>, c: Defclass)
    requires BusyAre(g, busy) && c in g.classes
    ensures c.busy > 0 <==> c in busy
  {
  }

  lemma NoneBelow(g: Graph, cls: Defclass, busy: set<Defclass>)
    requires Acyclic(g) && cls in g.classes && cls !in busy
    requires forall j :: 0 <= j < |g.subs[cls]| ==> Below(g, g.subs[cls][j]) * busy == {}
    ensures Below(g, cls) * busy == {}
  {
    hide IsA, Below;
    BelowSplits(g, cls);
    forall d | d in Below(g, cls) ensures d !in busy {
      if d != cls {
        var i :| 0 <= i < |g.subs[cls]| && d in Below(g, g.subs[cls][i]);
        assert d !in Below(g, g.subs[cls][i]) * busy;
      }
    }
  }

  lemma Formed(g: Graph)
    ensures WellFormed(g) <==> Acyclic(g) && Symmetric(g)
  {
  }

  lemma SubsOf(g: Graph, cls: Defclass)
    requires Acyclic(g) && cls in g.classes
    ensures forall i :: 0 <= i < |g.subs[cls]| ==>
      g.subs[cls][i] in g.classes && 0 <= g.rank[g.subs[cls][i]] < g.rank[cls]
  {
  }

  // ------------------------------------------------------------------------------------------
  // Deletion
  // ------------------------------------------------------------------------------------------

  /** The classes that may not be deleted. */
  ghost function Protected(g: Graph, busy: set<Defclass>): set<Defclass> {
    set c | c in g.classes && (c.system || c in busy)
  }

  /** What may have been deleted below `cls` before `cls` itself goes. */
  ghost predicate Underway(g: Graph, busy: set<Defclass>, cls: Defclass, gone: set<Defclass>) {
    && Downward(g, gone) && gone <= Below(g, cls) && cls !in gone && gone * Protected(g, busy) == {}
  }

  lemma UnderwayIs(g: Graph, busy: set<Defclass>, cls: Defclass, gone: set<Defclass>)
    requires Underway(g, busy, cls, gone)
    ensures Downward(g, gone) && gone <= Below(g, cls) && cls !in gone && gone * Protected(g, busy) == {}
  {
  }

  lemma StartUnderway(g: Graph, busy: set<Defclass>, cls: Defclass)
    requires WellFormed(g)
    ensures Underway(g, busy, cls, {}) && Minus(g, {}) == g
  {
    MinusNone(g);
  }

  lemma BelowMinus(g: Graph, gone: set<Defclass>, c: Defclass)
    requires Acyclic(g) && c in g.classes - gone
    ensures Below(Minus(g, gone), c) <= Below(g, c) - gone
  {
    forall d | d in Below(Minus(g, gone), c) ensures d in Below(g, c) - gone {
      IsAMinus(g, gone, d, c);
    }
  }

  lemma SubBelow(g: Graph, cls: Defclass, sub: Defclass)
    requires Acyclic(g) && cls in g.classes && sub in g.subs[cls]
    ensures cls !in Below(g, sub)
  {
    if IsA(g, cls, sub) { IsAIn(g, cls, sub); }
  }

  lemma StillUnderway(g: Graph, busy: set<Defclass>, cls: Defclass, gone: set<Defclass>, sub: Defclass,
                      more: set<Defclass>)
    requires WellFormed(g) && cls in g.classes && Underway(g, busy, cls, gone)
    requires sub in g.subs[cls] && sub !in gone
    requires Downward(Minus(g, gone), more) && more <= Below(Minus(g, gone), sub)
    requires more * Protected(Minus(g, gone), busy) == {}
    ensures Underway(g, busy, cls, gone + more) && Minus(Minus(g, gone), more) == Minus(g, gone + more)
  {
    hide IsA, WellFormed;
    Formed(g);
    MinusTwice(g, gone, more);
    BelowMinus(g, gone, sub);
    BelowSub(g, cls, sub);
    SubBelow(g, cls, sub);
    forall c, d | c in gone + more && c in g.subs && d in g.subs[c] ensures d in gone + more {
      if c !in gone && d !in gone {
        RemainingIs(g.subs[c], gone);
        assert d in Minus(g, gone).subs[c];
      }
    }
  }

  /** With all subclasses gone, the class itself may follow. */
  lemma Finished(g: Graph, busy: set<Defclass>, cls: Defclass, gone: set<Defclass>)
    requires WellFormed(g) && cls in g.classes && Underway(g, busy, cls, gone) && Remaining(g.subs[cls], gone) == []
    ensures Downward(g, gone + {cls}) && gone + {cls} == Below(g, cls)
    ensures cls !in Protected(g, busy) ==> Below(g, cls) * Protected(g, busy) == {}
  {
    hide IsA, WellFormed;
    Formed(g);
    RemainingIs(g.subs[cls], gone);
    SelfBelow(g, cls);
    BelowAll(g, cls, gone + {cls});
  }

  lemma BelowAll(g: Graph, cls: Defclass, gone: set<Defclass>)
    requires Acyclic(g) && cls in g.classes && cls in gone && Downward(g, gone)
    ensures Below(g, cls) <= gone
  {
    forall d | d in Below(g, cls) ensures d in gone {
      DownwardHolds(g, gone, d, cls);
    }
  }

  lemma MinusFormed(g: Graph, gone: set<Defclass>)
    requires WellFormed(g) && Downward(g, gone)
    ensures WellFormed(Minus(g, gone))
  {
    MinusAcyclic(g, gone);
    MinusSymmetric(g, gone);
  }

  /** If a subclass cannot go, neither can the class. */
  lemma Hindered(g: Graph, busy: set<Defclass>, cls: Defclass, gone: set<Defclass>, sub: Defclass)
    requires WellFormed(g) && cls in g.classes && sub in g.subs[cls] && sub !in gone
    requires Below(Minus(g, gone), sub) * Protected(Minus(g, gone), busy) != {}
    ensures Below(g, cls) * Protected(g, busy) != {}
  {
    hide IsA, WellFormed;
    Formed(g);
    BelowMinus(g, gone, sub);
    BelowSub(g, cls, sub);
    var d :| d in Below(Minus(g, gone), sub) * Protected(Minus(g, gone), busy);
    assert d in Below(g, cls) * Protected(g, busy);
  }

  lemma NextSub(g: Graph, busy: set<Defclass>, cls: Defclass, gone: set<Defclass>)
    requires WellFormed(g) && cls in g.classes && Underway(g, busy, cls, gone)
    requires Matches(Minus(g, gone)) && BusyAre(g, busy) && |cls.directSubclasses| > 0
    ensures cls.directSubclasses == Remaining(g.subs[cls], gone)
    ensures cls.directSubclasses[0] in g.subs[cls] && cls.directSubclasses[0] !in gone
    ensures cls.directSubclasses[0] in Minus(g, gone).classes && BusyAre(Minus(g, gone), busy)
    ensures Minus(g, gone).classes <= g.classes
    ensures 0 <= Minus(g, gone).rank[cls.directSubclasses[0]] < g.rank[cls]
    ensures cls.directSubclasses[0] in g.classes && g.rank[cls.directSubclasses[0]] < g.rank[cls]
  {
    hide IsA;
    RemainingIs(g.subs[cls], gone);
    assert cls in Minus(g, gone).classes;
  }

  lemma BelowLeaf(g: Graph, cls: Defclass)
    requires cls in g.classes && cls in g.subs && g.subs[cls] == []
    ensures Below(g, cls) == {cls}
  {
  }

  lemma Alone(g: Graph, busy: set<Defclass>, cls: Defclass, gone: set<Defclass>)
    requires WellFormed(g) && cls in g.classes && Underway(g, busy, cls, gone)
    requires Matches(Minus(g, gone)) && BusyAre(g, busy) && cls.directSubclasses == []
    ensures Remaining(g.subs[cls], gone) == [] && cls in Minus(g, gone).classes && Minus(g, gone).subs[cls] == []
    ensures BusyAre(Minus(g, gone), busy) && Below(Minus(g, gone), cls) == {cls}
    ensures cls in Protected(g, busy) <==> cls.system || cls in busy
    ensures cls in Below(g, cls) && Minus(g, gone).classes <= g.classes
  {
    hide IsA, Below;
    assert cls in Minus(g, gone).classes;
    BelowLeaf(Minus(g, gone), cls);
    SelfBelow(g, cls);
  }

  /** A class with no subclasses left may go if and only if nothing below it was protected. */
  lemma DeletableAlone(g: Graph, busy: set<Defclass>, cls: Defclass, gone: set<Defclass>)
    requires cls in Below(g, cls) && (cls in Protected(g, busy) <==> cls.system || cls in busy)
    requires cls !in Protected(g, busy) ==> Below(g, cls) * Protected(g, busy) == {}
    requires Below(Minus(g, gone), cls) == {cls}
    ensures !cls.system && Below(Minus(g, gone), cls) * busy == {} <==> Below(g, cls) * Protected(g, busy) == {}
  {
    hide Below, Protected, Minus;
    if cls in Protected(g, busy) {
      assert cls in Below(g, cls) * Protected(g, busy);
      assert cls in busy ==> cls in {cls} * busy;
    }
  }

  lemma AfterSub(g: Graph, busy: set<Defclass>, cls: Defclass, gone: set<Defclass>, sub: Defclass, more: set<Defclass>)
    requires WellFormed(g) && cls in g.classes && Underway(g, busy, cls, gone + more) && sub in g.subs[cls]
    requires sub !in gone
    requires Matches(Minus(g, gone + more))
    ensures cls.directSubclasses == Remaining(g.subs[cls], gone + more)
    ensures |cls.directSubclasses| <= |Remaining(g.subs[cls], gone)|
    ensures sub in more ==> |cls.directSubclasses| < |Remaining(g.subs[cls], gone)|
  {
    hide IsA;
    assert cls in Minus(g, gone + more).classes;
    RemainingTwice(g.subs[cls], gone, more);
    RemainingIs(g.subs[cls], gone);
    RemainingIs(Remaining(g.subs[cls], gone), more);
  }

  /** What goes when deletion comes to the classes in order and stops at the first that is protected. */
  ghost function Doomed(g: Graph, busy: set<Defclass>, c: Defclass): set<Defclass> {
    Elements(UpTo(Order(g, c), Protected(g, busy)))
  }

  /** The classes gone so far are the first in the order, and the subclasses left lead to the rest of it. */
  ghost predicate Trail(g: Graph, cls: Defclass, l: seq<Defclass>, gone: set<Defclass>) {
    && cls in g.subs && cls in g.rank && gone == Elements(l)
    && Order(g, cls) == Visit(g, Remaining(g.subs[cls], gone), g.rank[cls], l) + [cls]
  }

  lemma TrailStarts(g: Graph, cls: Defclass)
    requires Acyclic(g) && cls in g.classes
    ensures Trail(g, cls, [], {})
  {
    RemainingAll(g.subs[cls], {});
    var n, m := g.rank[cls], Visit(g, g.subs[cls], g.rank[cls], []) + [cls];
    assert Visit(g, [cls], n + 1, []) == Visit(g, [cls][1..], n + 1, m);
  }

  /** The next subclass brings its own part of the order. */
  lemma TrailNext(g: Graph, cls: Defclass, l: seq<Defclass>, gone: set<Defclass>, sub: Defclass)
    requires Acyclic(g) && cls in g.classes && Trail(g, cls, l, gone) && sub !in gone && sub in g.classes
    requires Remaining(g.subs[cls], gone) != [] && Remaining(g.subs[cls], gone)[0] == sub && g.rank[sub] < g.rank[cls]
    ensures Visit(g, Remaining(g.subs[cls], gone), g.rank[cls], l)
         == Visit(g, Remaining(g.subs[cls], gone)[1..], g.rank[cls], l + Order(Minus(g, gone), sub))
  {
    hide IsA;
    var h := Minus(g, gone);
    VisitMinus(g, [sub], g.rank[sub] + 1, l, []);
    assert l + [] == l && Remaining([sub], gone) == [sub];
    var m := Visit(g, g.subs[sub], g.rank[sub], l) + [sub];
    assert Visit(g, [sub], g.rank[sub] + 1, l) == Visit(g, [sub][1..], g.rank[sub] + 1, m) == m;
  }

  lemma TrailGoesOn(g: Graph, busy: set<Defclass>, cls: Defclass, l: seq<Defclass>, gone: set<Defclass>, sub: Defclass)
    requires Acyclic(g) && cls in g.classes && Trail(g, cls, l, gone) && sub !in gone && sub in g.classes
    requires Remaining(g.subs[cls], gone) != [] && Remaining(g.subs[cls], gone)[0] == sub && g.rank[sub] < g.rank[cls]
    ensures var h := Minus(g, gone);
      Trail(g, cls, l + UpTo(Order(h, sub), Protected(h, busy)), gone + Doomed(h, busy, sub))
  {
    hide IsA, Visit, Order, Protected;
    TrailNext(g, cls, l, gone, sub);
    var h, rest, n := Minus(g, gone), Remaining(g.subs[cls], gone), g.rank[cls];
    var o := Order(h, sub);
    var part := UpTo(o, Protected(h, busy));
    UpToPrefix(o, Protected(h, busy));
    VisitExtends(g, rest[1..], n, l + o);
    VisitResumes(g, rest, n, l, l + part);
    RemainingTwice(g.subs[cls], gone, Elements(part));
    VisitSkips(g, rest, n, l + part, Elements(part));
  }

  /** With all subclasses gone, the class is the last in the order. */
  lemma TrailEnds(g: Graph, busy: set<Defclass>, cls: Defclass, l: seq<Defclass>, gone: set<Defclass>)
    requires Trail(g, cls, l, gone) && Remaining(g.subs[cls], gone) == [] && gone * Protected(g, busy) == {}
    ensures Doomed(g, busy, cls) == if cls in Protected(g, busy) then gone else gone + {cls}
  {
    hide IsA, Order, Protected;
    var p := Protected(g, busy);
    assert Visit(g, [], g.rank[cls], l) == l;
    FreeOf(l, gone, p);
    UpToFree(l, p, [cls]);
    assert UpTo([cls], p) == if cls in p then [] else [cls];
    assert l + [] == l;
  }

  lemma FreeOf(l: seq<Defclass>, gone: set<Defclass>, p: set<Defclass>)
    requires gone == Elements(l) && gone * p == {}
    ensures forall i :: 0 <= i < |l| ==> l[i] !in p
  {
    forall i | 0 <= i < |l| ensures l[i] !in p {
      assert l[i] in gone;
      assert l[i] !in gone * p;
    }
  }

  lemma ProtectedStay(g: Graph, busy: set<Defclass>, gone: set<Defclass>, o: seq<Defclass>)
    requires Elements(o) <= Minus(g, gone).classes
    ensures forall i :: 0 <= i < |o| ==> (o[i] in Protected(Minus(g, gone), busy) <==> o[i] in Protected(g, busy))
  {
    forall i | 0 <= i < |o| ensures o[i] in Minus(g, gone).classes {
      assert o[i] in Elements(o);
    }
  }

  /** When a subclass cannot go, the order stops within its part. */
  lemma TrailStops(g: Graph, busy: set<Defclass>, cls: Defclass, l: seq<Defclass>, gone: set<Defclass>, sub: Defclass)
    requires Acyclic(g) && gone * Protected(g, busy) == {} && cls in g.classes && Trail(g, cls, l, gone)
    requires sub !in gone && sub in g.classes && g.rank[sub] < g.rank[cls]
    requires Remaining(g.subs[cls], gone) != [] && Remaining(g.subs[cls], gone)[0] == sub
    requires Below(Minus(g, gone), sub) * Protected(Minus(g, gone), busy) != {}
    ensures Doomed(g, busy, cls) == gone + Doomed(Minus(g, gone), busy, sub)
  {
    hide IsA, Order, Visit, Protected, UpTo, Acyclic;
    var h, n := Minus(g, gone), g.rank[cls];
    var o, p := Order(h, sub), Protected(g, busy);
    var rest := Remaining(g.subs[cls], gone)[1..];
    TrailNext(g, cls, l, gone, sub);
    MinusAcyclic(g, gone);
    OrderIs(h, sub);
    ProtectedStay(g, busy, gone, o);
    VisitExtends(g, rest, n, l + o);
    var z := Visit(g, rest, n, l + o)[|l + o|..] + [cls];
    assert Order(g, cls) == l + (o + z);
    FreeOf(l, gone, p);
    UpToFree(l, p, o + z);
    UpToStops(o, Protected(h, busy), p, z);
  }

  class Defclasses {
    /** All classes, in the order of their definition. */
    var classes: seq<Defclass>
    var constructsDeletable: bool

    constructor ()
      ensures classes == [] && constructsDeletable
    {
      classes, constructsDeletable := [], true;
    }

    method EnvIsDefclassDeletable(cls: Defclass, ghost g: Graph, ghost busy: set<Defclass>) returns (deletable: bool)
      requires WellFormed(g) && Matches(g) && BusyAre(g, busy) && cls in g.classes
      ensures deletable <==> constructsDeletable && !cls.system && Below(g, cls) * busy == {}
    {
      if !constructsDeletable {
        return false;
      }
      if cls.system {
        return false;
      }
      var used := IsClassBeingUsed(cls, g, busy);
      return !used;
    }

    /** Takes the class off the list of all classes. */
    method RemoveConstructFromModule(cls: Defclass)
      requires Distinct(classes)
      modifies this`classes
      ensures classes == Remaining(old(classes), {cls})
    {
      var i := 0;
      while i < |classes|
        invariant 0 <= i <= |classes| && classes == old(classes) && cls !in classes[..i]
      {
        if classes[i] == cls {
          break;
        }
        i := i + 1;
      }
      WithoutFirstAt(classes, cls, i);
      WithoutFirstIs(classes, cls);
      if i < |classes| {
        classes := classes[..i] + classes[i + 1..];
      }
    }

    /** The class itself, when nothing inherits from it any more. */
    method DeleteAlone(cls: Defclass, ghost g: Graph, ghost busy: set<Defclass>, ghost gone: set<Defclass>)
      returns (done: bool)
      requires WellFormed(g) && cls in g.classes && Underway(g, busy, cls, gone) && Distinct(classes)
      requires BusyAre(g, busy)
      requires WellFormed(Minus(g, gone)) && Matches(Minus(g, gone)) && cls.directSubclasses == []
      modifies this`classes, g.classes`directSubclasses
      ensures done <==> constructsDeletable && Below(g, cls) * Protected(g, busy) == {}
      ensures done ==> gone + {cls} == Below(g, cls) && Downward(g, gone + {cls})
      ensures done ==> Matches(Minus(g, gone + {cls})) && classes == Remaining(old(classes), {cls})
      ensures done ==> WellFormed(Minus(g, gone + {cls})) && (gone + {cls}) * Protected(g, busy) == {}
      ensures !done ==> Matches(Minus(g, gone)) && classes == old(classes)
    {
      hide *;
      ghost var h := Minus(g, gone);
      Alone(g, busy, cls, gone);
      Finished(g, busy, cls, gone);
      DeletableAlone(g, busy, cls, gone);
      var deletable := EnvIsDefclassDeletable(cls, h, busy);
      if deletable {
        MinusTwice(g, gone, {cls});
        MinusFormed(g, gone + {cls});
        RemoveConstructFromModule(cls);
        UnlinkFromSuperclasses(cls, h);
        return true;
      }
      return false;
    }

    /** Deletes a class with everything that inherits from it, unless some of that is protected: then what comes
        before the first protected class in the order is gone, and the class stays. */
    method DeleteClassUAG(cls: Defclass, ghost g: Graph, ghost busy: set<Defclass>)
      returns (done: bool, ghost gone: set<Defclass>)
      requires WellFormed(g) && Matches(g) && BusyAre(g, busy) && cls in g.classes && Distinct(classes)
      modifies this`classes, g.classes`directSubclasses
      ensures done <==> constructsDeletable && Below(g, cls) * Protected(g, busy) == {}
      ensures if done then gone == Below(g, cls) else Underway(g, busy, cls, gone)
      ensures gone == if constructsDeletable then Doomed(g, busy, cls) else {}
      ensures Downward(g, gone) && gone <= Below(g, cls) && gone * Protected(g, busy) == {}
      ensures WellFormed(Minus(g, gone)) && Matches(Minus(g, gone)) && classes == Remaining(old(classes), gone)
      decreases g.rank[cls]
    {
      hide *;
      gone := {};
      ghost var l: seq<Defclass> := [];
      StartUnderway(g, busy, cls);
      Formed(g);
      SelfBelow(g, cls);
      TrailStarts(g, cls);
      RemainingAll(classes, gone);
      while |cls.directSubclasses| != 0
        invariant Underway(g, busy, cls, gone) && Trail(g, cls, l, gone) && (!constructsDeletable ==> gone == {})
        invariant WellFormed(Minus(g, gone)) && Matches(Minus(g, gone)) && classes == Remaining(old(classes), gone)
        decreases |cls.directSubclasses|
      {
        ghost var h := Minus(g, gone);
        var subCount := |cls.directSubclasses|;
        ghost var sub := cls.directSubclasses[0];
        NextSub(g, busy, cls, gone);
        SelfBelow(h, sub);
        RemainingIs(old(classes), gone);
        var subDone;
        ghost var more;
        subDone, more := DeleteClassUAG(cls.directSubclasses[0], h, busy);
        StillUnderway(g, busy, cls, gone, sub, more);
        RemainingTwice(old(classes), gone, more);
        AfterSub(g, busy, cls, gone, sub, more);
        UnderwayIs(g, busy, cls, gone);
        if !constructsDeletable { assert gone + more == gone; }
        if |cls.directSubclasses| == subCount {
          if constructsDeletable {
            Hindered(g, busy, cls, gone, sub);
            TrailStops(g, busy, cls, l, gone, sub);
          }
          gone := gone + more;
          UnderwayIs(g, busy, cls, gone);
          return false, gone;
        }
        if constructsDeletable {
          TrailGoesOn(g, busy, cls, l, gone, sub);
          l := l + UpTo(Order(h, sub), Protected(h, busy));
        }
        gone := gone + more;
      }
      UnderwayIs(g, busy, cls, gone);
      Alone(g, busy, cls, gone);
      TrailEnds(g, busy, cls, l, gone);
      Finished(g, busy, cls, gone);
      RemainingIs(old(classes), gone);
      RemainingTwice(old(classes), gone, {cls});
      done := DeleteAlone(cls, g, busy, gone);
      if done {
        gone := gone + {cls};
      }
    }
  }
}
