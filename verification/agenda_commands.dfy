/** The operations on a whole agenda. */
module AgendaCommands {
  import opened AgendaOrder
  import opened Agenda

  /** The activations whose rules are none of `rules`. */
  function Kept(acts: seq<Activation>, rules: seq<Defrule>): seq<Activation> {
    if acts == [] then []
    else
      var front := Kept(acts[..|acts| - 1], rules);
      if acts[|acts| - 1].theRule in rules then front else front + [acts[|acts| - 1]]
  }

  lemma KeptNext(acts: seq<Activation>, rules: seq<Defrule>, i: nat)
    requires i < |acts|
    ensures Kept(acts[..i + 1], rules) == Kept(acts[..i], rules) + if acts[i].theRule in rules then [] else [acts[i]]
  {
    assert acts[..i + 1][..i] == acts[..i];
  }

  /** What Kept keeps, without its recursion: the same activations but for the given rules' own. */
  lemma {:induction false} KeptIs(acts: seq<Activation>, rules: seq<Defrule>)
    ensures forall a :: a in Kept(acts, rules) <==> a in acts && a.theRule !in rules
    ensures |Kept(acts, rules)| <= |acts|
  {
    if acts != [] {
      var n := |acts| - 1;
      KeptIs(acts[..n], rules);
      assert acts == acts[..n] + [acts[n]];
    }
  }

  /** Whether the activation is of one of the disjuncts. */
  method OfSomeDisjunct(theActivation: Activation, disjuncts: seq<Defrule>) returns (found: bool)
    ensures found <==> theActivation.theRule in disjuncts
  {
    var j := 0;
    while j < |disjuncts|
      invariant j <= |disjuncts| && theActivation.theRule !in disjuncts[..j]
    {
      if theActivation.theRule == disjuncts[j] {
        return true;
      }
      j := j + 1;
    }
    return false;
  }

  /** The list's neighbours of position `p`. */
  lemma NextOnAgenda(m: DefruleModule, p: nat)
    requires m.Valid() && p < |m.acts|
    ensures m.acts[p].next == ActAt(m.acts, p + 1) && m.agenda == ActAt(m.acts, 0) && Distinct(m.acts)
  {
  }

  /** One turn of the loop: activation `i` stays or goes. */
  method ClearOne(m: DefruleModule, agendaPtr: Activation, disjuncts: seq<Defrule>, ghost all: seq<Activation>,
                  ghost i: nat,
                  ghost acts: set<Activation>, ghost groups: set<SalienceGroup>)
    returns (agendaNext: Activation?)
    requires Within(m, acts, groups)
    requires m.Valid() && i < |all| && agendaPtr == ActAt(all, i)
    requires m.acts == Kept(all[..i], disjuncts) + all[i..]
    modifies m`agenda, m`acts, m`groupings, m`groups, m`cuts, m`agendaChanged, m`numberOfActivations
    modifies acts`prev, acts`next, groups`prev, groups`next, groups`first, groups`last, agendaPtr.basis`marker
    ensures agendaNext == ActAt(all, i + 1)
    ensures m.Valid() && m.acts == Kept(all[..i + 1], disjuncts) + all[i + 1..]
    ensures m.numberOfActivations == old(m.numberOfActivations) - (old(|m.acts|) - |m.acts|)
    ensures agendaPtr.theRule in disjuncts ==> agendaPtr.basis.marker == null
    ensures agendaPtr.basis.marker == null || agendaPtr.basis.marker == old(agendaPtr.basis.marker)
    ensures Within(m, acts, groups)
    ensures old(m.Ordered()) ==> m.Ordered()
  {
    hide *;
    ActAtIs(all, i);
    ActAtIs(all, i + 1);
    KeptNext(all, disjuncts, i);
    WithinIs(m, acts, groups);
    ghost var p := |Kept(all[..i], disjuncts)|;
    NextOnAgenda(m, p);
    ActAtIs(m.acts, p + 1);
    agendaNext := agendaPtr.next;
    var found := OfSomeDisjunct(agendaPtr, disjuncts);
    if found {
      DropFromMiddle(Kept(all[..i], disjuncts), all, i);
      WithoutDistinct(m.acts, p);
      m.RemoveActivation(agendaPtr, true, true, p);
    } else {
      KeepInMiddle(Kept(all[..i], disjuncts), all, i);
    }
    WithinIs(m, acts, groups);
  }

  /** Clearing a rule removes the activations of its disjuncts and no others, and keeps the order of the rest. */
  method ClearRuleFromAgenda(m: DefruleModule, disjuncts: seq<Defrule>, ghost matches: set<PartialMatch>,
                             ghost acts: set<Activation>, ghost groups: set<SalienceGroup>)
    requires m.Valid() && Within(m, acts, groups) && forall a :: a in acts ==> a.basis in matches
    modifies m`agenda, m`acts, m`groupings, m`groups, m`cuts, m`agendaChanged, m`numberOfActivations
    modifies acts`prev, acts`next, groups`prev, groups`next, groups`first, groups`last, matches`marker
    ensures m.Valid() && m.acts == Kept(old(m.acts), disjuncts)
    ensures m.numberOfActivations == old(m.numberOfActivations) - (|old(m.acts)| - |m.acts|)
    ensures forall a :: a in old(m.acts) && a.theRule in disjuncts ==> a.basis.marker == null
    ensures old(m.Ordered()) ==> m.Ordered()
  {
    hide *;
    ghost var all := m.acts;
    ghost var i := 0;
    KeptNone(all, disjuncts);
    var agendaPtr := m.agenda;
    AgendaHead(m);
    while agendaPtr != null
      invariant 0 <= i <= |all| && agendaPtr == ActAt(all, i)
      invariant m.Valid() && Within(m, acts, groups) && m.acts == Kept(all[..i], disjuncts) + all[i..]
      invariant m.numberOfActivations == old(m.numberOfActivations) - (|all| - |m.acts|)
      invariant forall j :: 0 <= j < i && all[j].theRule in disjuncts ==> all[j].basis.marker == null
      invariant old(m.Ordered()) ==> m.Ordered()
      decreases |all| - i
    {
      ActAtIs(all, i);
      TailWithin(m, acts, groups, Kept(all[..i], disjuncts), all, i);
      agendaPtr := ClearOne(m, agendaPtr, disjuncts, all, i, acts, groups);
      i := i + 1;
    }
    ActAtIs(all, i);
    assert all[..i] == all && all[i..] == [];
  }

  lemma WithinIs(m: DefruleModule, acts: set<Activation>, groups: set<SalienceGroup>)
    ensures Within(m, acts, groups) <==>
      (forall a :: a in m.acts ==> a in acts) && (forall g :: g in m.groups ==> g in groups)
  {
  }

  /** Bounds on the objects the agenda consists of. */
  ghost predicate Within(m: DefruleModule, acts: set<Activation>, groups: set<SalienceGroup>)
    reads m`acts, m`groups
  {
    (forall a :: a in m.acts ==> a in acts) && (forall g :: g in m.groups ==> g in groups)
  }

  lemma TailWithin(m: DefruleModule, acts: set<Activation>, groups: set<SalienceGroup>,
                   front: seq<Activation>, all: seq<Activation>, i: nat)
    requires Within(m, acts, groups) && i < |all| && m.acts == front + all[i..]
    ensures all[i] in acts
  {
    assert m.acts[|front|] == all[i];
  }

  lemma KeptNone(all: seq<Activation>, rules: seq<Defrule>)
    ensures Kept(all[..0], rules) + all[0..] == all
  {
  }

  lemma AgendaHead(m: DefruleModule)
    requires m.Valid()
    ensures m.agenda == ActAt(m.acts, 0) && Distinct(m.acts)
  {
  }

  lemma DropFromMiddle(front: seq<Activation>, all: seq<Activation>, i: nat)
    requires i < |all|
    ensures Without(front + all[i..], |front|) == front + all[i + 1..]
  {
  }

  lemma KeepInMiddle(front: seq<Activation>, all: seq<Activation>, i: nat)
    requires i < |all|
    ensures front + all[i..] == front + [all[i]] + all[i + 1..]
  {
  }

  // ------------------------------------------------------------------------------------------
  // Removing all activations
  // ------------------------------------------------------------------------------------------

  /** Clearing the agenda leaves neither activations nor groups. */
  method RemoveAllActivations(m: DefruleModule, ghost matches: set<PartialMatch>,
                              ghost acts: set<Activation>, ghost groups: set<SalienceGroup>)
    requires m.Valid() && Within(m, acts, groups) && forall a :: a in acts ==> a.basis in matches
    modifies m`agenda, m`acts, m`groupings, m`groups, m`cuts, m`agendaChanged, m`numberOfActivations
    modifies acts`prev, acts`next, groups`prev, groups`next, groups`first, groups`last, matches`marker
    ensures m.Valid() && m.acts == [] && m.groups == [] && m.agenda == null && m.groupings == null
    ensures m.numberOfActivations == old(m.numberOfActivations) - |old(m.acts)|
    ensures forall a :: a in old(m.acts) ==> a.basis.marker == null
  {
    hide *;
    ghost var all := m.acts;
    ghost var i := 0;
    AgendaHead(m);
    var theActivation := m.agenda;
    while theActivation != null
      invariant 0 <= i <= |all| && theActivation == ActAt(all, i)
      invariant m.Valid() && Within(m, acts, groups) && m.acts == all[i..]
      invariant m.numberOfActivations == old(m.numberOfActivations) - i
      invariant forall j :: 0 <= j < i ==> all[j].basis.marker == null
      decreases |all| - i
    {
      ActAtIs(all, i);
      TailWithin(m, acts, groups, [], all, i);
      theActivation := RemoveFirst(m, theActivation, all, i, acts, groups);
      i := i + 1;
    }
    ActAtIs(all, i);
    NoGroups(m);
    FreeGroups(m);
  }

  lemma NoGroups(m: DefruleModule)
    requires m.Valid() && |m.acts| == 0
    ensures m.acts == [] && m.groups == [] && m.agenda == null && m.groupings == null
    ensures m.groupings == GroupOf(m.groups, 0) && GroupsChained(m.groups)
  {
    hide ActsChained, Bounded, Grouped;
    NothingGrouped(Saliences(m.acts), GroupSaliences(m.groups), m.cuts);
  }

  lemma NothingGrouped(sal: seq<int>, gsal: seq<int>, cuts: seq<int>)
    requires Grouped(sal, gsal, cuts, NO_HOLE) && sal == []
    ensures gsal == []
  {
    if |gsal| > 0 {
      CutsAround(sal, gsal, cuts, NO_HOLE, 0, 0);
    }
  }

  method RemoveFirst(m: DefruleModule, theActivation: Activation, ghost all: seq<Activation>, ghost i: nat,
                     ghost acts: set<Activation>, ghost groups: set<SalienceGroup>)
    returns (tempPtr: Activation?)
    requires m.Valid() && Within(m, acts, groups) && i < |all| && theActivation == all[i] && m.acts == all[i..]
    modifies m`agenda, m`acts, m`groupings, m`groups, m`cuts, m`agendaChanged, m`numberOfActivations
    modifies acts`prev, acts`next, groups`prev, groups`next, groups`first, groups`last, theActivation.basis`marker
    ensures tempPtr == ActAt(all, i + 1) && m.Valid() && Within(m, acts, groups) && m.acts == all[i + 1..]
    ensures m.numberOfActivations == old(m.numberOfActivations) - 1 && theActivation.basis.marker == null
  {
    hide *;
    WithinIs(m, acts, groups);
    NextOnAgenda(m, 0);
    ActAtIs(all, i + 1);
    ActAtIs(m.acts, 1);
    DropFromMiddle([], all, i);
    assert [] + all[i..] == all[i..] && [] + all[i + 1..] == all[i + 1..];
    WithoutDistinct(m.acts, 0);
    tempPtr := theActivation.next;
    m.RemoveActivation(theActivation, true, true, 0);
    WithinIs(m, acts, groups);
  }

  // ------------------------------------------------------------------------------------------
  // Reordering
  // ------------------------------------------------------------------------------------------

  /** One activation back on the agenda, and the next of the old list. */
  method ReplaceOne(m: DefruleModule, theActivation: Activation, ghost placed: set<Activation>,
                    ghost groups: set<SalienceGroup>)
    returns (tempPtr: Activation?, ghost p: nat, ghost newGroups: set<SalienceGroup>)
    requires m.Valid() && m.Ordered() && Within(m, placed, groups) && theActivation !in placed
    modifies m`agenda, m`acts, m`groupings, m`groups, m`cuts, m`agendaChanged
    modifies placed`prev, placed`next, groups`prev, groups`next, groups`first, groups`last
    modifies theActivation`prev, theActivation`next
    ensures tempPtr == old(theActivation.next) && multiset(m.acts) == multiset(old(m.acts)) + multiset{theActivation}
    ensures m.Valid() && m.Ordered() && p <= |old(m.acts)| && m.acts == With(old(m.acts), p, theActivation)
    ensures Within(m, placed + {theActivation}, newGroups) && forall g :: g in newGroups ==> g in groups || fresh(g)
  {
    hide *;
    WithinIs(m, placed, groups);
    tempPtr := theActivation.next;
    theActivation.next := null;
    theActivation.prev := null;
    p := m.GroupAndPlace(theActivation);
    WithMembers(old(m.acts), p, theActivation);
    newGroups := set g | g in m.groups;
    WithinIs(m, placed + {theActivation}, newGroups);
  }

  lemma WithMembers<T>(s: seq<T>, p: nat, x: T)
    requires p <= |s|
    ensures multiset(With(s, p, x)) == multiset(s) + multiset{x}
    ensures forall y :: y in With(s, p, x) <==> y in s || y == x
  {
    assert s == s[..p] + s[p..];
  }

  /** Places the activations of the old list, one by one. */
  method ReplaceAll(m: DefruleModule, first: Activation?, ghost all: seq<Activation>, ghost acts: set<Activation>)
    returns (ghost newGroups: set<SalienceGroup>)
    requires m.Valid() && m.Ordered() && m.acts == [] && m.groups == []
    requires Distinct(all) && first == ActAt(all, 0) && forall a :: a in all ==> a in acts
    requires forall j :: 0 <= j < |all| ==> all[j].next == ActAt(all, j + 1)
    modifies m`agenda, m`acts, m`groupings, m`groups, m`cuts, m`agendaChanged, acts`prev, acts`next
    ensures m.Valid() && m.Ordered() && multiset(m.acts) == multiset(all)
    ensures Within(m, acts, newGroups) && forall g :: g in newGroups ==> fresh(g)
  {
    hide *;
    var theActivation := first;
    ghost var i := 0;
    ghost var placed: set<Activation> := {};
    newGroups := {};
    WithinIs(m, placed, newGroups);
    assert all[..0] == [];
    while theActivation != null
      invariant 0 <= i <= |all| && theActivation == ActAt(all, i) && placed <= acts
      invariant m.Valid() && m.Ordered() && Within(m, placed, newGroups) && forall g :: g in newGroups ==> fresh(g)
      invariant multiset(m.acts) == multiset(all[..i])
      invariant forall j :: i <= j < |all| ==> all[j] !in placed && all[j].next == ActAt(all, j + 1)
      decreases |all| - i
    {
      ActAtIs(all, i);
      ghost var p;
      assert all[i] in all && all[..i + 1] == all[..i] + [all[i]];
      theActivation, p, newGroups := ReplaceOne(m, theActivation, placed, newGroups);
      OthersApart(all, i);
      placed := placed + {all[i]};
      i := i + 1;
    }
    ActAtIs(all, i);
    assert all[..i] == all;
    WithinIs(m, placed, newGroups);
    WithinIs(m, acts, newGroups);
  }

  /** Reordering neither loses nor adds an activation; afterwards the agenda is in the strategy's order. The
      saliences may have changed since the groups were made. */
  method EnvReorderAgenda(m: DefruleModule, ghost acts: set<Activation>, ghost groups: set<SalienceGroup>)
    returns (ghost newGroups: set<SalienceGroup>)
    requires m.agenda == ActAt(m.acts, 0) && ActsChained(m.acts) && Within(m, acts, groups)
    requires m.groupings == GroupOf(m.groups, 0) && GroupsChained(m.groups)
    modifies m`agenda, m`acts, m`groupings, m`groups, m`cuts, m`agendaChanged, acts`prev, acts`next
    ensures m.Valid() && m.Ordered() && multiset(m.acts) == multiset(old(m.acts))
    ensures Within(m, acts, newGroups) && forall g :: g in newGroups ==> fresh(g)
  {
    hide *;
    ghost var all := m.acts;
    ChainLinks(all);
    WithinIs(m, acts, groups);
    var theActivation := m.agenda;
    m.agenda := null;
    FreeGroups(m);
    m.groupings := null;
    m.acts, m.groups, m.cuts := [], [], [0];
    NothingAgrees(m);
    newGroups := ReplaceAll(m, theActivation, all, acts);
  }

  lemma ChainLinks(acts: seq<Activation>)
    requires ActsChained(acts)
    ensures Distinct(acts) && forall j :: 0 <= j < |acts| ==> acts[j].next == ActAt(acts, j + 1)
  {
  }

  lemma OthersApart(acts: seq<Activation>, i: nat)
    requires Distinct(acts) && i < |acts|
    ensures forall j :: i < j < |acts| ==> acts[j] != acts[i]
  {
  }

  /** The old groups are only walked over to be freed. */
  method FreeGroups(m: DefruleModule)
    requires m.groupings == GroupOf(m.groups, 0) && GroupsChained(m.groups)
  {
    var theGroup := m.groupings;
    ghost var k := 0;
    while theGroup != null
      invariant 0 <= k <= |m.groups| && theGroup == GroupOf(m.groups, k)
      decreases |m.groups| - k
    {
      var tempGroup := theGroup.next;
      theGroup := tempGroup;
      k := k + 1;
    }
  }

  lemma NothingAgrees(m: DefruleModule)
    requires m.agenda == null && m.groupings == null && m.acts == [] && m.groups == [] && m.cuts == [0]
    ensures m.Valid() && m.Ordered()
  {
  }

  // ------------------------------------------------------------------------------------------
  // Refreshing
  // ------------------------------------------------------------------------------------------

  /** The salience of a rule after the first `i` activations had theirs evaluated, the `k`-th with `outcomes(k)`. */
  ghost function AfterEvaluations(acts: seq<Activation>, outcomes: nat -> Evaluation, i: nat, r: Defrule,
                                  start: int): int
    requires i <= |acts|
  {
    if i == 0 then start
    else
      var before := AfterEvaluations(acts, outcomes, i - 1, r, start);
      if acts[i - 1].theRule == r then Evaluated(WhenActivated, before, r.dynamicSalience, outcomes(i - 1)) else before
  }

  /** Evaluates the salience of every activation's rule anew; several activations may share a rule, and each gets what
      its own evaluation leaves the rule with. */
  method EvaluateSaliences(m: DefruleModule, outcomes: nat -> Evaluation, ghost acts: set<Activation>,
                           ghost rules: set<Defrule>)
    requires m.agenda == ActAt(m.acts, 0) && ActsChained(m.acts) && m.salienceEvaluation == WhenActivated
    requires forall a :: a in m.acts ==> a in acts && a.theRule in rules
    modifies acts`salience, rules`salience
    ensures forall i :: 0 <= i < |m.acts| ==>
      m.acts[i].salience
      == AfterEvaluations(m.acts, outcomes, i + 1, m.acts[i].theRule, old(m.acts[i].theRule.salience))
    ensures forall r :: r in rules ==> r.salience == AfterEvaluations(m.acts, outcomes, |m.acts|, r, old(r.salience))
  {
    hide ActAt, AfterEvaluations, ActsChained, Evaluated;
    ghost var all, start := m.acts, map r | r in rules :: r.salience;
    forall j | 0 <= j < |all| ensures all[j] in acts && all[j].theRule in rules { assert all[j] in all; }
    var theActivation := m.agenda;
    var i := 0;
    forall r | r in rules ensures r.salience == AfterEvaluations(all, outcomes, 0, r, start[r]) {
      NoEvaluation(all, outcomes, r, start[r]);
    }
    while theActivation != null
      invariant 0 <= i <= |all| && theActivation == ActAt(all, i)
      invariant forall j :: 0 <= j < i ==>
        all[j].salience == AfterEvaluations(all, outcomes, j + 1, all[j].theRule, start[all[j].theRule])
      invariant forall r :: r in rules ==> r.salience == AfterEvaluations(all, outcomes, i, r, start[r])
      decreases |all| - i
    {
      ActAtIs(all, i);
      NextAct(all, i);
      forall r | r in rules ensures AfterEvaluations(all, outcomes, i + 1, r, start[r])
        == if all[i].theRule == r then Evaluated(WhenActivated, r.salience, r.dynamicSalience, outcomes(i))
           else r.salience
      {
        OneEvaluation(all, outcomes, i, r, start[r]);
      }
      theActivation.salience := m.EvaluateSalience(theActivation.theRule, outcomes(i));
      theActivation := theActivation.next;
      i := i + 1;
    }
    ActAtIs(all, i);
  }

  lemma NoEvaluation(acts: seq<Activation>, outcomes: nat -> Evaluation, r: Defrule, start: int)
    ensures AfterEvaluations(acts, outcomes, 0, r, start) == start
  {
  }

  lemma OneEvaluation(acts: seq<Activation>, outcomes: nat -> Evaluation, i: nat, r: Defrule, start: int)
    requires i < |acts|
    ensures var before := AfterEvaluations(acts, outcomes, i, r, start);
      AfterEvaluations(acts, outcomes, i + 1, r, start)
      == if acts[i].theRule == r then Evaluated(WhenActivated, before, r.dynamicSalience, outcomes(i)) else before
  {
  }

  lemma NextAct(acts: seq<Activation>, i: nat)
    requires ActsChained(acts) && i < |acts|
    ensures acts[i].next == ActAt(acts, i + 1) && forall j :: 0 <= j < |acts| && j != i ==> acts[j] != acts[i]
  {
  }

  /** Refreshing gives every activation the salience that its rule's evaluation yields, and sorts the agenda anew. */
  method EnvRefreshAgenda(m: DefruleModule, outcomes: nat -> Evaluation, ghost acts: set<Activation>,
                          ghost groups: set<SalienceGroup>, ghost rules: set<Defrule>)
    returns (ghost newGroups: set<SalienceGroup>)
    requires m.Valid() && Within(m, acts, groups) && forall a :: a in acts ==> a.theRule in rules
    modifies m`agenda, m`acts, m`groupings, m`groups, m`cuts, m`agendaChanged, m`salienceEvaluation
    modifies acts`prev, acts`next, acts`salience, rules`salience
    ensures m.Valid() && m.Ordered() && multiset(m.acts) == multiset(old(m.acts))
    ensures Within(m, acts, newGroups) && forall g :: g in newGroups ==> fresh(g)
    ensures m.salienceEvaluation == old(m.salienceEvaluation)
    ensures forall i :: 0 <= i < |old(m.acts)| ==>
      old(m.acts)[i].salience
      == AfterEvaluations(old(m.acts), outcomes, i + 1, old(m.acts)[i].theRule, old(m.acts[i].theRule.salience))
    ensures forall r :: r in rules ==>
      r.salience == AfterEvaluations(old(m.acts), outcomes, |old(m.acts)|, r, old(r.salience))
  {
    hide *;
    AgendaParts(m);
    WithinIs(m, acts, groups);
    var oldValue := m.salienceEvaluation;
    m.salienceEvaluation := WhenActivated;
    EvaluateSaliences(m, outcomes, acts, rules);
    newGroups := EnvReorderAgenda(m, acts, groups);
    m.salienceEvaluation := oldValue;
  }

  lemma SameMembers<T>(s: seq<T>, t: seq<T>)
    requires multiset(s) == multiset(t)
    ensures forall x :: x in s <==> x in t
  {
    forall x ensures x in s <==> x in t {
      assert x in multiset(s) <==> x in multiset(t);
    }
  }

  lemma AgendaParts(m: DefruleModule)
    requires m.Valid()
    ensures m.agenda == ActAt(m.acts, 0) && ActsChained(m.acts)
    ensures m.groupings == GroupOf(m.groups, 0) && GroupsChained(m.groups)
  {
  }

  /** AddActivation, with bounds on the objects the agenda consists of. */
  method AddOne(m: DefruleModule, rule: Defrule, binds: PartialMatch, ghost acts: set<Activation>,
                ghost groups: set<SalienceGroup>)
    returns (a: Activation, ghost newActs: set<Activation>, ghost newGroups: set<SalienceGroup>)
    requires m.Valid() && Within(m, acts, groups)
    modifies m`agenda, m`acts, m`groupings, m`groups, m`cuts, m`agendaChanged, m`numberOfActivations, m`currentTimetag
    modifies acts`prev, acts`next, groups`prev, groups`next, groups`first, groups`last, rule`salience, binds`marker
    ensures m.Valid() && Within(m, newActs, newGroups) && (old(m.Ordered()) ==> m.Ordered())
    ensures newActs == acts + {a} && forall g :: g in newGroups ==> g in groups || fresh(g)
    ensures multiset(m.acts) == multiset(old(m.acts)) + multiset{a}
    ensures fresh(a) && a.theRule == rule && a.basis == binds && binds.marker == a && a.timetag == old(m.currentTimetag)
    ensures m.numberOfActivations == old(m.numberOfActivations) + 1 && m.currentTimetag == old(m.currentTimetag) + 1
  {
    hide *;
    WithinIs(m, acts, groups);
    var randomID: int := *;
    ghost var p;
    var e: Evaluation := *;
    a, p := m.AddActivation(rule, binds, randomID, e);
    WithMembers(old(m.acts), p, a);
    newActs := acts + {a};
    newGroups := set g | g in m.groups;
    WithinIs(m, newActs, newGroups);
  }

  ghost function Bare(matches: set<PartialMatch>): set<PartialMatch>
    reads matches`marker
  {
    set x | x in matches && x.marker == null
  }

  lemma BareIs(matches: set<PartialMatch>)
    ensures forall x :: x in Bare(matches) ==> x in matches && x.marker == null
    ensures forall x :: x in matches && x.marker == null ==> x in Bare(matches)
  {
  }

  /** Activations of the rules, for matches that had none and activate them; each is marked by its match. */
  ghost predicate AddedFor(added: seq<Activation>, bare: set<PartialMatch>, rules: seq<Defrule>)
    reads (set a <- added :: a.basis)`marker
  {
    && (forall a :: a in added ==> a.basis in bare && a.basis.activates && a.theRule in rules)
    && (forall a :: a in added ==> a.basis.marker == a)
  }

  lemma AddedNone(bare: set<PartialMatch>, rules: seq<Defrule>)
    ensures AddedFor([], bare, rules)
  {
  }

  /** A match without a mark is none of theirs. */
  lemma AddedApart(added: seq<Activation>, bare: set<PartialMatch>, rules: seq<Defrule>, binds: PartialMatch)
    requires AddedFor(added, bare, rules) && binds.marker == null
    ensures forall a :: a in added ==> a.basis != binds
  {
  }

  lemma AddedMarked(added: seq<Activation>, bare: set<PartialMatch>, rules: seq<Defrule>)
    requires AddedFor(added, bare, rules)
    ensures forall a :: a in added ==>
      a.basis.marker == a && a.basis in bare && a.basis.activates && a.theRule in rules
  {
  }

  lemma AddedAre(added: seq<Activation>, bare: set<PartialMatch>, rules: seq<Defrule>)
    requires forall a :: a in added ==>
      a.basis.marker == a && a.basis in bare && a.basis.activates && a.theRule in rules
    ensures AddedFor(added, bare, rules)
  {
  }

  lemma AddedNext(added: seq<Activation>, bare: set<PartialMatch>, rules: seq<Defrule>, a: Activation)
    requires AddedFor(added, bare, rules) && a.basis in bare && a.basis.activates && a.theRule in rules
    requires a.basis.marker == a
    ensures AddedFor(added + [a], bare, rules)
  {
  }

  lemma AddedJoin(added: seq<Activation>, more: seq<Activation>, bare: set<PartialMatch>, less: set<PartialMatch>,
                  rule: Defrule, rules: seq<Defrule>)
    requires AddedFor(added, bare, rules) && AddedFor(more, less, [rule]) && less <= bare && rule in rules
    ensures AddedFor(added + more, bare, rules)
  {
  }

  /** Adds an activation for one partial match, when it activates the rule and has none. */
  method RefreshMatch(m: DefruleModule, rule: Defrule, binds: PartialMatch, ghost before: seq<Activation>,
                      ghost bare: set<PartialMatch>, ghost acts: set<Activation>, ghost groups: set<SalienceGroup>)
    returns (ghost added: seq<Activation>, ghost newActs: set<Activation>, ghost newGroups: set<SalienceGroup>)
    requires m.Valid() && Within(m, acts, groups)
    requires AddedFor(before, bare, [rule]) && (binds.marker == null ==> binds in bare)
    modifies m`agenda, m`acts, m`groupings, m`groups, m`cuts, m`agendaChanged, m`numberOfActivations, m`currentTimetag
    modifies acts`prev, acts`next, groups`prev, groups`next, groups`first, groups`last, rule`salience, binds`marker
    ensures m.Valid() && Within(m, newActs, newGroups) && (old(m.Ordered()) ==> m.Ordered())
    ensures acts <= newActs && (forall a :: a in newActs ==> a in acts || fresh(a))
    ensures forall g :: g in newGroups ==> g in groups || fresh(g)
    ensures multiset(m.acts) == multiset(old(m.acts)) + multiset(added)
    ensures AddedFor(before + added, bare, [rule])
    ensures m.numberOfActivations == old(m.numberOfActivations) + |added|
    ensures binds.activates ==> binds.marker != null
    ensures old(binds.marker) != null ==> binds.marker == old(binds.marker)
  {
    hide *;
    added, newActs, newGroups := [], acts, groups;
    assert before + [] == before;
    if binds.activates {
      if binds.marker == null {
        AddedApart(before, bare, [rule], binds);
        var a;
        a, newActs, newGroups := AddOne(m, rule, binds, acts, groups);
        AddedNext(before, bare, [rule], a);
        added := [a];
      }
    }
  }

  /** Adds an activation for every partial match of the rule that has none. */
  method RefreshRule(m: DefruleModule, rule: Defrule, memory: seq<PartialMatch>, ghost matches: set<PartialMatch>,
                     ghost acts: set<Activation>, ghost groups: set<SalienceGroup>)
    returns (ghost added: seq<Activation>, ghost newActs: set<Activation>, ghost newGroups: set<SalienceGroup>)
    requires m.Valid() && Within(m, acts, groups) && forall x :: x in memory ==> x in matches
    modifies m`agenda, m`acts, m`groupings, m`groups, m`cuts, m`agendaChanged, m`numberOfActivations, m`currentTimetag
    modifies acts`prev, acts`next, groups`prev, groups`next, groups`first, groups`last, rule`salience, matches`marker
    ensures m.Valid() && Within(m, newActs, newGroups) && (old(m.Ordered()) ==> m.Ordered())
    ensures acts <= newActs && forall a :: a in newActs ==> a in acts || fresh(a)
    ensures forall g :: g in newGroups ==> g in groups || fresh(g)
    ensures multiset(m.acts) == multiset(old(m.acts)) + multiset(added)
    ensures AddedFor(added, old(Bare(matches)), [rule])
    ensures forall x :: x in memory && x.activates ==> x.marker != null
    ensures forall x :: x in matches && old(x.marker) != null ==> x.marker == old(x.marker)
    ensures m.numberOfActivations == old(m.numberOfActivations) + |added|
  {
    hide *;
    added, newActs, newGroups := [], acts, groups;
    ghost var bare := Bare(matches);
    BareIs(matches);
    AddedNone(bare, [rule]);
    var b := 0;
    while b < |memory|
      invariant 0 <= b <= |memory|
      invariant m.Valid() && Within(m, newActs, newGroups) && (old(m.Ordered()) ==> m.Ordered())
      invariant acts <= newActs && forall a :: a in newActs ==> a in acts || fresh(a)
      invariant forall g :: g in newGroups ==> g in groups || fresh(g)
      invariant multiset(m.acts) == multiset(old(m.acts)) + multiset(added)
      invariant AddedFor(added, bare, [rule])
      invariant forall j :: 0 <= j < b && memory[j].activates ==> memory[j].marker != null
      invariant forall x :: x in matches && old(x.marker) != null ==> x.marker == old(x.marker)
      invariant m.numberOfActivations == old(m.numberOfActivations) + |added|
    {
      assert memory[b] in memory;
      ghost var more;
      more, newActs, newGroups := RefreshMatch(m, rule, memory[b], added, bare, newActs, newGroups);
      added := added + more;
      b := b + 1;
    }
  }

  /** The matches of the first `i` disjuncts that activate them are not bare. */
  ghost predicate Served(memories: seq<seq<PartialMatch>>, i: nat, bare: set<PartialMatch>) {
    forall j, x :: 0 <= j < i && j < |memories| && x in memories[j] && x.activates ==> x !in bare
  }

  lemma ServedNext(memories: seq<seq<PartialMatch>>, i: nat, bare: set<PartialMatch>, less: set<PartialMatch>)
    requires i < |memories| && less <= bare && forall x :: x in memories[i] && x.activates ==> x !in less
    ensures Served(memories, i, bare) ==> Served(memories, i + 1, less)
  {
  }

  lemma ServedAll(memories: seq<seq<PartialMatch>>, matches: set<PartialMatch>)
    requires Served(memories, |memories|, Bare(matches))
    requires forall i, x :: 0 <= i < |memories| && x in memories[i] ==> x in matches
    ensures forall i, x :: 0 <= i < |memories| && x in memories[i] && x.activates ==> x.marker != null
  {
  }

  lemma ServedNone(memories: seq<seq<PartialMatch>>, bare: set<PartialMatch>)
    ensures Served(memories, 0, bare)
  {
  }

  /** One disjunct, after others. */
  method RefreshDisjunct(m: DefruleModule, rule: Defrule, memory: seq<PartialMatch>, ghost before: seq<Activation>,
                         ghost bare: set<PartialMatch>, ghost rules: seq<Defrule>, ghost matches: set<PartialMatch>,
                         ghost acts: set<Activation>, ghost groups: set<SalienceGroup>)
    returns (ghost more: seq<Activation>, ghost newActs: set<Activation>, ghost newGroups: set<SalienceGroup>)
    requires m.Valid() && Within(m, acts, groups) && (forall x :: x in memory ==> x in matches) && rule in rules
    requires AddedFor(before, bare, rules) && Bare(matches) <= bare <= matches
    modifies m`agenda, m`acts, m`groupings, m`groups, m`cuts, m`agendaChanged, m`numberOfActivations, m`currentTimetag
    modifies acts`prev, acts`next, groups`prev, groups`next, groups`first, groups`last, rule`salience, matches`marker
    ensures m.Valid() && Within(m, newActs, newGroups) && (old(m.Ordered()) ==> m.Ordered())
    ensures acts <= newActs && forall a :: a in newActs ==> a in acts || fresh(a)
    ensures forall g :: g in newGroups ==> g in groups || fresh(g)
    ensures multiset(m.acts) == multiset(old(m.acts)) + multiset(more)
    ensures m.numberOfActivations == old(m.numberOfActivations) + |more|
    ensures AddedFor(before + more, bare, rules) && Bare(matches) <= old(Bare(matches))
    ensures forall x :: x in memory && x.activates ==> x !in Bare(matches)
    ensures forall x :: x in matches && old(x.marker) != null ==> x.marker == old(x.marker)
  {
    hide *;
    ghost var less := Bare(matches);
    BareIs(matches);
    AddedMarked(before, bare, rules);
    more, newActs, newGroups := RefreshRule(m, rule, memory, matches, acts, groups);
    BareIs(matches);
    AddedAre(before, bare, rules);
    AddedJoin(before, more, bare, less, rule, rules);
  }

  /** Refreshing a rule: every match of every disjunct that activates it has an activation afterwards, and only
      the matches that had none get a new one. */
  method EnvRefresh(m: DefruleModule, disjuncts: seq<Defrule>, memories: seq<seq<PartialMatch>>,
                    ghost matches: set<PartialMatch>, ghost acts: set<Activation>, ghost groups: set<SalienceGroup>)
    returns (ghost added: seq<Activation>, ghost newActs: set<Activation>, ghost newGroups: set<SalienceGroup>)
    requires m.Valid() && Within(m, acts, groups) && |memories| == |disjuncts|
    requires forall i, x :: 0 <= i < |memories| && x in memories[i] ==> x in matches
    modifies m`agenda, m`acts, m`groupings, m`groups, m`cuts, m`agendaChanged, m`numberOfActivations, m`currentTimetag
    modifies acts`prev, acts`next, groups`prev, groups`next, groups`first, groups`last, disjuncts`salience
    modifies matches`marker
    ensures m.Valid() && Within(m, newActs, newGroups) && (old(m.Ordered()) ==> m.Ordered())
    ensures multiset(m.acts) == multiset(old(m.acts)) + multiset(added)
    ensures m.numberOfActivations == old(m.numberOfActivations) + |added|
    ensures AddedFor(added, old(Bare(matches)), disjuncts)
    ensures forall i, x :: 0 <= i < |memories| && x in memories[i] && x.activates ==> x.marker != null
    ensures forall x :: x in matches && old(x.marker) != null ==> x.marker == old(x.marker)
  {
    hide *;
    added, newActs, newGroups := [], acts, groups;
    ghost var bare := Bare(matches);
    BareIs(matches);
    AddedNone(bare, disjuncts);
    ServedNone(memories, bare);
    ghost var less := bare;
    var i := 0;
    while i < |disjuncts|
      invariant 0 <= i <= |disjuncts|
      invariant m.Valid() && Within(m, newActs, newGroups) && (old(m.Ordered()) ==> m.Ordered())
      invariant acts <= newActs && forall a :: a in newActs ==> a in acts || fresh(a)
      invariant forall g :: g in newGroups ==> g in groups || fresh(g)
      invariant multiset(m.acts) == multiset(old(m.acts)) + multiset(added)
      invariant m.numberOfActivations == old(m.numberOfActivations) + |added|
      invariant less == Bare(matches) <= bare
      invariant AddedFor(added, bare, disjuncts) && Served(memories, i, less)
      invariant forall x :: x in matches && old(x.marker) != null ==> x.marker == old(x.marker)
    {
      ghost var more, before := [], less;
      more, newActs, newGroups
        := RefreshDisjunct(m, disjuncts[i], memories[i], added, bare, disjuncts, matches, newActs, newGroups);
      less := Bare(matches);
      ServedNext(memories, i, before, less);
      added := added + more;
      i := i + 1;
    }
    ServedAll(memories, matches);
  }

  /** A valid agenda in the strategy's order is sorted as a whole, by salience first. */
  lemma AgendaIsSorted(m: DefruleModule)
    requires m.Valid() && m.Ordered()
    ensures Sorted(m.strategy, m.acts)
  {
    hide ActsChained, GroupsChained, Bounded, Grouped, MayPrecede;
    forall i, j | 0 <= i < j < |m.acts|
      ensures m.acts[i].salience >= m.acts[j].salience
    {
      SaliencesDescend(Saliences(m.acts), GroupSaliences(m.groups), m.cuts, NO_HOLE, i, j);
    }
    assert forall i :: 0 <= i < |m.acts| ==> Saliences(m.acts)[i] == m.acts[i].salience;
  }
}
