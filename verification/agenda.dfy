/** The agenda of a module: a doubly linked list of activations and a second one of salience groups
    that indexes it. */
module Agenda {
  import opened AgendaOrder

  datatype SalienceEvaluation = WhenDefined | WhenActivated | EveryCycle

  const MAX_DEFRULE_SALIENCE := 10000
  const MIN_DEFRULE_SALIENCE := -10000

  // ------------------------------------------------------------------------------------------
  // The lists
  // ------------------------------------------------------------------------------------------

  /** The activations are distinct and linked both ways. */
  ghost predicate ActsChained(acts: seq<Activation>)
    reads acts`prev, acts`next
  {
    && Distinct(acts)
    && (forall i :: 0 <= i < |acts| ==> acts[i].prev == ActAt(acts, i - 1))
    && (forall i :: 0 <= i < |acts| ==> acts[i].next == ActAt(acts, i + 1))
  }

  ghost predicate GroupsChained(groups: seq<SalienceGroup>)
    reads groups`prev, groups`next
  {
    && Distinct(groups)
    && (forall i :: 0 <= i < |groups| ==> groups[i].prev == GroupOf(groups, i - 1))
    && (forall i :: 0 <= i < |groups| ==> groups[i].next == GroupOf(groups, i + 1))
  }

  ghost function Saliences(acts: seq<Activation>): (s: seq<int>)
    reads acts`salience
    ensures |s| == |acts|
    ensures forall i :: 0 <= i < |s| ==> s[i] == acts[i].salience
  {
    if acts == [] then [] else Saliences(acts[..|acts| - 1]) + [acts[|acts| - 1].salience]
  }

  ghost function GroupSaliences(groups: seq<SalienceGroup>): (s: seq<int>)
    reads groups`salience
    ensures |s| == |groups|
    ensures forall i :: 0 <= i < |s| ==> s[i] == groups[i].salience
  {
    if groups == [] then [] else GroupSaliences(groups[..|groups| - 1]) + [groups[|groups| - 1].salience]
  }

  /** Every group points to its first and its last activation; an empty group points nowhere. */
  ghost predicate Bounded(acts: seq<Activation>, groups: seq<SalienceGroup>, cuts: seq<int>)
    reads groups`first, groups`last
  {
    && |cuts| == |groups| + 1
    && (forall g :: 0 <= g < |groups| ==>
      groups[g].first == if cuts[g] == cuts[g + 1] then null else ActAt(acts, cuts[g]))
    && (forall g :: 0 <= g < |groups| ==>
      groups[g].last == if cuts[g] == cuts[g + 1] then null else ActAt(acts, cuts[g + 1] - 1))
  }

  lemma WithSaliences(groups: seq<SalienceGroup>, k: nat, newer: SalienceGroup)
    requires k <= |groups|
    ensures GroupSaliences(With(groups, k, newer)) == With(GroupSaliences(groups), k, newer.salience)
  {
    hide GroupSaliences, With;
    WithAt(groups, k, newer);
    WithAt(GroupSaliences(groups), k, newer.salience);
  }

  lemma WithActSaliences(acts: seq<Activation>, p: nat, newer: Activation)
    requires p <= |acts|
    ensures Saliences(With(acts, p, newer)) == With(Saliences(acts), p, newer.salience)
  {
    hide Saliences, With;
    WithAt(acts, p, newer);
    WithAt(Saliences(acts), p, newer.salience);
  }

  lemma OpenBounded(acts: seq<Activation>, groups: seq<SalienceGroup>, cuts: seq<int>, k: nat, newer: SalienceGroup)
    requires Bounded(acts, groups, cuts) && k <= |groups| && newer.first == null && newer.last == null
    ensures Bounded(acts, With(groups, k, newer), With(cuts, k, cuts[k]))
  {
    hide ActAt;
  }

  /** As Bounded, for all groups but `k`. */
  ghost predicate BoundedBut(acts: seq<Activation>, groups: seq<SalienceGroup>, cuts: seq<int>, k: int)
    reads groups`first, groups`last
  {
    && |cuts| == |groups| + 1
    && (forall g :: 0 <= g < |groups| && g != k ==>
      groups[g].first == if cuts[g] == cuts[g + 1] then null else ActAt(acts, cuts[g]))
    && (forall g :: 0 <= g < |groups| && g != k ==>
      groups[g].last == if cuts[g] == cuts[g + 1] then null else ActAt(acts, cuts[g + 1] - 1))
  }

  lemma InsertBounded(acts: seq<Activation>, groups: seq<SalienceGroup>, sal: seq<int>, gsal: seq<int>, cuts: seq<int>,
                      hole: int, k: nat, p: nat, newer: Activation)
    requires Grouped(sal, gsal, cuts, hole) && |acts| == |sal| && |groups| == |gsal|
    requires BoundedBut(acts, groups, cuts, k)
    requires k < |groups| && cuts[k] <= p <= cuts[k + 1] && (hole == NO_HOLE || hole == k) && p <= |acts|
    requires groups[k].first == if p == cuts[k] then newer else ActAt(acts, cuts[k])
    requires groups[k].last == if p == cuts[k + 1] then newer else ActAt(acts, cuts[k + 1] - 1)
    ensures Bounded(With(acts, p, newer), groups, Moved(cuts, k, 1))
  {
    hide With, ActAt, Grouped;
    var c, a := Moved(cuts, k, 1), With(acts, p, newer);
    forall g | 0 <= g < |groups|
      ensures groups[g].first == if c[g] == c[g + 1] then null else ActAt(a, c[g])
    {
      CutsAround(sal, gsal, cuts, hole, k, g);
      ActAtWith(acts, p, newer, c[g]);
    }
    forall g | 0 <= g < |groups|
      ensures groups[g].last == if c[g] == c[g + 1] then null else ActAt(a, c[g + 1] - 1)
    {
      CutsAround(sal, gsal, cuts, hole, k, g);
      ActAtWith(acts, p, newer, c[g + 1] - 1);
    }
  }

  lemma RemoveFirst(acts: seq<Activation>, groups: seq<SalienceGroup>, sal: seq<int>, gsal: seq<int>, cuts: seq<int>,
                    k: nat, p: nat, g: nat)
    requires Grouped(sal, gsal, cuts, NO_HOLE) && |acts| == |sal| && |groups| == |gsal|
    requires BoundedBut(acts, groups, cuts, k)
    requires k < |groups| && 0 <= cuts[k] <= p < cuts[k + 1] && p < |acts| && cuts[k] + 1 < cuts[k + 1]
    requires groups[k].first == ActAt(acts, if p == cuts[k] then p + 1 else cuts[k]) && g < |groups|
    ensures var c := Moved(cuts, k, -1);
      groups[g].first == if c[g] == c[g + 1] then null else ActAt(Without(acts, p), c[g])
  {
    hide Without, ActAt, Grouped;
    CutsAround(sal, gsal, cuts, NO_HOLE, k, g);
    ActAtWithout(acts, p, Moved(cuts, k, -1)[g]);
  }

  lemma RemoveLast(acts: seq<Activation>, groups: seq<SalienceGroup>, sal: seq<int>, gsal: seq<int>, cuts: seq<int>,
                   k: nat, p: nat, g: nat)
    requires Grouped(sal, gsal, cuts, NO_HOLE) && |acts| == |sal| && |groups| == |gsal|
    requires BoundedBut(acts, groups, cuts, k)
    requires k < |groups| && 0 <= cuts[k] <= p < cuts[k + 1] && p < |acts| && cuts[k] + 1 < cuts[k + 1]
    requires groups[k].last == ActAt(acts, if p == cuts[k + 1] - 1 then p - 1 else cuts[k + 1] - 1) && g < |groups|
    ensures var c := Moved(cuts, k, -1);
      groups[g].last == if c[g] == c[g + 1] then null else ActAt(Without(acts, p), c[g + 1] - 1)
  {
    hide Without, ActAt, Grouped;
    CutsAround(sal, gsal, cuts, NO_HOLE, k, g);
    ActAtWithout(acts, p, Moved(cuts, k, -1)[g + 1] - 1);
  }

  lemma RemoveBounded(acts: seq<Activation>, groups: seq<SalienceGroup>, sal: seq<int>, gsal: seq<int>, cuts: seq<int>,
                      k: nat, p: nat)
    requires Grouped(sal, gsal, cuts, NO_HOLE) && |acts| == |sal| && |groups| == |gsal|
    requires BoundedBut(acts, groups, cuts, k)
    requires k < |groups| && 0 <= cuts[k] <= p < cuts[k + 1] && p < |acts| && cuts[k] + 1 < cuts[k + 1]
    requires groups[k].first == ActAt(acts, if p == cuts[k] then p + 1 else cuts[k])
    requires groups[k].last == ActAt(acts, if p == cuts[k + 1] - 1 then p - 1 else cuts[k + 1] - 1)
    ensures Bounded(Without(acts, p), groups, Moved(cuts, k, -1))
  {
    hide Without, ActAt, Grouped;
    var c, a := Moved(cuts, k, -1), Without(acts, p);
    forall g | 0 <= g < |groups|
      ensures groups[g].first == if c[g] == c[g + 1] then null else ActAt(a, c[g])
    {
      RemoveFirst(acts, groups, sal, gsal, cuts, k, p, g);
    }
    forall g | 0 <= g < |groups|
      ensures groups[g].last == if c[g] == c[g + 1] then null else ActAt(a, c[g + 1] - 1)
    {
      RemoveLast(acts, groups, sal, gsal, cuts, k, p, g);
    }
  }

  lemma DropBounded(acts: seq<Activation>, groups: seq<SalienceGroup>, sal: seq<int>, gsal: seq<int>, cuts: seq<int>,
                    k: nat)
    requires Grouped(sal, gsal, cuts, NO_HOLE) && |acts| == |sal| && |groups| == |gsal| && Bounded(acts, groups, cuts)
    requires k < |groups| && 0 <= cuts[k] && cuts[k] + 1 == cuts[k + 1] && cuts[k] < |acts|
    ensures Bounded(Without(acts, cuts[k]), Without(groups, k), Without(Moved(cuts, k, -1), k + 1))
  {
    WithoutAt(groups, k);
    WithoutAt(Moved(cuts, k, -1), k + 1);
    hide Without, ActAt, Grouped;
    forall g | 0 <= g < |groups| - 1
      ensures Without(groups, k)[g].first == ActAt(Without(acts, cuts[k]), Without(Moved(cuts, k, -1), k + 1)[g])
      ensures Without(groups, k)[g].last == ActAt(Without(acts, cuts[k]), Without(Moved(cuts, k, -1), k + 1)[g + 1] - 1)
      ensures Without(Moved(cuts, k, -1), k + 1)[g] != Without(Moved(cuts, k, -1), k + 1)[g + 1]
    {
      DropBoundedAt(acts, groups, sal, gsal, cuts, k, g);
    }
  }

  lemma DropBoundedAt(acts: seq<Activation>, groups: seq<SalienceGroup>, sal: seq<int>, gsal: seq<int>, cuts: seq<int>,
                      k: nat, g: nat)
    requires Grouped(sal, gsal, cuts, NO_HOLE) && |acts| == |sal| && |groups| == |gsal| && Bounded(acts, groups, cuts)
    requires k < |groups| && 0 <= cuts[k] && cuts[k] + 1 == cuts[k + 1] && cuts[k] < |acts| && g < |groups| - 1
    ensures |Without(groups, k)| == |groups| - 1 && |Without(Moved(cuts, k, -1), k + 1)| == |groups|
    ensures Without(groups, k)[g].first == ActAt(Without(acts, cuts[k]), Without(Moved(cuts, k, -1), k + 1)[g])
    ensures Without(groups, k)[g].last == ActAt(Without(acts, cuts[k]), Without(Moved(cuts, k, -1), k + 1)[g + 1] - 1)
    ensures Without(Moved(cuts, k, -1), k + 1)[g] != Without(Moved(cuts, k, -1), k + 1)[g + 1]
  {
    hide Without, ActAt, Grouped, Bounded;
    BoundedAt(acts, groups, cuts, k);
    var m := Moved(cuts, k, -1);
    var c := Without(m, k + 1);
    WithoutAt(groups, k);
    WithoutAt(m, k + 1);
    var was := if g < k then g else g + 1;
    assert Without(groups, k)[g] == groups[was] && c[g] == m[was] && c[g + 1] == m[was + 1];
    CutsAround(sal, gsal, cuts, NO_HOLE, k, was);
    BoundedAt(acts, groups, cuts, was);
    ActAtWithout(acts, cuts[k], c[g]);
    ActAtWithout(acts, cuts[k], c[g + 1] - 1);
  }

  /** A list whose neighbours of position `p` point past it is linked without that position. */
  lemma Rechained(acts: seq<Activation>, p: nat)
    requires Distinct(acts) && p < |acts|
    requires forall i :: 0 <= i < |acts| && i != p ==> acts[i].prev == ActAt(acts, if i == p + 1 then p - 1 else i - 1)
    requires forall i :: 0 <= i < |acts| && i != p ==> acts[i].next == ActAt(acts, if i == p - 1 then p + 1 else i + 1)
    ensures ActsChained(Without(acts, p))
    ensures ActAt(Without(acts, p), 0) == ActAt(acts, if p == 0 then 1 else 0)
  {
    hide ActAt, Without, Distinct;
    var a := Without(acts, p);
    WithoutAt(acts, p);
    WithoutDistinct(acts, p);
    ActAtWithout(acts, p, 0);
    forall i | 0 <= i < |a| ensures a[i].prev == ActAt(a, i - 1) {
      ActAtWithout(acts, p, i - 1);
      assert a[i] == acts[if i < p then i else i + 1];
    }
    forall i | 0 <= i < |a| ensures a[i].next == ActAt(a, i + 1) {
      ActAtWithout(acts, p, i + 1);
      assert a[i] == acts[if i < p then i else i + 1];
    }
  }

  lemma WithoutActSaliences(acts: seq<Activation>, p: nat)
    requires p < |acts|
    ensures Saliences(Without(acts, p)) == Without(Saliences(acts), p)
  {
    hide Saliences, Without;
    WithoutAt(acts, p);
    WithoutAt(Saliences(acts), p);
  }

  lemma WithoutSaliences(groups: seq<SalienceGroup>, k: nat)
    requires k < |groups|
    ensures GroupSaliences(Without(groups, k)) == Without(GroupSaliences(groups), k)
  {
    hide GroupSaliences, Without;
    WithoutAt(groups, k);
    WithoutAt(GroupSaliences(groups), k);
  }

  lemma BoundedAt(acts: seq<Activation>, groups: seq<SalienceGroup>, cuts: seq<int>, g: nat)
    requires Bounded(acts, groups, cuts) && g < |groups|
    ensures |cuts| == |groups| + 1
    ensures groups[g].first == if cuts[g] == cuts[g + 1] then null else ActAt(acts, cuts[g])
    ensures groups[g].last == if cuts[g] == cuts[g + 1] then null else ActAt(acts, cuts[g + 1] - 1)
  {
  }

  /** The conversion of a long value to an int of 32 bits. */
  function AsInt(v: int): int { (v + 0x8000_0000) % 0x1_0000_0000 - 0x8000_0000 }

  /** The salience a rule gets when it is evaluated anew, and its expression yields `e`. */
  function Evaluated(mode: SalienceEvaluation, current: int, dynamic: bool, e: Evaluation): int {
    if mode != WhenDefined && dynamic && e.Value? && MIN_DEFRULE_SALIENCE <= AsInt(e.v) <= MAX_DEFRULE_SALIENCE
    then AsInt(e.v)
    else current
  }

  /** The two differ by a multiple of two to the power of 32. */
  predicate Same32(v: int, n: int) { (v - n) % 4294967296 == 0 }

  /** An evaluation, unless saliences are only evaluated when defined, takes a value that differs from one between
      -10000 and 10000 by a multiple of two to the power of 32, without that multiple; otherwise the salience stays. */
  lemma EvaluatedIs(mode: SalienceEvaluation, current: int, dynamic: bool, e: Evaluation)
    ensures mode == WhenDefined || !dynamic || !e.Value? ==> Evaluated(mode, current, dynamic, e) == current
    ensures mode in {WhenActivated, EveryCycle} && dynamic && e.Value? ==>
      && (forall n :: -10000 <= n <= 10000 && Same32(e.v, n) ==> Evaluated(mode, current, dynamic, e) == n)
      && ((forall n :: -10000 <= n <= 10000 ==> !Same32(e.v, n)) ==> Evaluated(mode, current, dynamic, e) == current)
    ensures mode in {WhenActivated, EveryCycle} && dynamic && e.Value? && -10000 <= e.v <= 10000 ==>
      Evaluated(mode, current, dynamic, e) == e.v
  {
    if e.Value? {
      assert Same32(e.v, AsInt(e.v));
    }
  }

  /** No two activations carry the same time tag, and `tag` is new. */
  ghost predicate Stamped(acts: seq<Activation>, tag: nat) {
    && (forall i :: 0 <= i < |acts| ==> acts[i].timetag < tag)
    && TagsApart(acts)
  }

  /** Every activation's partial match points back to it. */
  ghost predicate Marked(acts: seq<Activation>)
    reads (set a <- acts :: a.basis)`marker
  {
    forall i :: 0 <= i < |acts| ==> acts[i].basis.marker == acts[i]
  }

  lemma StampedAt(acts: seq<Activation>, tag: nat, i: nat)
    requires Stamped(acts, tag) && i < |acts|
    ensures acts[i].timetag < tag
  {
  }

  lemma WithStamped(acts: seq<Activation>, p: nat, newer: Activation, tag: nat)
    requires p <= |acts| && newer.timetag == tag
    ensures Stamped(acts, tag) ==> Stamped(With(acts, p, newer), tag + 1)
  {
  }

  lemma WithMarked(acts: seq<Activation>, p: nat, newer: Activation)
    requires p <= |acts| && newer.basis.marker == newer
    ensures Marked(acts) ==> Marked(With(acts, p, newer))
  {
  }

  class DefruleModule {
    var agenda: Activation?
    var groupings: SalienceGroup?

    // The agenda's environment data.
    var strategy: Strategy
    var salienceEvaluation: SalienceEvaluation
    var numberOfActivations: int
    var currentTimetag: nat
    var agendaChanged: bool

    /** The activations and the groups in list order, and where each group starts. */
    ghost var acts: seq<Activation>
    ghost var groups: seq<SalienceGroup>
    ghost var cuts: seq<int>

    constructor (s: Strategy)
      ensures Valid() && acts == [] && strategy == s
    {
      agenda, groupings := null, null;
      strategy, salienceEvaluation := s, WhenDefined;
      numberOfActivations, currentTimetag, agendaChanged := 0, 0, false;
      acts, groups, cuts := [], [], [0];
    }

    /** The agenda and its groups agree; only group `hole`, if any, is empty. */
    ghost predicate Agree(hole: int)
      reads this`agenda, this`groupings, this`acts, this`groups, this`cuts
      reads acts`prev, acts`next, acts`salience
      reads groups`prev, groups`next, groups`salience, groups`first, groups`last
    {
      && agenda == ActAt(acts, 0) && groupings == GroupOf(groups, 0)
      && ActsChained(acts) && GroupsChained(groups) && Bounded(acts, groups, cuts)
      && Grouped(Saliences(acts), GroupSaliences(groups), cuts, hole)
    }

    ghost predicate Valid()
      reads this`agenda, this`groupings, this`acts, this`groups, this`cuts
      reads acts`prev, acts`next, acts`salience
      reads groups`prev, groups`next, groups`salience, groups`first, groups`last
    {
      Agree(NO_HOLE)
    }

    // ----------------------------------------------------------------------------------------
    // Groups
    // ----------------------------------------------------------------------------------------

    /** The group of a salience, if there is one. */
    method FindSalienceGroup(salience: int) returns (theGroup: SalienceGroup?, ghost k: nat)
      requires Valid()
      ensures theGroup == null ==> forall g :: 0 <= g < |groups| ==> groups[g].salience != salience
      ensures theGroup != null ==> k < |groups| && theGroup == groups[k] && theGroup.salience == salience
    {
      hide Grouped, ActsChained, Bounded, Distinct, GroupOf, GroupSaliences;
      GroupOfIs(groups, 0);
      GroupsDescend(Saliences(acts), GroupSaliences(groups), cuts, NO_HOLE);
      theGroup := groupings;
      k := 0;
      while theGroup != null
        invariant 0 <= k <= |groups| && theGroup == GroupOf(groups, k)
        invariant forall g :: 0 <= g < k ==> GroupSaliences(groups)[g] > salience
        decreases |groups| - k
      {
        GroupOfIs(groups, k);
        GroupOfIs(groups, k + 1);
        if theGroup.salience == salience {
          return;
        }
        if theGroup.salience < salience {
          assert forall g :: k < g < |groups| ==> GroupSaliences(groups)[k] > GroupSaliences(groups)[g];
          assert forall g :: 0 <= g < |groups| ==> GroupSaliences(groups)[g] != salience;
          theGroup := null;
          return;
        }
        theGroup := theGroup.next;
        k := k + 1;
      }
      GroupOfIs(groups, k);
      assert forall g :: 0 <= g < |groups| ==> groups[g].salience == GroupSaliences(groups)[g];
    }

    /** The pointers around a new group before group `k`. */
    method SpliceGroup(newGroup: SalienceGroup, lastGroup: SalienceGroup?, theGroup: SalienceGroup?, ghost k: nat)
      requires Distinct(groups) && k <= |groups| && newGroup !in groups
      requires lastGroup == GroupOf(groups, k - 1) && theGroup == GroupOf(groups, k)
      modifies this`groupings, newGroup`prev, newGroup`next, groups`prev, groups`next
      ensures newGroup.prev == GroupOf(groups, k - 1) && newGroup.next == GroupOf(groups, k)
      ensures groupings == if k == 0 then newGroup else old(groupings)
      ensures forall i :: 0 <= i < |groups| ==> groups[i].prev == if i == k then newGroup else old(groups[i].prev)
      ensures forall i :: 0 <= i < |groups| ==> groups[i].next == if i == k - 1 then newGroup else old(groups[i].next)
    {
      newGroup.next := theGroup;
      newGroup.prev := lastGroup;
      if newGroup.next != null {
        newGroup.next.prev := newGroup;
      }
      if newGroup.prev != null {
        newGroup.prev.next := newGroup;
      }
      if lastGroup == null {
        groupings := newGroup;
      }
    }

    /** Links a new group before group `k`. */
    method LinkGroup(newGroup: SalienceGroup, lastGroup: SalienceGroup?, theGroup: SalienceGroup?, ghost k: nat)
      requires GroupsChained(groups) && groupings == GroupOf(groups, 0) && k <= |groups| && newGroup !in groups
      requires lastGroup == GroupOf(groups, k - 1) && theGroup == GroupOf(groups, k)
      modifies this`groupings, this`groups, newGroup`prev, newGroup`next, groups`prev, groups`next
      ensures groups == With(old(groups), k, newGroup)
      ensures GroupsChained(groups) && groupings == GroupOf(groups, 0)
    {
      hide GroupOf, With, Distinct;
      ghost var before := groups;
      WithAt(before, k, newGroup);
      WithDistinct(before, k, newGroup);
      SpliceGroup(newGroup, lastGroup, theGroup, k);
      groups := With(before, k, newGroup);
      GroupOfWith(before, k, newGroup, 0);
      forall i | 0 <= i < |groups| ensures groups[i].prev == GroupOf(groups, i - 1) {
        GroupOfWith(before, k, newGroup, i - 1);
        assert i < k ==> groups[i] == before[i];
        assert i > k ==> groups[i] == before[i - 1];
      }
      forall i | 0 <= i < |groups| ensures groups[i].next == GroupOf(groups, i + 1) {
        GroupOfWith(before, k, newGroup, i + 1);
        assert i < k ==> groups[i] == before[i];
        assert i > k ==> groups[i] == before[i - 1];
      }
    }

    method CreateSalienceGroup(salience: int, lastGroup: SalienceGroup?, nextGroup: SalienceGroup?, ghost k: nat)
      returns (theGroup: SalienceGroup)
      requires Valid() && k <= |groups| && lastGroup == GroupOf(groups, k - 1) && nextGroup == GroupOf(groups, k)
      requires forall g :: 0 <= g < k ==> GroupSaliences(groups)[g] > salience
      requires forall g :: k <= g < |groups| ==> GroupSaliences(groups)[g] < salience
      modifies this`groupings, this`groups, this`cuts, groups`prev, groups`next
      ensures k < |groups| && theGroup == groups[k] && theGroup.salience == salience && fresh(theGroup)
      ensures Agree(k) && groups == With(old(groups), k, theGroup)
    {
      hide *;
      Parts(NO_HOLE);
      ghost var sal, gsal, c, before := Saliences(acts), GroupSaliences(groups), cuts, groups;
      CutsCount(sal, gsal, c, NO_HOLE);
      OpenHole(sal, gsal, c, k, salience);
      theGroup := new SalienceGroup(salience);
      LinkGroup(theGroup, lastGroup, nextGroup, k);
      cuts := With(c, k, c[k]);
      WithAt(before, k, theGroup);
      WithSaliences(before, k, theGroup);
      OpenBounded(acts, before, c, k, theGroup);
      Whole(k);
    }

    lemma Parts(hole: int)
      requires Agree(hole) || (hole == NO_HOLE && Valid())
      ensures agenda == ActAt(acts, 0) && groupings == GroupOf(groups, 0)
      ensures ActsChained(acts) && GroupsChained(groups) && Bounded(acts, groups, cuts)
      ensures Grouped(Saliences(acts), GroupSaliences(groups), cuts, hole)
      ensures hole == NO_HOLE ==> Valid()
    {
    }

    lemma GroupLinks(hole: int)
      requires Agree(hole) || (hole == NO_HOLE && Valid())
      ensures Distinct(groups)
      ensures forall i :: 0 <= i < |groups| ==> groups[i].prev == GroupOf(groups, i - 1)
      ensures forall i :: 0 <= i < |groups| ==> groups[i].next == GroupOf(groups, i + 1)
    {
    }

    lemma Whole(hole: int)
      requires agenda == ActAt(acts, 0) && groupings == GroupOf(groups, 0)
      requires ActsChained(acts) && GroupsChained(groups) && Bounded(acts, groups, cuts)
      requires Grouped(Saliences(acts), GroupSaliences(groups), cuts, hole)
      ensures Agree(hole)
      ensures hole == NO_HOLE ==> Valid()
    {
    }

    /** The group of a salience, made if there is none; only a new group is empty. */
    method ReuseOrCreateSalienceGroup(salience: int) returns (theGroup: SalienceGroup, ghost k: nat, ghost hole: int)
      requires Valid()
      modifies this`groupings, this`groups, this`cuts, groups`prev, groups`next
      ensures k < |groups| && theGroup == groups[k] && theGroup.salience == salience
      ensures Agree(hole) && (hole == NO_HOLE || hole == k)
      ensures forall g :: g in groups ==> g in old(groups) || fresh(g)
    {
      hide *;
      Parts(NO_HOLE);
      GroupLinks(NO_HOLE);
      GroupsDescend(Saliences(acts), GroupSaliences(groups), cuts, NO_HOLE);
      var lastGroup: SalienceGroup?, nextGroup := null, groupings;
      k, hole := 0, NO_HOLE;
      GroupOfIs(groups, -1);
      while nextGroup != null
        invariant 0 <= k <= |groups| && lastGroup == GroupOf(groups, k - 1) && nextGroup == GroupOf(groups, k)
        invariant forall g :: 0 <= g < k ==> GroupSaliences(groups)[g] > salience
        decreases |groups| - k
        modifies {}
      {
        GroupOfIs(groups, k);
        if nextGroup.salience == salience {
          return nextGroup, k, NO_HOLE;
        }
        if nextGroup.salience < salience {
          break;
        }
        lastGroup, nextGroup := nextGroup, nextGroup.next;
        k := k + 1;
      }
      GroupOfIs(groups, k);
      theGroup := CreateSalienceGroup(salience, lastGroup, nextGroup, k);
      WithAt(old(groups), k, theGroup);
      hole := k;
    }

    // ----------------------------------------------------------------------------------------
    // Placing activations
    // ----------------------------------------------------------------------------------------

    lemma Span(hole: int, k: nat)
      requires Agree(hole) && k < |groups| && (hole == NO_HOLE || hole == k)
      ensures |cuts| == |groups| + 1 && 0 <= cuts[k] <= cuts[k + 1] <= |acts|
      ensures groups[k].first == if cuts[k] == cuts[k + 1] then null else acts[cuts[k]]
      ensures groups[k].last == if cuts[k] == cuts[k + 1] then null else acts[cuts[k + 1] - 1]
      ensures groups[k].prev == GroupOf(groups, k - 1)
      ensures k == 0 ==> cuts[k] == 0
      ensures k > 0 ==> 0 < cuts[k] && groups[k - 1].last == acts[cuts[k] - 1]
    {
      hide *;
      Parts(hole);
      GroupLinks(hole);
      CutsAround(Saliences(acts), GroupSaliences(groups), cuts, hole, k, if k == 0 then k else k - 1);
      BoundedAt(acts, groups, cuts, k);
      ActAtIs(acts, cuts[k]);
      ActAtIs(acts, cuts[k + 1] - 1);
      if k > 0 {
        BoundedAt(acts, groups, cuts, k - 1);
        ActAtIs(acts, cuts[k] - 1);
      }
    }

    lemma ActLinks(hole: int)
      requires Agree(hole)
      ensures Distinct(acts)
      ensures forall i :: 0 <= i < |acts| ==> acts[i].prev == ActAt(acts, i - 1)
      ensures forall i :: 0 <= i < |acts| ==> acts[i].next == ActAt(acts, i + 1)
    {
    }

    /** The scan from the front of a group that all strategies but breadth make. */
    method ScanForward(newActivation: Activation, theGroup: SalienceGroup, ghost k: nat, ghost hole: int)
      returns (lastAct: Activation?, ghost p: nat)
      requires Agree(hole) && k < |groups| && theGroup == groups[k] && (hole == NO_HOLE || hole == k)
      ensures |cuts| == |groups| + 1 && 0 <= cuts[k] <= p <= cuts[k + 1] <= |acts|
      ensures lastAct == ActAt(acts, ForwardPlace(strategy, acts, cuts[k], cuts[k + 1], newActivation) - 1)
      ensures p == ForwardPlace(strategy, acts, cuts[k], cuts[k + 1], newActivation)
      ensures forall i :: cuts[k] <= i < p ==> Precedes(strategy, acts[i], newActivation)
      ensures p < cuts[k + 1] ==> !Precedes(strategy, acts[p], newActivation)
    {
      hide *;
      Span(hole, k);
      ActLinks(hole);
      GroupOfIs(groups, k - 1);
      p := cuts[k];
      ActAtIs(acts, p - 1);
      lastAct := ActivationBefore(theGroup, k, hole);
      var actPtr := theGroup.first;
      while actPtr != null
        invariant cuts[k] <= p <= cuts[k + 1] && lastAct == ActAt(acts, p - 1)
        invariant if actPtr == null then p == cuts[k + 1] else p < cuts[k + 1] && actPtr == acts[p]
        invariant forall i :: cuts[k] <= i < p ==> Precedes(strategy, acts[i], newActivation)
        decreases cuts[k + 1] - p
      {
        ActAtIs(acts, p);
        ActAtIs(acts, p + 1);
        if Precedes(strategy, actPtr, newActivation) {
          lastAct := actPtr;
          p := p + 1;
          if actPtr == theGroup.last {
            Apart(acts, p - 1, cuts[k + 1] - 1);
            break;
          } else {
            actPtr := actPtr.next;
          }
        } else {
          break;
        }
      }
      ForwardPlaceIs(strategy, acts, cuts[k], cuts[k + 1], p, newActivation);
    }

    method ActivationBefore(theGroup: SalienceGroup, ghost k: nat, ghost hole: int) returns (lastAct: Activation?)
      requires Agree(hole) && k < |groups| && theGroup == groups[k] && (hole == NO_HOLE || hole == k)
      ensures |cuts| == |groups| + 1 && lastAct == ActAt(acts, cuts[k] - 1)
    {
      hide *;
      Span(hole, k);
      GroupOfIs(groups, k - 1);
      ActAtIs(acts, cuts[k] - 1);
      if theGroup.prev == null {
        lastAct := null;
      } else {
        lastAct := theGroup.prev.last;
      }
    }

    /** The scan from the end of a group that the breadth strategy makes. */
    method ScanBackward(newActivation: Activation, theGroup: SalienceGroup, ghost k: nat, ghost hole: int)
      returns (lastAct: Activation?, ghost p: nat)
      requires Agree(hole) && k < |groups| && theGroup == groups[k] && (hole == NO_HOLE || hole == k)
      ensures |cuts| == |groups| + 1 && 0 <= cuts[k] <= p <= cuts[k + 1] <= |acts|
      ensures lastAct == ActAt(acts, BackwardPlace(strategy, acts, cuts[k], cuts[k + 1], newActivation) - 1)
      ensures p == BackwardPlace(strategy, acts, cuts[k], cuts[k + 1], newActivation)
      ensures forall i :: p <= i < cuts[k + 1] ==> Precedes(strategy, newActivation, acts[i])
      ensures cuts[k] < p ==> !Precedes(strategy, newActivation, acts[p - 1])
    {
      hide *;
      Span(hole, k);
      ActLinks(hole);
      p := cuts[k + 1];
      ActAtIs(acts, p - 1);
      if theGroup.last == null {
        lastAct := ActivationBefore(theGroup, k, hole);
      } else {
        lastAct := theGroup.last;
      }
      var actPtr := theGroup.last;
      while actPtr != null
        invariant cuts[k] <= p <= cuts[k + 1] && (actPtr == null ==> lastAct == ActAt(acts, p - 1))
        invariant if actPtr == null then p == cuts[k] else cuts[k] < p && actPtr == acts[p - 1]
        invariant forall i :: p <= i < cuts[k + 1] ==> Precedes(strategy, newActivation, acts[i])
        decreases p
      {
        ActAtIs(acts, p - 1);
        ActAtIs(acts, p - 2);
        if Precedes(strategy, newActivation, actPtr) {
          p := p - 1;
          Apart(acts, p, cuts[k]);
          if actPtr == theGroup.first {
            lastAct := ActivationBefore(theGroup, k, hole);
            break;
          } else {
            actPtr := actPtr.prev;
          }
        } else {
          lastAct := actPtr;
          break;
        }
      }
      BackwardPlaceIs(strategy, acts, cuts[k], cuts[k + 1], p, newActivation);
    }

    /** The group's new ends, once the activation before the new one is known. */
    method UpdateGroup(newActivation: Activation, theGroup: SalienceGroup, lastAct: Activation?,
                       ghost k: nat, ghost hole: int, ghost p: nat)
      requires Agree(hole) && k < |groups| && theGroup == groups[k] && (hole == NO_HOLE || hole == k)
      requires |cuts| == |groups| + 1 && cuts[k] <= p <= cuts[k + 1] && lastAct == ActAt(acts, p - 1)
      modifies theGroup`first, theGroup`last
      ensures theGroup.first == if p == cuts[k] then newActivation else ActAt(acts, cuts[k])
      ensures theGroup.last == if p == cuts[k + 1] then newActivation else ActAt(acts, cuts[k + 1] - 1)
    {
      hide *;
      Span(hole, k);
      ActLinks(hole);
      GroupOfIs(groups, k - 1);
      ActAtIs(acts, p - 1);
      ActAtIs(acts, cuts[k]);
      ActAtIs(acts, cuts[k + 1] - 1);
      if k > 0 && p > 0 { Apart(acts, p - 1, cuts[k] - 1); }
      if p > 0 && cuts[k] < cuts[k + 1] { Apart(acts, p - 1, cuts[k + 1] - 1); }
      if lastAct == null || (theGroup.prev != null && theGroup.prev.last == lastAct) {
        theGroup.first := newActivation;
      }
      if theGroup.last == null || theGroup.last == lastAct {
        theGroup.last := newActivation;
      }
    }

    /** The agenda's order by the current strategy, within each salience. */
    ghost predicate Ordered()
      reads this`acts, this`strategy, acts`salience
    {
      InOrder(strategy, acts, Saliences(acts))
    }

    method PlaceFromStart(newActivation: Activation, theGroup: SalienceGroup, ghost k: nat, ghost hole: int)
      returns (placeAfter: Activation?, ghost p: nat)
      requires Agree(hole) && k < |groups| && theGroup == groups[k] && (hole == NO_HOLE || hole == k)
      modifies theGroup`first, theGroup`last
      ensures |cuts| == |groups| + 1 && 0 <= cuts[k] <= p <= cuts[k + 1] <= |acts| && placeAfter == ActAt(acts, p - 1)
      ensures theGroup.first == if p == cuts[k] then newActivation else ActAt(acts, cuts[k])
      ensures theGroup.last == if p == cuts[k + 1] then newActivation else ActAt(acts, cuts[k + 1] - 1)
      ensures Ordered() ==> InPlace(strategy, acts, cuts[k], cuts[k + 1], p, newActivation)
    {
      hide *;
      Span(hole, k);
      OrderedSpan(hole, k);
      placeAfter, p := ScanForward(newActivation, theGroup, k, hole);
      UpdateGroup(newActivation, theGroup, placeAfter, k, hole, p);
      if Ordered() { ForwardInPlace(strategy, acts, cuts[k], cuts[k + 1], p, newActivation); }
    }

    /** The lex and mea strategies look at the end of the group first. */
    method PlaceFromEnd(newActivation: Activation, theGroup: SalienceGroup, ghost k: nat, ghost hole: int)
      returns (placeAfter: Activation?, ghost p: nat)
      requires Agree(hole) && k < |groups| && theGroup == groups[k] && (hole == NO_HOLE || hole == k)
      modifies theGroup`first, theGroup`last
      ensures |cuts| == |groups| + 1 && 0 <= cuts[k] <= p <= cuts[k + 1] <= |acts| && placeAfter == ActAt(acts, p - 1)
      ensures theGroup.first == if p == cuts[k] then newActivation else ActAt(acts, cuts[k])
      ensures theGroup.last == if p == cuts[k + 1] then newActivation else ActAt(acts, cuts[k + 1] - 1)
      ensures Ordered() ==> InPlace(strategy, acts, cuts[k], cuts[k + 1], p, newActivation)
    {
      hide *;
      Span(hole, k);
      OrderedSpan(hole, k);
      var actPtr := theGroup.last;
      if actPtr != null && Precedes(strategy, actPtr, newActivation) {
        p := cuts[k + 1];
        ActAtIs(acts, cuts[k]);
        ActAtIs(acts, p - 1);
        theGroup.last := newActivation;
        if Ordered() {
          BothPrecede(strategy, actPtr, newActivation);
          ScannedBackward(newActivation, cuts[k], cuts[k + 1], p);
        }
        return actPtr, p;
      }
      placeAfter, p := PlaceFromStart(newActivation, theGroup, k, hole);
    }

    /** Where the strategy puts the activation within its group. */
    method PlaceInGroup(newActivation: Activation, theGroup: SalienceGroup, ghost k: nat, ghost hole: int)
      returns (placeAfter: Activation?, ghost p: nat)
      requires Agree(hole) && k < |groups| && theGroup == groups[k] && (hole == NO_HOLE || hole == k)
      modifies theGroup`first, theGroup`last
      ensures |cuts| == |groups| + 1 && 0 <= cuts[k] <= p <= cuts[k + 1] <= |acts| && placeAfter == ActAt(acts, p - 1)
      ensures theGroup.first == if p == cuts[k] then newActivation else ActAt(acts, cuts[k])
      ensures theGroup.last == if p == cuts[k + 1] then newActivation else ActAt(acts, cuts[k + 1] - 1)
      ensures Ordered() ==> InPlace(strategy, acts, cuts[k], cuts[k + 1], p, newActivation)
    {
      hide *;
      Span(hole, k);
      OrderedSpan(hole, k);
      match strategy {
        case Breadth =>
          placeAfter, p := ScanBackward(newActivation, theGroup, k, hole);
          UpdateGroup(newActivation, theGroup, placeAfter, k, hole, p);
          if Ordered() { ScannedBackward(newActivation, cuts[k], cuts[k + 1], p); }
        case Lex | Mea =>
          placeAfter, p := PlaceFromEnd(newActivation, theGroup, k, hole);
        case Depth | Complexity | Simplicity | Random =>
          placeAfter, p := PlaceFromStart(newActivation, theGroup, k, hole);
      }
    }

    lemma ScannedBackward(newer: Activation, lo: nat, hi: nat, p: nat)
      requires lo <= p <= hi <= |acts| && SortedSpan(strategy, acts, lo, hi)
      requires forall i :: p <= i < hi ==> Precedes(strategy, newer, acts[i])
      requires lo < p ==> !Precedes(strategy, newer, acts[p - 1])
      ensures InPlace(strategy, acts, lo, hi, p, newer)
    {
      hide Precedes;
      BackwardInPlace(strategy, acts, lo, hi, p, newer);
    }

    lemma OrderedSpan(hole: int, k: nat)
      requires Agree(hole) && k < |groups| && |cuts| == |groups| + 1
      ensures Ordered() ==> SortedSpan(strategy, acts, cuts[k], cuts[k + 1])
    {
      if Ordered() {
        Parts(hole);
        hide Grouped, ActsChained, GroupsChained, Bounded, Precedes;
        InOrderSpan(strategy, acts, Saliences(acts), GroupSaliences(groups), cuts, hole, k);
      }
    }

    /** The activation's place, with its group already reaching around it. */
    method ChoosePlace(newActivation: Activation, theGroup: SalienceGroup, ghost k: nat, ghost hole: int)
      returns (placeAfter: Activation?, ghost p: nat)
      requires Agree(hole) && k < |groups| && theGroup == groups[k] && (hole == NO_HOLE || hole == k)
      modifies theGroup`first, theGroup`last
      ensures |cuts| == |groups| + 1 && 0 <= cuts[k] <= p <= cuts[k + 1] <= |acts| && placeAfter == ActAt(acts, p - 1)
      ensures Bounded(With(acts, p, newActivation), groups, Moved(cuts, k, 1))
      ensures Ordered() ==> InPlace(strategy, acts, cuts[k], cuts[k + 1], p, newActivation)
    {
      hide *;
      Parts(hole);
      Span(hole, k);
      Others(hole, k);
      ActAtIs(acts, 0);
      if agenda != null {
        placeAfter, p := PlaceInGroup(newActivation, theGroup, k, hole);
      } else {
        p, placeAfter := 0, null;
        ActAtIs(acts, -1);
        assert |acts| == 0;
        theGroup.first := newActivation;
        theGroup.last := newActivation;
        EmptyInPlace(strategy, acts, cuts[k], cuts[k + 1], newActivation);
      }
      OthersKept(k);
      InsertBounded(acts, groups, Saliences(acts), GroupSaliences(groups), cuts, hole, k, p, newActivation);
    }

    /** Puts the activation into its group and links it there. */
    method PlaceActivation(newActivation: Activation, theGroup: SalienceGroup, ghost k: nat, ghost hole: int)
      returns (ghost p: nat)
      requires Agree(hole) && k < |groups| && theGroup == groups[k] && (hole == NO_HOLE || hole == k)
      requires newActivation !in acts && newActivation.prev == null && newActivation.salience == theGroup.salience
      modifies this`agenda, this`agendaChanged, this`acts, this`cuts, newActivation`prev, newActivation`next
      modifies acts`prev, acts`next, theGroup`first, theGroup`last
      ensures Valid() && agendaChanged && p <= |old(acts)| && acts == With(old(acts), p, newActivation)
      ensures old(Ordered()) ==> Ordered()
    {
      hide *;
      agendaChanged := true;
      var placeAfter;
      Parts(hole);
      Span(hole, k);
      placeAfter, p := ChoosePlace(newActivation, theGroup, k, hole);
      InsertActivation(newActivation, placeAfter, k, hole, p);
    }

    /** The link into the agenda, after which list and groups agree again. */
    method InsertActivation(newActivation: Activation, placeAfter: Activation?, ghost k: nat, ghost hole: int,
                            ghost p: nat)
      requires agenda == ActAt(acts, 0) && groupings == GroupOf(groups, 0)
      requires ActsChained(acts) && GroupsChained(groups) && k < |groups| && |cuts| == |groups| + 1
      requires Grouped(Saliences(acts), GroupSaliences(groups), cuts, hole) && (hole == NO_HOLE || hole == k)
      requires newActivation !in acts && newActivation.prev == null && newActivation.salience == groups[k].salience
      requires 0 <= cuts[k] <= p <= cuts[k + 1] <= |acts| && placeAfter == ActAt(acts, p - 1)
      requires Bounded(With(acts, p, newActivation), groups, Moved(cuts, k, 1))
      requires Ordered() ==> InPlace(strategy, acts, cuts[k], cuts[k + 1], p, newActivation)
      modifies this`agenda, this`acts, this`cuts, newActivation`prev, newActivation`next, acts`prev, acts`next
      ensures Valid() && p <= |old(acts)| && acts == With(old(acts), p, newActivation)
      ensures old(Ordered()) ==> Ordered()
    {
      hide *;
      ghost var before, sal, gsal, c := acts, Saliences(acts), GroupSaliences(groups), cuts;
      OrderedIs();
      InsertGrouped(sal, gsal, c, hole, k, p);
      if Ordered() { PlacedInOrder(strategy, acts, sal, gsal, c, hole, k, p, newActivation); }
      LinkActivation(newActivation, placeAfter, p);
      WithActSaliences(before, p, newActivation);
      cuts := Moved(c, k, 1);
      Whole(NO_HOLE);
      OrderedIs();
    }

    lemma OrderedIs()
      ensures Ordered() <==> InOrder(strategy, acts, Saliences(acts))
    {
    }

    /** Setting the ends of group `k` does not disturb the others. */
    twostate lemma OthersKept(k: nat)
      requires old(BoundedBut(acts, groups, cuts, k)) && acts == old(acts) && groups == old(groups) && cuts == old(cuts)
      requires Distinct(groups) && k < |groups|
      requires forall g :: g in groups && g != groups[k] ==> g.first == old(g.first) && g.last == old(g.last)
      ensures BoundedBut(acts, groups, cuts, k)
    {
    }

    lemma Others(hole: int, k: nat)
      requires Agree(hole) && k < |groups|
      ensures BoundedBut(acts, groups, cuts, k) && Distinct(groups)
    {
    }

    /** The pointers around an activation inserted after `placeAfter`, or at the top. */
    method SpliceActivation(newActivation: Activation, placeAfter: Activation?, ghost p: nat)
      requires Distinct(acts) && p <= |acts| && newActivation !in acts && newActivation.prev == null
      requires placeAfter == ActAt(acts, p - 1) && agenda == ActAt(acts, 0)
      requires p > 0 ==> acts[p - 1].next == ActAt(acts, p)
      modifies this`agenda, newActivation`prev, newActivation`next, acts`prev, acts`next
      ensures newActivation.prev == ActAt(acts, p - 1) && newActivation.next == ActAt(acts, p)
      ensures agenda == if p == 0 then newActivation else old(agenda)
      ensures forall i :: 0 <= i < |acts| ==> acts[i].prev == if i == p then newActivation else old(acts[i].prev)
      ensures forall i :: 0 <= i < |acts| ==> acts[i].next == if i == p - 1 then newActivation else old(acts[i].next)
    {
      if placeAfter == null {
        newActivation.next := agenda;
        agenda := newActivation;
        if newActivation.next != null {
          newActivation.next.prev := newActivation;
        }
      } else {
        newActivation.next := placeAfter.next;
        newActivation.prev := placeAfter;
        placeAfter.next := newActivation;
        if newActivation.next != null {
          newActivation.next.prev := newActivation;
        }
      }
    }

    method LinkActivation(newActivation: Activation, placeAfter: Activation?, ghost p: nat)
      requires ActsChained(acts) && agenda == ActAt(acts, 0) && p <= |acts|
      requires newActivation !in acts && newActivation.prev == null && placeAfter == ActAt(acts, p - 1)
      modifies this`agenda, this`acts, newActivation`prev, newActivation`next, acts`prev, acts`next
      ensures acts == With(old(acts), p, newActivation)
      ensures ActsChained(acts) && agenda == ActAt(acts, 0)
    {
      hide ActAt, With, Distinct;
      ghost var before := acts;
      WithAt(before, p, newActivation);
      WithDistinct(before, p, newActivation);
      SpliceActivation(newActivation, placeAfter, p);
      acts := With(before, p, newActivation);
      ActAtWith(before, p, newActivation, 0);
      forall i | 0 <= i < |acts| ensures acts[i].prev == ActAt(acts, i - 1) {
        ActAtWith(before, p, newActivation, i - 1);
        assert i < p ==> acts[i] == before[i];
        assert i > p ==> acts[i] == before[i - 1];
      }
      forall i | 0 <= i < |acts| ensures acts[i].next == ActAt(acts, i + 1) {
        ActAtWith(before, p, newActivation, i + 1);
        assert i < p ==> acts[i] == before[i];
        assert i > p ==> acts[i] == before[i - 1];
      }
    }

    // ----------------------------------------------------------------------------------------
    // Removing activations
    // ----------------------------------------------------------------------------------------

    /** The pointers around a group that goes. */
    method UnspliceGroup(theGroup: SalienceGroup, ghost k: nat)
      requires Distinct(groups) && k < |groups| && theGroup == groups[k] && groupings == GroupOf(groups, 0)
      requires theGroup.prev == GroupOf(groups, k - 1) && theGroup.next == GroupOf(groups, k + 1)
      modifies this`groupings, groups`prev, groups`next
      ensures groupings == if k == 0 then GroupOf(groups, 1) else GroupOf(groups, 0)
      ensures forall i :: 0 <= i < |groups| ==>
        groups[i].prev == if i == k + 1 then GroupOf(groups, k - 1) else old(groups[i].prev)
      ensures forall i :: 0 <= i < |groups| ==>
        groups[i].next == if i == k - 1 then GroupOf(groups, k + 1) else old(groups[i].next)
    {
      if theGroup.prev == null {
        groupings := theGroup.next;
      } else {
        theGroup.prev.next := theGroup.next;
      }
      if theGroup.next != null {
        theGroup.next.prev := theGroup.prev;
      }
    }

    method UnlinkGroup(theGroup: SalienceGroup, ghost k: nat)
      requires GroupsChained(groups) && groupings == GroupOf(groups, 0) && k < |groups| && theGroup == groups[k]
      modifies this`groupings, this`groups, groups`prev, groups`next
      ensures groups == Without(old(groups), k)
      ensures GroupsChained(groups) && groupings == GroupOf(groups, 0)
    {
      hide GroupOf, Without, Distinct;
      ghost var before := groups;
      WithoutAt(before, k);
      WithoutDistinct(before, k);
      UnspliceGroup(theGroup, k);
      groups := Without(before, k);
      GroupOfWithout(before, k, 0);
      forall i | 0 <= i < |groups| ensures groups[i].prev == GroupOf(groups, i - 1) {
        GroupOfWithout(before, k, i - 1);
        assert i < k ==> groups[i] == before[i];
        assert i >= k ==> groups[i] == before[i + 1];
      }
      forall i | 0 <= i < |groups| ensures groups[i].next == GroupOf(groups, i + 1) {
        GroupOfWithout(before, k, i + 1);
        assert i < k ==> groups[i] == before[i];
        assert i >= k ==> groups[i] == before[i + 1];
      }
    }

    /** The group that holds position `p` is the one with its salience. */
    lemma GroupHolding(p: nat, k: nat)
      requires Valid() && p < |acts| && k < |groups| && groups[k].salience == acts[p].salience
      ensures |cuts| == |groups| + 1 && cuts[k] <= p < cuts[k + 1]
    {
      hide Grouped, ActsChained, GroupsChained, Bounded;
      CutsCount(Saliences(acts), GroupSaliences(groups), cuts, NO_HOLE);
      SameSalience(Saliences(acts), GroupSaliences(groups), cuts, NO_HOLE, p, k);
    }

    lemma SomeGroupHolds(p: nat)
      requires Valid() && p < |acts|
      ensures exists g :: 0 <= g < |groups| && groups[g].salience == acts[p].salience
    {
      hide Grouped, ActsChained, GroupsChained, Bounded;
      CutsCount(Saliences(acts), GroupSaliences(groups), cuts, NO_HOLE);
      var g := GroupAt(Saliences(acts), GroupSaliences(groups), cuts, NO_HOLE, p, |groups|);
      assert groups[g].salience == acts[p].salience;
    }

    /** The group of an activation, and when the activation is the only one in it. */
    lemma GroupOfActivation(p: nat, k: nat)
      requires Valid() && p < |acts| && k < |groups| && groups[k].salience == acts[p].salience
      ensures |cuts| == |groups| + 1 && 0 <= cuts[k] <= p < cuts[k + 1] <= |acts|
      ensures acts[p] == groups[k].first && acts[p] == groups[k].last <==> cuts[k] + 1 == cuts[k + 1]
      ensures groupings == GroupOf(groups, 0) && GroupsChained(groups)
      ensures cuts[k] + 1 < cuts[k + 1] ==>
        Grouped(Without(Saliences(acts), p), GroupSaliences(groups), Moved(cuts, k, -1), NO_HOLE)
    {
      hide *;
      Parts(NO_HOLE);
      GroupHolding(p, k);
      Span(NO_HOLE, k);
      ActLinks(NO_HOLE);
      Apart(acts, p, cuts[k]);
      Apart(acts, p, cuts[k + 1] - 1);
      RemoveGrouped(Saliences(acts), GroupSaliences(groups), cuts, k, p);
    }

    /** Takes the activation out of its group; the agenda itself still holds it. */
    method RemoveActivationFromGroup(theActivation: Activation, ghost p: nat)
      requires Valid() && p < |acts| && acts[p] == theActivation
      modifies this`groupings, this`groups, this`cuts, groups`prev, groups`next, groups`first, groups`last
      ensures groupings == GroupOf(groups, 0) && GroupsChained(groups)
      ensures Bounded(Without(acts, p), groups, cuts)
      ensures Grouped(Without(Saliences(acts), p), GroupSaliences(groups), cuts, NO_HOLE)
      ensures forall g :: g in groups ==> g in old(groups)
    {
      hide *;
      SomeGroupHolds(p);
      var theGroup;
      ghost var k;
      theGroup, k := FindSalienceGroup(theActivation.salience);
      if theGroup == null {
        assert false;
      } else {
        GroupOfActivation(p, k);
        if theActivation == theGroup.first && theActivation == theGroup.last {
          DropGroup(theGroup, k);
        } else {
          ShrinkGroup(theActivation, theGroup, k, p);
          cuts := Moved(cuts, k, -1);
        }
      }
    }

    /** A group whose only activation goes. */
    method DropGroup(theGroup: SalienceGroup, ghost k: nat)
      requires Valid() && k < |groups| && theGroup == groups[k]
      requires |cuts| == |groups| + 1 && 0 <= cuts[k] < |acts| && cuts[k] + 1 == cuts[k + 1]
      modifies this`groupings, this`groups, this`cuts, groups`prev, groups`next
      ensures groupings == GroupOf(groups, 0) && GroupsChained(groups)
      ensures Bounded(Without(acts, old(cuts[k])), groups, cuts)
      ensures Grouped(Without(Saliences(acts), old(cuts[k])), GroupSaliences(groups), cuts, NO_HOLE)
      ensures forall g :: g in groups ==> g in old(groups)
    {
      hide *;
      Parts(NO_HOLE);
      ghost var p, c := cuts[k], cuts;
      RemoveGrouped(Saliences(acts), GroupSaliences(groups), c, k, p);
      DropBounded(acts, groups, Saliences(acts), GroupSaliences(groups), c, k);
      WithoutSaliences(groups, k);
      CloseHole(Without(Saliences(acts), p), GroupSaliences(groups), Moved(c, k, -1), k);
      WithoutAt(groups, k);
      UnlinkGroup(theGroup, k);
      cuts := Without(Moved(c, k, -1), k + 1);
    }

    method ShrinkGroup(theActivation: Activation, theGroup: SalienceGroup, ghost k: nat, ghost p: nat)
      requires Valid() && p < |acts| && acts[p] == theActivation && k < |groups| && theGroup == groups[k]
      requires |cuts| == |groups| + 1 && cuts[k] <= p < cuts[k + 1] && cuts[k] + 1 < cuts[k + 1]
      modifies theGroup`first, theGroup`last
      ensures Bounded(Without(acts, p), groups, Moved(cuts, k, -1))
    {
      hide *;
      Parts(NO_HOLE);
      Span(NO_HOLE, k);
      ActLinks(NO_HOLE);
      Others(NO_HOLE, k);
      Apart(acts, p, cuts[k]);
      Apart(acts, p, cuts[k + 1] - 1);
      ActAtIs(acts, cuts[k]);
      ActAtIs(acts, cuts[k + 1] - 1);
      if theActivation == theGroup.first {
        theGroup.first := theActivation.next;
      } else if theActivation == theGroup.last {
        theGroup.last := theActivation.prev;
      }
      OthersKept(k);
      RemoveBounded(acts, groups, Saliences(acts), GroupSaliences(groups), cuts, k, p);
    }

    /** The pointers around an activation that goes, as RemoveActivation sets them. */
    method UnspliceRemoved(theActivation: Activation, ghost p: nat)
      requires Distinct(acts) && agenda == ActAt(acts, 0) && p < |acts| && theActivation == acts[p]
      requires theActivation.prev == ActAt(acts, p - 1) && theActivation.next == ActAt(acts, p + 1)
      modifies this`agenda, acts`prev, acts`next
      ensures agenda == ActAt(acts, if p == 0 then 1 else 0)
      ensures forall i :: 0 <= i < |acts| && i != p ==>
        acts[i].prev == if i == p + 1 then ActAt(acts, p - 1) else old(acts[i].prev)
      ensures forall i :: 0 <= i < |acts| && i != p ==>
        acts[i].next == if i == p - 1 then ActAt(acts, p + 1) else old(acts[i].next)
    {
      if theActivation.prev == null {
        agenda := agenda.next;
        if agenda != null {
          agenda.prev := null;
        }
      } else {
        theActivation.prev.next := theActivation.next;
        if theActivation.next != null {
          theActivation.next.prev := theActivation.prev;
        }
      }
    }

    /** The same as DetachActivation does it; the activation's own pointers are cleared. */
    method UnspliceDetached(theActivation: Activation, ghost p: nat)
      requires Distinct(acts) && agenda == ActAt(acts, 0) && p < |acts| && theActivation == acts[p]
      requires theActivation.prev == ActAt(acts, p - 1) && theActivation.next == ActAt(acts, p + 1)
      modifies this`agenda, acts`prev, acts`next
      ensures agenda == ActAt(acts, if p == 0 then 1 else 0)
      ensures forall i :: 0 <= i < |acts| && i != p ==>
        acts[i].prev == if i == p + 1 then ActAt(acts, p - 1) else old(acts[i].prev)
      ensures forall i :: 0 <= i < |acts| && i != p ==>
        acts[i].next == if i == p - 1 then ActAt(acts, p + 1) else old(acts[i].next)
      ensures theActivation.prev == null && theActivation.next == null
    {
      if theActivation == agenda {
        agenda := theActivation.next;
      }
      if theActivation.prev != null {
        theActivation.prev.next := theActivation.next;
      }
      if theActivation.next != null {
        theActivation.next.prev := theActivation.prev;
      }
      theActivation.prev := null;
      theActivation.next := null;
    }

    method UnlinkRemoved(theActivation: Activation, ghost p: nat)
      requires ActsChained(acts) && agenda == ActAt(acts, 0) && p < |acts| && theActivation == acts[p]
      modifies this`agenda, acts`prev, acts`next
      ensures ActsChained(Without(acts, p)) && agenda == ActAt(Without(acts, p), 0)
    {
      hide ActAt, Distinct, Without;
      UnspliceRemoved(theActivation, p);
      Rechained(acts, p);
    }

    method UnlinkDetached(theActivation: Activation, ghost p: nat)
      requires ActsChained(acts) && agenda == ActAt(acts, 0) && p < |acts| && theActivation == acts[p]
      modifies this`agenda, acts`prev, acts`next
      ensures ActsChained(Without(acts, p)) && agenda == ActAt(Without(acts, p), 0)
      ensures theActivation.prev == null && theActivation.next == null
    {
      hide ActAt, Distinct, Without;
      UnspliceDetached(theActivation, p);
      Rechained(acts, p);
    }

    /** Removing an activation keeps the others' order. */
    twostate lemma StillOrdered(p: nat)
      requires p < |old(acts)| && acts == Without(old(acts), p) && strategy == old(strategy) && old(Ordered())
      requires forall a :: a in old(acts) ==> a.salience == old(a.salience)
      ensures Ordered()
    {
      hide *;
      OrderedIs();
      WithoutActSaliences(old(acts), p);
      SaliencesKept(old(acts));
      RemovedInOrder(strategy, old(acts), Saliences(old(acts)), p);
    }

    twostate lemma SaliencesKept(was: seq<Activation>)
      requires was == old(acts) && strategy == old(strategy) && old(Ordered())
      requires forall a :: a in was ==> a.salience == old(a.salience)
      ensures InOrder(strategy, was, Saliences(was))
    {
      assert Saliences(was) == old(Saliences(was));
    }

    /** List, groups and spans agree without the activation. */
    lemma WholeWithout(before: seq<Activation>, p: nat)
      requires p < |before| && acts == Without(before, p)
      requires ActsChained(Without(before, p)) && agenda == ActAt(Without(before, p), 0)
      requires groupings == GroupOf(groups, 0) && GroupsChained(groups) && Bounded(Without(before, p), groups, cuts)
      requires Grouped(Without(Saliences(before), p), GroupSaliences(groups), cuts, NO_HOLE)
      ensures Valid()
    {
      hide *;
      WithoutActSaliences(before, p);
      Whole(NO_HOLE);
    }

    method TakeOff(theActivation: Activation, ghost p: nat)
      requires Valid() && p < |acts| && acts[p] == theActivation
      modifies this`agenda, this`acts, this`groupings, this`groups, this`cuts, this`agendaChanged
      modifies acts`prev, acts`next, groups`prev, groups`next, groups`first, groups`last
      ensures Valid() && acts == Without(old(acts), p) && agendaChanged
      ensures forall g :: g in groups ==> g in old(groups)
      ensures old(Ordered()) ==> Ordered()
    {
      hide *;
      ghost var before := acts;
      Parts(NO_HOLE);
      RemoveActivationFromGroup(theActivation, p);
      UnlinkRemoved(theActivation, p);
      acts := Without(before, p);
      WholeWithout(before, p);
      agendaChanged := true;
      if old(Ordered()) { StillOrdered(p); }
    }

    method RemoveActivation(theActivation: Activation, updateAgenda: bool, updateLinks: bool, ghost p: nat)
      requires updateAgenda ==> Valid() && p < |acts| && acts[p] == theActivation
      modifies this`agenda, this`acts, this`groupings, this`groups, this`cuts, this`agendaChanged
      modifies this`numberOfActivations
      modifies acts`prev, acts`next, groups`prev, groups`next, groups`first, groups`last, theActivation.basis`marker
      ensures numberOfActivations == old(numberOfActivations) - 1
      ensures theActivation.basis.marker == if updateLinks then null else old(theActivation.basis.marker)
      ensures updateAgenda ==> Valid() && acts == Without(old(acts), p) && agendaChanged
      ensures updateAgenda ==> forall g :: g in groups ==> g in old(groups)
      ensures updateAgenda && old(Ordered()) ==> Ordered()
      ensures !updateAgenda ==> unchanged(`agenda, `acts, `groupings, `groups, `cuts, `agendaChanged)
      ensures !updateAgenda ==> unchanged(acts`prev, acts`next, groups`prev, groups`next, groups`first, groups`last)
    {
      hide *;
      if updateAgenda {
        TakeOff(theActivation, p);
      }
      if updateLinks {
        theActivation.basis.marker := null;
      }
      numberOfActivations := numberOfActivations - 1;
    }

    method DetachActivation(theActivation: Activation, ghost p: nat)
      requires Valid() && p < |acts| && acts[p] == theActivation
      modifies this`agenda, this`acts, this`groupings, this`groups, this`cuts, this`agendaChanged
      modifies acts`prev, acts`next, groups`prev, groups`next, groups`first, groups`last
      ensures Valid() && acts == Without(old(acts), p) && agendaChanged
      ensures forall g :: g in groups ==> g in old(groups)
      ensures theActivation.prev == null && theActivation.next == null
      ensures old(Ordered()) ==> Ordered()
    {
      hide *;
      ghost var before := acts;
      Parts(NO_HOLE);
      RemoveActivationFromGroup(theActivation, p);
      UnlinkDetached(theActivation, p);
      acts := Without(before, p);
      WholeWithout(before, p);
      agendaChanged := true;
      if old(Ordered()) { StillOrdered(p); }
    }

    // ----------------------------------------------------------------------------------------
    // Adding activations
    // ----------------------------------------------------------------------------------------

    method EvaluateSalience(theRule: Defrule, e: Evaluation) returns (salience: int)
      modifies theRule`salience
      ensures salience == theRule.salience
      ensures theRule.salience == Evaluated(salienceEvaluation, old(theRule.salience), theRule.dynamicSalience, e)
    {
      if salienceEvaluation == WhenDefined {
        return theRule.salience;
      }
      if !theRule.dynamicSalience {
        return theRule.salience;
      }
      if e == EvaluationError {
        return theRule.salience;
      }
      if !e.Value? {
        return theRule.salience;
      }
      var value := AsInt(e.v);
      if value > MAX_DEFRULE_SALIENCE || value < MIN_DEFRULE_SALIENCE {
        return theRule.salience;
      }
      theRule.salience := value;
      return theRule.salience;
    }

    /** A partial match that marks none of the activations gets a mark. */
    twostate lemma StillMarked(binds: PartialMatch)
      requires acts == old(acts) && old(Marked(acts)) && old(binds.marker) == null
      requires forall a :: a in acts && a.basis != binds ==> a.basis.marker == old(a.basis.marker)
      ensures Marked(acts)
    {
    }

    /** The two calls by which an activation gets onto the agenda. */
    method GroupAndPlace(newActivation: Activation) returns (ghost p: nat)
      requires Valid() && newActivation !in acts && newActivation.prev == null
      modifies this`agenda, this`acts, this`groupings, this`groups, this`cuts, this`agendaChanged
      modifies newActivation`prev, newActivation`next
      modifies acts`prev, acts`next, groups`prev, groups`next, groups`first, groups`last
      ensures Valid() && agendaChanged && p <= |old(acts)| && acts == With(old(acts), p, newActivation)
      ensures forall g :: g in groups ==> g in old(groups) || fresh(g)
      ensures old(Ordered()) ==> Ordered()
    {
      hide *;
      var theGroup;
      ghost var k, hole;
      theGroup, k, hole := ReuseOrCreateSalienceGroup(newActivation.salience);
      assert theGroup in groups;
      p := PlaceActivation(newActivation, theGroup, k, hole);
    }

    /** A new activation, stamped, and marked by its partial match. */
    method CreateActivation(theRule: Defrule, binds: PartialMatch, randomID: int, e: Evaluation)
      returns (newActivation: Activation)
      requires Valid()
      modifies this`numberOfActivations, this`currentTimetag, theRule`salience, binds`marker
      ensures fresh(newActivation) && newActivation.prev == null
      ensures newActivation.theRule == theRule && newActivation.basis == binds && binds.marker == newActivation
      ensures newActivation.timetag == old(currentTimetag) && newActivation.salience == theRule.salience
      ensures theRule.salience == Evaluated(salienceEvaluation, old(theRule.salience), theRule.dynamicSalience, e)
      ensures numberOfActivations == old(numberOfActivations) + 1 && currentTimetag == old(currentTimetag) + 1
      ensures old(Marked(acts)) && old(binds.marker) == null ==> Marked(acts)
    {
      hide *;
      var salience := EvaluateSalience(theRule, e);
      newActivation := new Activation(theRule, binds, currentTimetag, salience, randomID);
      currentTimetag := currentTimetag + 1;
      numberOfActivations := numberOfActivations + 1;
      binds.marker := newActivation;
      if old(Marked(acts)) && old(binds.marker) == null { StillMarked(binds); }
    }

    /** The newest activation stands first of its salience under depth and last under breadth. */
    lemma NewestPlaced(before: seq<Activation>, p: nat, newer: Activation)
      requires Valid() && p <= |before| && acts == With(before, p, newer)
      ensures Ordered() && Stamped(before, newer.timetag) && strategy == Depth ==>
        forall i :: 0 <= i < p ==> acts[i].salience > newer.salience
      ensures Ordered() && Stamped(before, newer.timetag) && strategy == Breadth ==>
        forall i :: p < i < |acts| ==> acts[i].salience < newer.salience
    {
      hide *;
      WithAt(before, p, newer);
      Descending();
      if Ordered() && Stamped(before, newer.timetag) {
        forall i | 0 <= i < |acts| && i != p ensures acts[i].timetag < newer.timetag {
          StampedAt(before, newer.timetag, if i < p then i else i - 1);
        }
        forall i | 0 <= i < p && strategy == Depth ensures acts[i].salience > newer.salience {
          if acts[i].salience == newer.salience { InTurn(i, p); }
        }
        forall i | p < i < |acts| && strategy == Breadth ensures acts[i].salience < newer.salience {
          if acts[i].salience == newer.salience { InTurn(p, i); }
        }
      }
    }

    lemma InTurn(i: nat, j: nat)
      requires Ordered() && i < j < |acts| && acts[i].salience == acts[j].salience
      ensures strategy == Depth ==> acts[j].timetag <= acts[i].timetag
      ensures strategy == Breadth ==> acts[i].timetag <= acts[j].timetag
    {
      assert MayPrecede(strategy, acts[i], acts[j]);
    }

    lemma Descending()
      requires Valid()
      ensures forall i, j :: 0 <= i < j < |acts| ==> acts[i].salience >= acts[j].salience
    {
      hide *;
      Parts(NO_HOLE);
      forall i, j | 0 <= i < j < |acts| ensures acts[i].salience >= acts[j].salience {
        SaliencesDescend(Saliences(acts), GroupSaliences(groups), cuts, NO_HOLE, i, j);
      }
    }

    method AddActivation(theRule: Defrule, binds: PartialMatch, randomID: int, e: Evaluation)
      returns (newActivation: Activation, ghost p: nat)
      requires Valid()
      modifies this`agenda, this`acts, this`groupings, this`groups, this`cuts, this`agendaChanged
      modifies this`numberOfActivations, this`currentTimetag, theRule`salience, binds`marker
      modifies acts`prev, acts`next, groups`prev, groups`next, groups`first, groups`last
      ensures Valid() && fresh(newActivation) && p <= |old(acts)| && acts == With(old(acts), p, newActivation)
      ensures newActivation.theRule == theRule && newActivation.basis == binds && binds.marker == newActivation
      ensures newActivation.timetag == old(currentTimetag) && newActivation.salience == theRule.salience
      ensures theRule.salience == Evaluated(salienceEvaluation, old(theRule.salience), theRule.dynamicSalience, e)
      ensures numberOfActivations == old(numberOfActivations) + 1 && currentTimetag == old(currentTimetag) + 1
      ensures forall g :: g in groups ==> g in old(groups) || fresh(g)
      ensures agendaChanged && (old(Ordered()) ==> Ordered())
      ensures old(Stamped(acts, currentTimetag)) ==> Stamped(acts, currentTimetag)
      ensures old(Marked(acts)) && old(binds.marker) == null ==> Marked(acts)
      ensures old(Ordered() && Stamped(acts, currentTimetag)) && strategy == Depth ==>
        forall i :: 0 <= i < p ==> acts[i].salience > newActivation.salience
      ensures old(Ordered() && Stamped(acts, currentTimetag)) && strategy == Breadth ==>
        forall i :: p < i < |acts| ==> acts[i].salience < newActivation.salience
    {
      hide *;
      newActivation := CreateActivation(theRule, binds, randomID, e);
      p := GroupAndPlace(newActivation);
      NewestPlaced(old(acts), p, newActivation);
      WithStamped(old(acts), p, newActivation, old(currentTimetag));
      WithMarked(old(acts), p, newActivation);
    }
  }
}
