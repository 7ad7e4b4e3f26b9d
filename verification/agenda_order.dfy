/** What the agenda is made of, and the orders the conflict resolution strategies keep within a
    salience group. */
module AgendaOrder {

  /** What one evaluation of a rule's salience expression yields; another one may yield something else. */
  datatype Evaluation = EvaluationError | NonInteger | Value(v: int)

  class Defrule {
    const complexity: int
    /** Whether the salience is an expression. */
    const dynamicSalience: bool
    var salience: int

    constructor (c: int, s: int, d: bool) {
      complexity, salience, dynamicSalience := c, s, d;
    }
  }

  /** The time tag of the first pattern's item; -1 if it matched none. */
  type FirstTag = x: int | x == -1 || x > 0 witness -1

  class PartialMatch {
    const sortedTags: seq<nat>
    const firstTag: FirstTag
    const activates: bool
    var marker: Activation?

    constructor (tags: seq<nat>, first: FirstTag, a: bool) {
      sortedTags, firstTag, activates, marker := tags, first, a, null;
    }
  }

  class Activation {
    const theRule: Defrule
    const basis: PartialMatch
    const timetag: nat
    const randomID: int
    var salience: int
    var prev: Activation?
    var next: Activation?

    constructor (rule: Defrule, match_: PartialMatch, tag: nat, s: int, random: int)
      ensures theRule == rule && basis == match_ && timetag == tag && salience == s && randomID == random
      ensures prev == null && next == null
    {
      theRule, basis, timetag, salience, randomID := rule, match_, tag, s, random;
      prev, next := null, null;
    }
  }

  class SalienceGroup {
    var salience: int
    var first: Activation?
    var last: Activation?
    var next: SalienceGroup?
    var prev: SalienceGroup?

    constructor (s: int)
      ensures salience == s && first == null && last == null && next == null && prev == null
    {
      salience, first, last, next, prev := s, null, null, null, null;
    }
  }

  datatype Strategy = Depth | Breadth | Lex | Mea | Complexity | Simplicity | Random

  datatype Flag = LessThan | Equal | GreaterThan

  // ------------------------------------------------------------------------------------------
  // Comparing activations
  // ------------------------------------------------------------------------------------------

  /** Sorted time tags: element by element, then the longer match is the greater. */
  function CompareTags(mine: seq<nat>, theirs: seq<nat>): Flag {
    if mine == [] && theirs == [] then Equal
    else if mine == [] then LessThan
    else if theirs == [] then GreaterThan
    else if mine[0] < theirs[0] then LessThan
    else if mine[0] > theirs[0] then GreaterThan
    else CompareTags(mine[1..], theirs[1..])
  }

  /** ComparePartialMatches: how the new activation compares with one already on the agenda. */
  function ComparePartialMatches(act: Activation, newer: Activation): Flag {
    var tags := CompareTags(newer.basis.sortedTags, act.basis.sortedTags);
    if !tags.Equal? then tags
    else if newer.theRule.complexity < act.theRule.complexity then LessThan
    else if newer.theRule.complexity > act.theRule.complexity then GreaterThan
    else Equal
  }

  /** The comparison of the mea strategy: the first pattern's time tag counts before all others. */
  function CompareMea(act: Activation, newer: Activation): Flag {
    if act.basis.firstTag < newer.basis.firstTag then GreaterThan
    else if act.basis.firstTag > newer.basis.firstTag then LessThan
    else ComparePartialMatches(act, newer)
  }

  /** `a` must stand before `b`. */
  predicate Precedes(s: Strategy, a: Activation, b: Activation) {
    match s
    case Depth => b.timetag < a.timetag
    case Breadth => a.timetag < b.timetag
    case Lex =>
      var flag := ComparePartialMatches(a, b);
      flag.LessThan? || (flag.Equal? && b.timetag > a.timetag)
    case Mea =>
      var flag := CompareMea(a, b);
      flag.LessThan? || (flag.Equal? && b.timetag > a.timetag)
    case Complexity =>
      b.theRule.complexity < a.theRule.complexity
      || (b.theRule.complexity == a.theRule.complexity && b.timetag > a.timetag)
    case Simplicity =>
      b.theRule.complexity > a.theRule.complexity
      || (b.theRule.complexity == a.theRule.complexity && b.timetag > a.timetag)
    case Random =>
      b.randomID > a.randomID || (b.randomID == a.randomID && b.timetag > a.timetag)
  }

  /** `a` may stand before `b`. */
  predicate MayPrecede(s: Strategy, a: Activation, b: Activation) { !Precedes(s, b, a) }

  lemma {:induction false} TagsFlip(a: seq<nat>, b: seq<nat>)
    ensures CompareTags(a, b).LessThan? <==> CompareTags(b, a).GreaterThan?
    ensures CompareTags(a, b).Equal? <==> CompareTags(b, a).Equal?
    ensures CompareTags(a, b).Equal? ==> a == b
  {
    if a != [] && b != [] && a[0] == b[0] {
      TagsFlip(a[1..], b[1..]);
      assert a == [a[0]] + a[1..] && b == [b[0]] + b[1..];
    }
  }

  lemma {:induction false} TagsTransitive(a: seq<nat>, b: seq<nat>, c: seq<nat>)
    requires !CompareTags(a, b).LessThan? && !CompareTags(b, c).LessThan?
    ensures !CompareTags(a, c).LessThan?
    ensures CompareTags(a, c).Equal? ==> CompareTags(a, b).Equal? && CompareTags(b, c).Equal?
  {
    if a != [] && b != [] && c != [] && a[0] == b[0] == c[0] {
      TagsTransitive(a[1..], b[1..], c[1..]);
    }
  }

  /** Every strategy's order is transitive, so the order within a group is well defined. */
  lemma MayPrecedeTransitive(s: Strategy, a: Activation, b: Activation, c: Activation)
    requires MayPrecede(s, a, b) && MayPrecede(s, b, c)
    ensures MayPrecede(s, a, c)
  {
    if s.Lex? || s.Mea? {
      var x, y, z := a.basis.sortedTags, b.basis.sortedTags, c.basis.sortedTags;
      hide CompareTags;
      TagsFlip(x, y);
      TagsFlip(y, z);
      TagsFlip(x, z);
      if !CompareTags(x, y).LessThan? && !CompareTags(y, z).LessThan? {
        TagsTransitive(x, y, z);
      }
    }
  }

  /** Of two activations at least one may stand before the other. */
  lemma MayPrecedeTotal(s: Strategy, a: Activation, b: Activation)
    ensures MayPrecede(s, a, b) || MayPrecede(s, b, a)
  {
    if s.Lex? || s.Mea? {
      TagsFlip(a.basis.sortedTags, b.basis.sortedTags);
      hide CompareTags;
    }
  }

  // ------------------------------------------------------------------------------------------
  // Saliences in groups
  // ------------------------------------------------------------------------------------------

  /** The saliences along the agenda are cut into consecutive groups with the saliences `gsal`; group
      `g` reaches from cuts[g] to cuts[g + 1]. Only group `hole`, if there is one, is empty. */
  ghost predicate Grouped(sal: seq<int>, gsal: seq<int>, cuts: seq<int>, hole: int) {
    && |cuts| == |gsal| + 1 && cuts[0] == 0 && cuts[|gsal|] == |sal|
    && (forall g :: 0 <= g < |gsal| ==> if g == hole then cuts[g] == cuts[g + 1] else cuts[g] < cuts[g + 1])
    && (forall g, i :: 0 <= g < |gsal| && cuts[g] <= i < cuts[g + 1] && 0 <= i < |sal| ==> sal[i] == gsal[g])
    && (forall g, h :: 0 <= g < h < |gsal| ==> gsal[g] > gsal[h])
  }

  const NO_HOLE := -1

  lemma GroupsDescend(sal: seq<int>, gsal: seq<int>, cuts: seq<int>, hole: int)
    requires Grouped(sal, gsal, cuts, hole)
    ensures forall g, h :: 0 <= g < h < |gsal| ==> gsal[g] > gsal[h]
  {
  }

  lemma CutsCount(sal: seq<int>, gsal: seq<int>, cuts: seq<int>, hole: int)
    requires Grouped(sal, gsal, cuts, hole)
    ensures |cuts| == |gsal| + 1 && cuts[0] == 0 && cuts[|gsal|] == |sal|
  {
  }

  ghost function Without<T>(s: seq<T>, i: nat): seq<T>
    requires i < |s|
  {
    s[..i] + s[i + 1..]
  }

  ghost function With<T>(s: seq<T>, i: nat, x: T): seq<T>
    requires i <= |s|
  {
    s[..i] + [x] + s[i..]
  }

  lemma WithAt<T>(s: seq<T>, p: nat, x: T)
    requires p <= |s|
    ensures |With(s, p, x)| == |s| + 1
    ensures With(s, p, x)[p] == x
    ensures forall i :: 0 <= i < p ==> With(s, p, x)[i] == s[i]
    ensures forall i :: p < i <= |s| ==> With(s, p, x)[i] == s[i - 1]
  {
  }

  lemma WithDistinct<T>(s: seq<T>, p: nat, x: T)
    requires Distinct(s) && p <= |s| && x !in s
    ensures Distinct(With(s, p, x))
  {
  }

  ghost function ActAt(acts: seq<Activation>, i: int): Activation? {
    if 0 <= i < |acts| then acts[i] else null
  }

  ghost function GroupOf(groups: seq<SalienceGroup>, i: int): SalienceGroup? {
    if 0 <= i < |groups| then groups[i] else null
  }

  lemma WithoutAt<T>(s: seq<T>, p: nat)
    requires p < |s|
    ensures |Without(s, p)| == |s| - 1
    ensures forall i :: 0 <= i < p ==> Without(s, p)[i] == s[i]
    ensures forall i :: p <= i < |s| - 1 ==> Without(s, p)[i] == s[i + 1]
  {
  }

  lemma WithoutDistinct<T>(s: seq<T>, p: nat)
    requires Distinct(s) && p < |s|
    ensures Distinct(Without(s, p)) && s[p] !in Without(s, p)
    ensures forall x :: x in Without(s, p) <==> x in s && x != s[p]
  {
    WithoutAt(s, p);
    hide Without;
    forall x | x in s && x != s[p] ensures x in Without(s, p) {
      var i :| 0 <= i < |s| && s[i] == x;
      assert Without(s, p)[if i < p then i else i - 1] == x;
    }
  }

  lemma ActAtWithout(s: seq<Activation>, p: nat, i: int)
    requires p < |s|
    ensures ActAt(Without(s, p), i) == if i < p then ActAt(s, i) else ActAt(s, i + 1)
  {
    WithoutAt(s, p);
    hide Without;
  }

  lemma GroupOfWithout(s: seq<SalienceGroup>, p: nat, i: int)
    requires p < |s|
    ensures GroupOf(Without(s, p), i) == if i < p then GroupOf(s, i) else GroupOf(s, i + 1)
  {
    WithoutAt(s, p);
    hide Without;
  }

  lemma GroupOfIs(groups: seq<SalienceGroup>, i: int)
    ensures GroupOf(groups, i) == if 0 <= i < |groups| then groups[i] else null
  {
  }

  lemma ActAtIs(acts: seq<Activation>, i: int)
    ensures ActAt(acts, i) == if 0 <= i < |acts| then acts[i] else null
  {
  }

  lemma ActAtWith(s: seq<Activation>, p: nat, x: Activation, i: int)
    requires p <= |s|
    ensures ActAt(With(s, p, x), i) == if i < p then ActAt(s, i) else if i == p then x else ActAt(s, i - 1)
  {
    WithAt(s, p, x);
    hide With;
  }


  lemma GroupOfWith(s: seq<SalienceGroup>, p: nat, x: SalienceGroup, i: int)
    requires p <= |s|
    ensures GroupOf(With(s, p, x), i) == if i < p then GroupOf(s, i) else if i == p then x else GroupOf(s, i - 1)
  {
    WithAt(s, p, x);
    hide With;
  }


  /** The cuts after group `g` moved by `d`. */
  ghost function Moved(cuts: seq<int>, g: int, d: int): (r: seq<int>)
    ensures |r| == |cuts|
    ensures forall i :: 0 <= i < |r| ==> r[i] == if i <= g then cuts[i] else cuts[i] + d
  {
    seq(|cuts|, i requires 0 <= i < |cuts| => if i <= g then cuts[i] else cuts[i] + d)
  }

  lemma {:induction false} CutsAscend(sal: seq<int>, gsal: seq<int>, cuts: seq<int>, hole: int, g: nat, h: nat)
    requires Grouped(sal, gsal, cuts, hole) && g <= h <= |gsal|
    ensures 0 <= cuts[g] <= cuts[h] <= |sal|
    decreases |gsal| - g
  {
    CutsAbove(sal, gsal, cuts, hole, g);
    if g < h {
      assert if g == hole then cuts[g] == cuts[g + 1] else cuts[g] < cuts[g + 1];
      CutsAscend(sal, gsal, cuts, hole, g + 1, h);
    } else {
      CutsBelow(sal, gsal, cuts, hole, g);
    }
  }

  lemma {:induction false} CutsAbove(sal: seq<int>, gsal: seq<int>, cuts: seq<int>, hole: int, g: nat)
    requires Grouped(sal, gsal, cuts, hole) && g <= |gsal|
    ensures 0 <= cuts[g]
    decreases g
  {
    if g > 0 {
      CutsAbove(sal, gsal, cuts, hole, g - 1);
      assert if g - 1 == hole then cuts[g - 1] == cuts[g - 1 + 1] else cuts[g - 1] < cuts[g - 1 + 1];
    }
  }

  lemma {:induction false} CutsBelow(sal: seq<int>, gsal: seq<int>, cuts: seq<int>, hole: int, g: nat)
    requires Grouped(sal, gsal, cuts, hole) && g <= |gsal|
    ensures cuts[g] <= |sal|
    decreases |gsal| - g
  {
    if g < |gsal| {
      CutsBelow(sal, gsal, cuts, hole, g + 1);
      assert if g == hole then cuts[g] == cuts[g + 1] else cuts[g] < cuts[g + 1];
    }
  }

  /** Where the group before `k`, group `k` itself and any other group `g` lie. */
  lemma CutsAround(sal: seq<int>, gsal: seq<int>, cuts: seq<int>, hole: int, k: nat, g: nat)
    requires Grouped(sal, gsal, cuts, hole) && k < |gsal| && g < |gsal| && (hole == NO_HOLE || hole == k)
    ensures |cuts| == |gsal| + 1 && 0 <= cuts[k] <= cuts[k + 1] <= |sal|
    ensures cuts[k] == cuts[k + 1] <==> hole == k
    ensures k == 0 ==> cuts[k] == 0
    ensures k > 0 ==> 0 < cuts[k]
    ensures g < k ==> 0 <= cuts[g] < cuts[g + 1] <= cuts[k]
    ensures g > k ==> cuts[k + 1] <= cuts[g] < cuts[g + 1] <= |sal|
  {
    CutsAscend(sal, gsal, cuts, hole, k, k + 1);
    assert if k == hole then cuts[k] == cuts[k + 1] else cuts[k] < cuts[k + 1];
    if k > 0 {
      CutsAscend(sal, gsal, cuts, hole, k - 1, k);
      assert cuts[k - 1] < cuts[k - 1 + 1];
    }
    assert g != k ==> cuts[g] < cuts[g + 1];
    CutsAscend(sal, gsal, cuts, hole, g, g + 1);
    if g < k {
      CutsAscend(sal, gsal, cuts, hole, g + 1, k);
    } else if k < g {
      CutsAscend(sal, gsal, cuts, hole, k + 1, g);
    }
  }

  /** Every position lies in some group. */
  lemma {:induction false} GroupAt(sal: seq<int>, gsal: seq<int>, cuts: seq<int>, hole: int, i: nat, n: nat)
    returns (g: nat)
    requires Grouped(sal, gsal, cuts, hole) && n <= |gsal| && i < cuts[n] && i < |sal|
    ensures g < n && cuts[g] <= i < cuts[g + 1] && sal[i] == gsal[g]
    decreases n
  {
    if cuts[n - 1] <= i {
      g := n - 1;
    } else {
      g := GroupAt(sal, gsal, cuts, hole, i, n - 1);
    }
  }

  /** The positions with a group's salience are those of the group. */
  lemma SameSalience(sal: seq<int>, gsal: seq<int>, cuts: seq<int>, hole: int, i: nat, g: nat)
    requires Grouped(sal, gsal, cuts, hole) && i < |sal| && g < |gsal|
    ensures sal[i] == gsal[g] <==> cuts[g] <= i < cuts[g + 1]
  {
    var h := GroupAt(sal, gsal, cuts, hole, i, |gsal|);
    if g < h {
      CutsAscend(sal, gsal, cuts, hole, g + 1, h);
    } else if h < g {
      CutsAscend(sal, gsal, cuts, hole, h + 1, g);
    }
  }

  /** A new, still empty group goes between the greater and the smaller saliences. */
  lemma OpenHole(sal: seq<int>, gsal: seq<int>, cuts: seq<int>, k: nat, v: int)
    requires Grouped(sal, gsal, cuts, NO_HOLE) && k <= |gsal|
    requires forall g :: 0 <= g < k ==> gsal[g] > v
    requires forall g :: k <= g < |gsal| ==> gsal[g] < v
    ensures Grouped(sal, With(gsal, k, v), With(cuts, k, cuts[k]), k)
  {
    hide With;
    var c := With(cuts, k, cuts[k]);
    var gs := With(gsal, k, v);
    WithAt(cuts, k, cuts[k]);
    WithAt(gsal, k, v);
    assert c[|gs|] == cuts[|gsal|];
    forall g | 0 <= g < |gs| ensures if g == k then c[g] == c[g + 1] else c[g] < c[g + 1] {
      if g < k {
        assert cuts[g] < cuts[g + 1];
      } else if g > k {
        assert cuts[g - 1] < cuts[g - 1 + 1];
      }
    }
    forall g, i | 0 <= g < |gs| && c[g] <= i < c[g + 1] && 0 <= i < |sal| ensures sal[i] == gs[g] {
      if g < k {
        assert cuts[g] <= i < cuts[g + 1];
      } else if g > k {
        assert cuts[g - 1] <= i < cuts[g - 1 + 1];
      }
    }
    forall g, h | 0 <= g < h < |gs| ensures gs[g] > gs[h] {
      assert gs[g] == if g < k then gsal[g] else if g == k then v else gsal[g - 1];
      assert gs[h] == if h < k then gsal[h] else if h == k then v else gsal[h - 1];
    }
  }

  /** An empty group is dropped. */
  lemma CloseHole(sal: seq<int>, gsal: seq<int>, cuts: seq<int>, k: nat)
    requires Grouped(sal, gsal, cuts, k) && k < |gsal|
    ensures Grouped(sal, Without(gsal, k), Without(cuts, k + 1), NO_HOLE)
  {
    var c := Without(cuts, k + 1);
    var gs := Without(gsal, k);
    forall g | 0 <= g < |gs| ensures c[g] < c[g + 1] {
      if g < k {
        assert cuts[g] < cuts[g + 1];
      } else {
        assert cuts[g + 1] < cuts[g + 1 + 1];
      }
    }
    forall g, i | 0 <= g < |gs| && c[g] <= i < c[g + 1] && 0 <= i < |sal| ensures sal[i] == gs[g] {
      if g < k {
        assert cuts[g] <= i < cuts[g + 1];
      } else {
        assert cuts[g + 1] <= i < cuts[g + 1 + 1];
      }
    }
  }

  /** One more activation of group `g`, at position `p` of the agenda. */
  lemma InsertGrouped(sal: seq<int>, gsal: seq<int>, cuts: seq<int>, hole: int, g: nat, p: nat)
    requires Grouped(sal, gsal, cuts, hole) && g < |gsal| && cuts[g] <= p <= cuts[g + 1] && p <= |sal|
    requires hole == NO_HOLE || hole == g
    ensures Grouped(With(sal, p, gsal[g]), gsal, Moved(cuts, g, 1), NO_HOLE)
  {
    var s := With(sal, p, gsal[g]);
    var c := Moved(cuts, g, 1);
    forall h, i | 0 <= h < |gsal| && c[h] <= i < c[h + 1] && 0 <= i < |s| ensures s[i] == gsal[h] {
      if h < g {
        CutsAscend(sal, gsal, cuts, hole, h + 1, g);
        assert cuts[h] <= i < cuts[h + 1];
      } else if h > g {
        CutsAscend(sal, gsal, cuts, hole, g + 1, h);
        assert cuts[h] <= i - 1 < cuts[h + 1];
      } else if i < p {
        assert cuts[g] <= i < cuts[g + 1];
      } else if i > p {
        assert cuts[g] <= i - 1 < cuts[g + 1];
      }
    }
  }

  /** One activation of group `g` less, at position `p`; a group of one becomes empty. */
  lemma RemoveGrouped(sal: seq<int>, gsal: seq<int>, cuts: seq<int>, g: nat, p: nat)
    requires Grouped(sal, gsal, cuts, NO_HOLE) && g < |gsal| && cuts[g] <= p < cuts[g + 1] && p < |sal|
    ensures Grouped(Without(sal, p), gsal, Moved(cuts, g, -1), if cuts[g] + 1 == cuts[g + 1] then g else NO_HOLE)
  {
    var s := Without(sal, p);
    var c := Moved(cuts, g, -1);
    forall h, i | 0 <= h < |gsal| && c[h] <= i < c[h + 1] && 0 <= i < |s| ensures s[i] == gsal[h] {
      if h < g {
        CutsAscend(sal, gsal, cuts, NO_HOLE, h + 1, g);
        assert cuts[h] <= i < cuts[h + 1];
      } else if h > g {
        CutsAscend(sal, gsal, cuts, NO_HOLE, g + 1, h);
        assert cuts[h] <= i + 1 < cuts[h + 1];
      } else if i < p {
        assert cuts[g] <= i < cuts[g + 1];
      } else {
        assert cuts[g] <= i + 1 < cuts[g + 1];
      }
    }
  }

  ghost predicate Distinct<T>(s: seq<T>) {
    forall i, j :: 0 <= i < j < |s| ==> s[i] != s[j]
  }

  lemma Apart<T>(s: seq<T>, i: int, j: int)
    requires Distinct(s) && 0 <= i < |s| && 0 <= j < |s|
    ensures s[i] == s[j] <==> i == j
  {
  }

  /** Between `lo` and `hi` the activations stand in the strategy's order. */
  ghost predicate SortedSpan(s: Strategy, acts: seq<Activation>, lo: int, hi: int) {
    forall i, j :: lo <= i < j < hi && 0 <= i && j < |acts| ==> MayPrecede(s, acts[i], acts[j])
  }

  /** `newer` belongs at `p` between `lo` and `hi`. */
  ghost predicate InPlace(s: Strategy, acts: seq<Activation>, lo: int, hi: int, p: int, newer: Activation) {
    && (forall i :: lo <= i < p && 0 <= i < |acts| ==> MayPrecede(s, acts[i], newer))
    && (forall i :: p <= i < hi && 0 <= i < |acts| ==> MayPrecede(s, newer, acts[i]))
  }

  /** The first place from `lo` on whose activation need not precede the new one, or `hi`. */
  ghost function ForwardPlace(s: Strategy, acts: seq<Activation>, lo: int, hi: int, newer: Activation): int
    decreases hi - lo
  {
    if 0 <= lo < hi && lo < |acts| && Precedes(s, acts[lo], newer) then ForwardPlace(s, acts, lo + 1, hi, newer) else lo
  }

  /** The place behind the last activation up to `hi` that may precede the new one, or `lo`. */
  ghost function BackwardPlace(s: Strategy, acts: seq<Activation>, lo: int, hi: int, newer: Activation): int
    decreases hi - lo
  {
    if lo < hi && 0 < hi <= |acts| && Precedes(s, newer, acts[hi - 1]) then BackwardPlace(s, acts, lo, hi - 1, newer)
    else hi
  }

  lemma {:induction false} ForwardPlaceIs(s: Strategy, acts: seq<Activation>, lo: nat, hi: nat, p: nat,
                                          newer: Activation)
    requires lo <= p <= hi <= |acts| && forall i :: lo <= i < p ==> Precedes(s, acts[i], newer)
    requires p < hi ==> !Precedes(s, acts[p], newer)
    ensures ForwardPlace(s, acts, lo, hi, newer) == p
    decreases p - lo
  {
    hide Precedes;
    if lo < p {
      ForwardPlaceIs(s, acts, lo + 1, hi, p, newer);
    }
  }

  lemma {:induction false} BackwardPlaceIs(s: Strategy, acts: seq<Activation>, lo: nat, hi: nat, p: nat,
                                           newer: Activation)
    requires lo <= p <= hi <= |acts| && forall i :: p <= i < hi ==> Precedes(s, newer, acts[i])
    requires lo < p ==> !Precedes(s, newer, acts[p - 1])
    ensures BackwardPlace(s, acts, lo, hi, newer) == p
    decreases hi - p
  {
    hide Precedes;
    if p < hi {
      BackwardPlaceIs(s, acts, lo, hi - 1, p, newer);
    }
  }

  /** The first activation that need not precede the new one marks its place. */
  lemma ForwardInPlace(s: Strategy, acts: seq<Activation>, lo: nat, hi: nat, p: nat, newer: Activation)
    requires lo <= p <= hi <= |acts| && SortedSpan(s, acts, lo, hi)
    requires forall i :: lo <= i < p ==> Precedes(s, acts[i], newer)
    requires p < hi ==> !Precedes(s, acts[p], newer)
    ensures InPlace(s, acts, lo, hi, p, newer)
  {
    hide Precedes;
    forall i | lo <= i < p ensures MayPrecede(s, acts[i], newer) {
      MayPrecedeTotal(s, acts[i], newer);
    }
    forall i | p <= i < hi ensures MayPrecede(s, newer, acts[i]) {
      if p < i { MayPrecedeTransitive(s, newer, acts[p], acts[i]); }
    }
  }

  /** So does the last activation that may precede it. */
  lemma BackwardInPlace(s: Strategy, acts: seq<Activation>, lo: nat, hi: nat, p: nat, newer: Activation)
    requires lo <= p <= hi <= |acts| && SortedSpan(s, acts, lo, hi)
    requires forall i :: p <= i < hi ==> Precedes(s, newer, acts[i])
    requires lo < p ==> MayPrecede(s, acts[p - 1], newer)
    ensures InPlace(s, acts, lo, hi, p, newer)
  {
    hide Precedes;
    forall i | lo <= i < p ensures MayPrecede(s, acts[i], newer) {
      if i < p - 1 { MayPrecedeTransitive(s, acts[i], acts[p - 1], newer); }
    }
    forall i | p <= i < hi ensures MayPrecede(s, newer, acts[i]) {
      MayPrecedeTotal(s, newer, acts[i]);
    }
  }

  lemma EmptyInPlace(s: Strategy, acts: seq<Activation>, lo: int, hi: int, newer: Activation)
    requires acts == []
    ensures InPlace(s, acts, lo, hi, 0, newer)
  {
  }

  lemma BothPrecede(s: Strategy, a: Activation, b: Activation)
    requires Precedes(s, a, b)
    ensures !Precedes(s, b, a)
  {
    hide Precedes;
    MayPrecedeTotal(s, a, b);
  }

  /** Activations of equal salience stand in the strategy's order. */
  ghost predicate InOrder(s: Strategy, acts: seq<Activation>, sal: seq<int>)
    requires |sal| == |acts|
  {
    forall i, j :: 0 <= i < j < |acts| && sal[i] == sal[j] ==> MayPrecede(s, acts[i], acts[j])
  }

  lemma InOrderSpan(s: Strategy, acts: seq<Activation>, sal: seq<int>, gsal: seq<int>, cuts: seq<int>, hole: int,
                    g: nat)
    requires |sal| == |acts| && Grouped(sal, gsal, cuts, hole) && g < |gsal| && InOrder(s, acts, sal)
    ensures SortedSpan(s, acts, cuts[g], cuts[g + 1])
  {
    hide MayPrecede;
    forall i, j | cuts[g] <= i < j < cuts[g + 1] && 0 <= i && j < |acts| ensures MayPrecede(s, acts[i], acts[j]) {
      assert sal[i] == gsal[g] && sal[j] == gsal[g];
    }
  }

  /** An activation put in its place keeps the whole agenda in order. */
  lemma PlacedInOrder(s: Strategy, acts: seq<Activation>, sal: seq<int>, gsal: seq<int>, cuts: seq<int>, hole: int,
                      g: nat, p: nat, newer: Activation)
    requires |sal| == |acts| && Grouped(sal, gsal, cuts, hole) && g < |gsal| && cuts[g] <= p <= cuts[g + 1]
    requires p <= |acts| && InOrder(s, acts, sal) && InPlace(s, acts, cuts[g], cuts[g + 1], p, newer)
    ensures InOrder(s, With(acts, p, newer), With(sal, p, gsal[g]))
  {
    hide MayPrecede, Grouped, With;
    var a, t := With(acts, p, newer), With(sal, p, gsal[g]);
    WithAt(acts, p, newer);
    WithAt(sal, p, gsal[g]);
    forall i, j | 0 <= i < j < |a| && t[i] == t[j] ensures MayPrecede(s, a[i], a[j]) {
      if i == p {
        SameSalience(sal, gsal, cuts, hole, j - 1, g);
      } else if j == p {
        SameSalience(sal, gsal, cuts, hole, i, g);
      } else {
        assert a[i] == acts[if i < p then i else i - 1];
        assert a[j] == acts[if j < p then j else j - 1];
      }
    }
  }

  lemma RemovedInOrder(s: Strategy, acts: seq<Activation>, sal: seq<int>, p: nat)
    requires |sal| == |acts| && p < |acts| && InOrder(s, acts, sal)
    ensures InOrder(s, Without(acts, p), Without(sal, p))
  {
    hide MayPrecede, Without;
    WithoutAt(acts, p);
    WithoutAt(sal, p);
    var a, t := Without(acts, p), Without(sal, p);
    forall i, j | 0 <= i < j < |a| && t[i] == t[j] ensures MayPrecede(s, a[i], a[j]) {
      assert a[i] == acts[if i < p then i else i + 1] && a[j] == acts[if j < p then j else j + 1];
    }
  }

  /** Saliences never rise along the agenda. */
  lemma SaliencesDescend(sal: seq<int>, gsal: seq<int>, cuts: seq<int>, hole: int, i: nat, j: nat)
    requires Grouped(sal, gsal, cuts, hole) && i <= j < |sal|
    ensures sal[i] >= sal[j]
  {
    var g := GroupAt(sal, gsal, cuts, hole, i, |gsal|);
    var h := GroupAt(sal, gsal, cuts, hole, j, |gsal|);
    if h < g {
      CutsAscend(sal, gsal, cuts, hole, h + 1, g);
    }
  }

  // ------------------------------------------------------------------------------------------
  // The order is determined by the activations alone
  // ------------------------------------------------------------------------------------------

  /** Greater saliences first, and the strategy's order among equal ones. */
  ghost predicate Sorted(s: Strategy, acts: seq<Activation>)
    reads acts`salience
  {
    forall i, j :: 0 <= i < j < |acts| ==>
      acts[i].salience > acts[j].salience || (acts[i].salience == acts[j].salience && MayPrecede(s, acts[i], acts[j]))
  }

  /** No strategy leaves two activations with different time tags unordered. */
  lemma TagsDecide(s: Strategy, a: Activation, b: Activation)
    requires MayPrecede(s, a, b) && MayPrecede(s, b, a)
    ensures a.timetag == b.timetag
  {
    if s.Lex? || s.Mea? {
      TagsFlip(a.basis.sortedTags, b.basis.sortedTags);
    }
  }

  ghost predicate TagsApart(acts: seq<Activation>) {
    forall i, j :: 0 <= i < j < |acts| ==> acts[i].timetag != acts[j].timetag
  }

  /** Two sorted agendas of the same activations start alike. */
  lemma SortedHeads(s: Strategy, xs: seq<Activation>, ys: seq<Activation>)
    requires Sorted(s, xs) && Sorted(s, ys) && multiset(xs) == multiset(ys) && xs != [] && ys != []
    requires TagsApart(xs)
    ensures xs[0] == ys[0]
  {
    hide MayPrecede;
    assert xs[0] in multiset(ys) && ys[0] in multiset(xs);
    if xs[0] != ys[0] {
      var i :| 0 <= i < |xs| && xs[i] == ys[0];
      var j :| 0 <= j < |ys| && ys[j] == xs[0];
      TagsDecide(s, xs[0], ys[0]);
      assert false;
    }
  }

  lemma Tail(s: Strategy, xs: seq<Activation>)
    requires xs != []
    ensures xs == [xs[0]] + xs[1..] && multiset(xs[1..]) == multiset(xs) - multiset{xs[0]}
    ensures Sorted(s, xs) ==> Sorted(s, xs[1..])
    ensures TagsApart(xs) ==> TagsApart(xs[1..])
  {
    hide MayPrecede;
    assert xs == [xs[0]] + xs[1..];
  }

  /** With distinct time tags there is only one sorted agenda: where and when activations were added, or which
      strategy was in force before, leaves no trace. */
  lemma {:induction false} SortedIsUnique(s: Strategy, xs: seq<Activation>, ys: seq<Activation>)
    requires Sorted(s, xs) && Sorted(s, ys) && multiset(xs) == multiset(ys) && TagsApart(xs)
    ensures xs == ys
  {
    hide *;
    assert |multiset(xs)| == |xs| && |multiset(ys)| == |ys|;
    if xs != [] {
      SortedHeads(s, xs, ys);
      Tail(s, xs);
      Tail(s, ys);
      SortedIsUnique(s, xs[1..], ys[1..]);
    }
  }
}
