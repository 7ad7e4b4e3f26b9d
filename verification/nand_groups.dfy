/** Moving the tests of a not/and group to the group's first pattern, on values. */
module NandGroups {

  /** A join test: none, one, or several under an "and". */
  datatype Expr = NoExpr | Test(id: nat) | And(args: seq<nat>)

  /** The tests that must all hold. */
  function Conjuncts(e: Expr): seq<nat> {
    match e
    case NoExpr => []
    case Test(id) => [id]
    case And(args) => args
  }

  /** Puts two tests under one "and". */
  function CombineExpressions(e1: Expr, e2: Expr): Expr {
    if e1 == NoExpr then e2
    else if e2 == NoExpr then e1
    else if e1.And? && e2.Test? then (if e1.args == [] then e2 else And(e1.args + [e2.id]))
    else if e1.Test? && e2.And? then (if e2.args == [] then e1 else And([e1.id] + e2.args))
    else if e1.And? && e2.And? then (if e1.args == [] then e2 else And(e1.args + e2.args))
    else And([e1.id, e2.id])
  }

  /** Combining neither loses nor repeats a test. */
  lemma CombinedConjuncts(e1: Expr, e2: Expr)
    ensures Conjuncts(CombineExpressions(e1, e2)) == Conjuncts(e1) + Conjuncts(e2)
  {
  }

  /** What a pattern holds for the join from the right: tests and the two hash expressions. */
  datatype External = External(tests: seq<nat>, left: seq<nat>, right: seq<nat>)

  const NOTHING := External([], [], [])

  function Plus(a: External, b: External): External {
    External(a.tests + b.tests, a.left + b.left, a.right + b.right)
  }

  /** The depths of a pattern. */
  datatype Depths = Depths(begin: int, end: int)

  datatype Scanned = Scanned(t: seq<External>, closed: bool, collected: External)

  /** Collects from the patterns from `q` on that begin at the depth, until one ends below it. */
  function Scan(ds: seq<Depths>, t: seq<External>, depth: int, q: nat, acc: External): Scanned
    requires |t| == |ds|
    decreases |ds| - q
  {
    if q >= |ds| then Scanned(t, false, acc)
    else
      var here := ds[q].begin == depth;
      var t1 := if here then t[q := NOTHING] else t;
      var acc1 := if here then Plus(t[q], acc) else acc;
      if ds[q].end < depth then Scanned(t1, true, acc1) else Scan(ds, t1, depth, q + 1, acc1)
  }

  lemma {:induction false} ScanLength(ds: seq<Depths>, t: seq<External>, depth: int, q: nat, acc: External)
    requires |t| == |ds|
    ensures |Scan(ds, t, depth, q, acc).t| == |ds|
    decreases |ds| - q
  {
    if q < |ds| {
      var here := ds[q].begin == depth;
      ScanLength(ds, if here then t[q := NOTHING] else t, depth, q + 1, if here then Plus(t[q], acc) else acc);
    }
  }

  /** A pattern that is not the first and begins inside a group. */
  predicate Grouped(ds: seq<Depths>, i: nat) {
    0 < i < |ds| && ds[i].begin != 1 && ds[i].begin != ds[0].end
  }

  /** What the loop does at pattern `i`. */
  function StepAt(ds: seq<Depths>, t: seq<External>, i: nat): (r: seq<External>)
    requires |t| == |ds|
    ensures |r| == |ds|
  {
    if !Grouped(ds, i) then t
    else
      var s := Scan(ds, t, ds[i].begin, i, NOTHING);
      ScanLength(ds, t, ds[i].begin, i, NOTHING);
      if s.closed then s.t[i := s.collected] else s.t
  }

  /** The state before pattern `i` comes up. */
  function Run(ds: seq<Depths>, t: seq<External>, i: nat): (r: seq<External>)
    requires |t| == |ds|
    ensures |r| == |ds|
  {
    if i == 0 then t else StepAt(ds, Run(ds, t, i - 1), i - 1)
  }

  // ------------------------------------------------------------------------------------------
  // Groups
  // ------------------------------------------------------------------------------------------

  /** Patterns `i` and `k` begin at the same depth, and none from `i` on up to `k` ends below it. */
  ghost predicate SameGroup(ds: seq<Depths>, i: nat, k: nat) {
    && i <= k < |ds| && ds[i].begin == ds[k].begin
    && forall m :: i <= m < k ==> ds[m].end >= ds[i].begin
  }

  /** Pattern `k` belongs to a group that starts before it, at `i` or earlier. */
  ghost predicate Claimed(ds: seq<Depths>, k: nat, i: nat) {
    exists j :: 0 < j < k && j <= i && Grouped(ds, j) && SameGroup(ds, j, k)
  }

  /** The depth is left at `q` or later. */
  ghost predicate ClosesFrom(ds: seq<Depths>, depth: int, q: nat) {
    exists c :: q <= c < |ds| && ds[c].end < depth
  }

  ghost predicate AllClosed(ds: seq<Depths>) {
    forall i :: 0 <= i < |ds| && Grouped(ds, i) ==> ClosesFrom(ds, ds[i].begin, i)
  }

  /** Everything that the patterns of the group from `q` on hold, the last pattern's first. */
  ghost function Gathered(ds: seq<Depths>, t: seq<External>, depth: int, q: nat, acc: External): External
    requires |t| == |ds|
    decreases |ds| - q
  {
    if q >= |ds| then acc
    else
      var acc1 := if ds[q].begin == depth then Plus(t[q], acc) else acc;
      if ds[q].end < depth then acc1 else Gathered(ds, t, depth, q + 1, acc1)
  }

  /** What the scan leaves: the patterns of the group are empty, the others as they were. */
  lemma {:induction false} ScanIs(ds: seq<Depths>, t: seq<External>, depth: int, q: nat, acc: External)
    requires |t| == |ds|
    ensures var s := Scan(ds, t, depth, q, acc);
      && |s.t| == |ds| && s.collected == Gathered(ds, t, depth, q, acc) && (s.closed <==> ClosesFrom(ds, depth, q))
      && forall k :: 0 <= k < |ds| ==>
        s.t[k] == if Swept(ds, depth, q, k) then NOTHING else t[k]
    decreases |ds| - q
  {
    if q < |ds| {
      var here := ds[q].begin == depth;
      var t1 := if here then t[q := NOTHING] else t;
      var acc1 := if here then Plus(t[q], acc) else acc;
      if ds[q].end >= depth {
        ScanIs(ds, t1, depth, q + 1, acc1);
        GatheredLater(ds, t, t1, depth, q + 1, acc1);
      }
    }
  }

  /** Pattern `k` is collected by the scan from `q`. */
  ghost predicate Swept(ds: seq<Depths>, depth: int, q: nat, k: nat) {
    q <= k < |ds| && ds[k].begin == depth && forall m :: q <= m < k ==> ds[m].end >= depth
  }

  lemma {:induction false} GatheredLater(ds: seq<Depths>, t: seq<External>, u: seq<External>, depth: int, q: nat,
                                         acc: External)
    requires |t| == |u| == |ds| && forall k :: 0 <= k < |ds| && Swept(ds, depth, q, k) ==> t[k] == u[k]
    ensures Gathered(ds, t, depth, q, acc) == Gathered(ds, u, depth, q, acc)
    decreases |ds| - q
  {
    if q < |ds| {
      assert ds[q].begin == depth ==> Swept(ds, depth, q, q);
      if ds[q].end >= depth {
        assert forall k :: 0 <= k < |ds| && Swept(ds, depth, q + 1, k) ==> Swept(ds, depth, q, k);
        GatheredLater(ds, t, u, depth, q + 1, if ds[q].begin == depth then Plus(t[q], acc) else acc);
      }
    }
  }

  /** A scan over patterns that hold nothing collects nothing. */
  lemma {:induction false} GatheredNothing(ds: seq<Depths>, t: seq<External>, depth: int, q: nat)
    requires |t| == |ds| && forall k :: 0 <= k < |ds| && Swept(ds, depth, q, k) ==> t[k] == NOTHING
    ensures Gathered(ds, t, depth, q, NOTHING) == NOTHING
    decreases |ds| - q
  {
    if q < |ds| {
      assert ds[q].begin == depth ==> Swept(ds, depth, q, q);
      assert Plus(NOTHING, NOTHING) == NOTHING;
      if ds[q].end >= depth {
        assert forall k :: 0 <= k < |ds| && Swept(ds, depth, q + 1, k) ==> Swept(ds, depth, q, k);
        GatheredNothing(ds, t, depth, q + 1);
      }
    }
  }

  // ------------------------------------------------------------------------------------------
  // The result
  // ------------------------------------------------------------------------------------------

  /** What pattern `k` holds in the end: the first of a group has all that the group held, the rest nothing. */
  ghost function Final(ds: seq<Depths>, t: seq<External>, k: nat): External
    requires |t| == |ds| && k < |ds|
  {
    if !Grouped(ds, k) then t[k]
    else if Claimed(ds, k, k) then NOTHING
    else Gathered(ds, t, ds[k].begin, k, NOTHING)
  }

  /** What it holds before pattern `i` comes up. */
  ghost function Meanwhile(ds: seq<Depths>, t: seq<External>, i: nat, k: nat): External
    requires |t| == |ds| && k < |ds|
  {
    if !Grouped(ds, k) then t[k]
    else if k < i then Final(ds, t, k)
    else if i > 0 && Claimed(ds, k, i - 1) then NOTHING
    else t[k]
  }

  lemma {:induction false} RunIs(ds: seq<Depths>, t: seq<External>, i: nat)
    requires |t| == |ds| && AllClosed(ds) && i <= |ds|
    ensures forall k :: 0 <= k < |ds| ==> Run(ds, t, i)[k] == Meanwhile(ds, t, i, k)
  {
    if i > 0 {
      RunIs(ds, t, i - 1);
      var u := Run(ds, t, i - 1);
      forall k | 0 <= k < |ds| ensures Run(ds, t, i)[k] == Meanwhile(ds, t, i, k) {
        if Grouped(ds, i - 1) {
          StepGroup(ds, t, u, i - 1, k);
        } else {
          StillClaimed(ds, i - 1, k);
        }
      }
    }
  }

  /** A pattern outside all groups starts none. */
  lemma StillClaimed(ds: seq<Depths>, i: nat, k: nat)
    requires i < |ds| && k < |ds| && !Grouped(ds, i)
    ensures Claimed(ds, k, i) <==> i > 0 && Claimed(ds, k, i - 1)
    ensures k == i ==> !Grouped(ds, k)
  {
  }

  /** One turn of the loop at a pattern inside a group. */
  lemma StepGroup(ds: seq<Depths>, t: seq<External>, u: seq<External>, i: nat, k: nat)
    requires |t| == |u| == |ds| && AllClosed(ds) && i < |ds| && k < |ds| && Grouped(ds, i)
    requires forall m :: 0 <= m < |ds| ==> u[m] == Meanwhile(ds, t, i, m)
    ensures StepAt(ds, u, i)[k] == Meanwhile(ds, t, i + 1, k)
  {
    hide Gathered, Scan;
    var d := ds[i].begin;
    ScanIs(ds, u, d, i, NOTHING);
    if k == i {
      FirstHolds(ds, t, u, i);
    } else if k > i {
      ClaimedNow(ds, i, k);
    }
  }

  lemma ClaimedNow(ds: seq<Depths>, i: nat, k: nat)
    requires i < k < |ds| && Grouped(ds, i)
    ensures Swept(ds, ds[i].begin, i, k) <==> SameGroup(ds, i, k)
    ensures Swept(ds, ds[i].begin, i, k) ==> Grouped(ds, k)
    ensures Claimed(ds, k, i) <==> Claimed(ds, k, i - 1) || SameGroup(ds, i, k)
  {
  }

  /** What the pattern whose turn it is collects. */
  lemma FirstHolds(ds: seq<Depths>, t: seq<External>, u: seq<External>, i: nat)
    requires |t| == |u| == |ds| && i < |ds| && Grouped(ds, i)
    requires forall m :: 0 <= m < |ds| ==> u[m] == Meanwhile(ds, t, i, m)
    ensures Gathered(ds, u, ds[i].begin, i, NOTHING) == Final(ds, t, i)
  {
    hide Gathered;
    var d := ds[i].begin;
    forall m | 0 <= m < |ds| && Swept(ds, d, i, m)
      ensures Grouped(ds, m) && (Claimed(ds, i, i) <==> Claimed(ds, m, i - 1))
    {
      Together(ds, i, m);
    }
    if Claimed(ds, i, i) {
      GatheredNothing(ds, u, d, i);
    } else {
      GatheredLater(ds, t, u, d, i, NOTHING);
    }
  }

  /** The patterns of a group start from the same pattern. */
  lemma Together(ds: seq<Depths>, i: nat, m: nat)
    requires i <= m < |ds| && Grouped(ds, i) && Swept(ds, ds[i].begin, i, m)
    ensures Grouped(ds, m) && (Claimed(ds, i, i) <==> Claimed(ds, m, i - 1))
  {
    if Claimed(ds, i, i) {
      var j :| 0 < j < i && Grouped(ds, j) && SameGroup(ds, j, i);
      assert SameGroup(ds, j, m);
    }
    if Claimed(ds, m, i - 1) {
      var j :| 0 < j < m && j <= i - 1 && Grouped(ds, j) && SameGroup(ds, j, m);
      assert SameGroup(ds, j, i);
    }
  }

  /** Where the group's patterns from `q` on are left: the first at `q` or later that ends below the depth, or the end.
      */
  ghost function LeftAt(ds: seq<Depths>, depth: int, q: nat): (c: nat)
    requires q <= |ds|
    ensures q <= c <= |ds| && (c < |ds| ==> ds[c].end < depth)
    ensures forall m :: q <= m < c ==> ds[m].end >= depth
    decreases |ds| - q
  {
    if q == |ds| || ds[q].end < depth then q else LeftAt(ds, depth, q + 1)
  }

  datatype Part = Tests | LeftHash | RightHash

  ghost function PartOf(x: External, part: Part): seq<nat> {
    match part case Tests => x.tests case LeftHash => x.left case RightHash => x.right
  }

  /** That part of the patterns from `q` up to `e` that begin at the depth, the last pattern's first. */
  ghost function Backwards(ds: seq<Depths>, t: seq<External>, part: Part, depth: int, q: int, e: int): seq<nat>
    requires |t| == |ds| && 0 <= q && e <= |ds|
    decreases e - q
  {
    if e <= q then []
    else (if ds[e - 1].begin == depth then PartOf(t[e - 1], part) else []) + Backwards(ds, t, part, depth, q, e - 1)
  }

  lemma {:induction false} BackwardsSplit(ds: seq<Depths>, t: seq<External>, part: Part, depth: int,
                                          q: nat, e: int)
    requires |t| == |ds| && q < e <= |ds|
    ensures Backwards(ds, t, part, depth, q, e)
         == Backwards(ds, t, part, depth, q + 1, e) + if ds[q].begin == depth then PartOf(t[q], part) else []
    decreases e
  {
    if q + 1 < e {
      BackwardsSplit(ds, t, part, depth, q, e - 1);
    }
  }

  /** Where a scan from `q` on is over: behind the pattern that ends below the depth. */
  ghost function EndAt(ds: seq<Depths>, depth: int, q: nat): (e: nat)
    requires q <= |ds|
    ensures q <= e <= |ds|
  {
    var c := LeftAt(ds, depth, q);
    if c < |ds| then c + 1 else c
  }

  /** What is gathered, in order: each of the three parts is put together from the patterns of the group, from the last
      one that belongs to it down to the first. */
  lemma {:induction false} GatheredIs(ds: seq<Depths>, t: seq<External>, part: Part, depth: int, q: nat,
                                      acc: External)
    requires |t| == |ds| && q <= |ds|
    ensures PartOf(Gathered(ds, t, depth, q, acc), part)
         == Backwards(ds, t, part, depth, q, EndAt(ds, depth, q)) + PartOf(acc, part)
    decreases |ds| - q
  {
    hide *;
    if q == |ds| {
      NothingMore(ds, t, part, depth, acc);
    } else {
      var acc1 := if ds[q].begin == depth then Plus(t[q], acc) else acc;
      var here := if ds[q].begin == depth then PartOf(t[q], part) else [];
      var e := EndAt(ds, depth, q);
      GatheredNow(ds, t, depth, q, acc);
      PlusParts(t[q], acc, part);
      BackwardsSplit(ds, t, part, depth, q, e);
      var b := Backwards(ds, t, part, depth, q + 1, e);
      Assoc(b, here, PartOf(acc, part));
      if ds[q].end < depth {
        NoneBackwards(ds, t, part, depth, q + 1);
        assert [] + PartOf(acc1, part) == PartOf(acc1, part);
      } else {
        GatheredIs(ds, t, part, depth, q + 1, acc1);
      }
    }
  }

  lemma NothingMore(ds: seq<Depths>, t: seq<External>, part: Part, depth: int, acc: External)
    requires |t| == |ds|
    ensures PartOf(Gathered(ds, t, depth, |ds|, acc), part)
         == Backwards(ds, t, part, depth, |ds|, EndAt(ds, depth, |ds|)) + PartOf(acc, part)
  {
    assert [] + PartOf(acc, part) == PartOf(acc, part);
  }

  lemma PlusParts(a: External, b: External, part: Part)
    ensures PartOf(Plus(a, b), part) == PartOf(a, part) + PartOf(b, part)
  {
  }

  lemma NoneBackwards(ds: seq<Depths>, t: seq<External>, part: Part, depth: int, q: nat)
    requires |t| == |ds| && q <= |ds|
    ensures Backwards(ds, t, part, depth, q, q) == []
  {
  }

  lemma Assoc(a: seq<nat>, b: seq<nat>, c: seq<nat>)
    ensures a + (b + c) == a + b + c
  {
  }

  lemma GatheredNow(ds: seq<Depths>, t: seq<External>, depth: int, q: nat, acc: External)
    requires |t| == |ds| && q < |ds|
    ensures var acc1 := if ds[q].begin == depth then Plus(t[q], acc) else acc;
      Gathered(ds, t, depth, q, acc) == if ds[q].end < depth then acc1 else Gathered(ds, t, depth, q + 1, acc1)
    ensures q < EndAt(ds, depth, q) && EndAt(ds, depth, q) == if ds[q].end < depth then q + 1
      else EndAt(ds, depth, q + 1)
  {
  }

  /** When every depth is closed, the first pattern of each group ends up with all that the group's patterns held,
      and the other patterns of the group with nothing. */
  lemma GroupsCombined(ds: seq<Depths>, t: seq<External>)
    requires |t| == |ds| && AllClosed(ds)
    ensures forall k :: 0 <= k < |ds| ==> Run(ds, t, |ds|)[k] == Final(ds, t, k)
  {
    RunIs(ds, t, |ds|);
  }

  // ------------------------------------------------------------------------------------------
  // Nothing is lost
  // ------------------------------------------------------------------------------------------

  /** A part of what a pattern holds. */
  ghost predicate IsPart(part: External -> seq<nat>) {
    part(NOTHING) == [] && forall a, b :: part(Plus(a, b)) == part(a) + part(b)
  }

  lemma Parts()
    ensures IsPart((x: External) => x.tests) && IsPart((x: External) => x.left) && IsPart((x: External) => x.right)
  {
  }

  /** How often `v` occurs in that part of all patterns. */
  ghost function Count(t: seq<External>, part: External -> seq<nat>, v: nat): nat {
    if t == [] then 0 else Count(t[..|t| - 1], part, v) + multiset(part(t[|t| - 1]))[v]
  }

  lemma {:induction false} Replaced(t: seq<External>, q: nat, x: External, part: External -> seq<nat>, v: nat)
    requires q < |t|
    ensures Count(t, part, v) + multiset(part(x))[v] == Count(t[q := x], part, v) + multiset(part(t[q]))[v]
  {
    var n := |t| - 1;
    if q == n {
      assert t[q := x][..n] == t[..n];
    } else {
      Replaced(t[..n], q, x, part, v);
      assert t[q := x][..n] == t[..n][q := x];
    }
  }

  lemma {:induction false} ScanBalanced(ds: seq<Depths>, t: seq<External>, depth: int, q: nat, acc: External,
                                        part: External -> seq<nat>, v: nat)
    requires |t| == |ds| && IsPart(part)
    ensures var s := Scan(ds, t, depth, q, acc);
      Count(s.t, part, v) + multiset(part(s.collected))[v] == Count(t, part, v) + multiset(part(acc))[v]
    decreases |ds| - q
  {
    if q < |ds| {
      var here := ds[q].begin == depth;
      var t1 := if here then t[q := NOTHING] else t;
      var acc1 := if here then Plus(t[q], acc) else acc;
      if here {
        Replaced(t, q, NOTHING, part, v);
        assert part(acc1) == part(t[q]) + part(acc);
      }
      if ds[q].end >= depth {
        ScanBalanced(ds, t1, depth, q + 1, acc1, part, v);
      }
    }
  }

  /** Moving the tests and hash expressions loses none and repeats none. */
  lemma {:induction false} RunConserves(ds: seq<Depths>, t: seq<External>, i: nat, part: External -> seq<nat>, v: nat)
    requires |t| == |ds| && AllClosed(ds) && i <= |ds| && IsPart(part)
    ensures Count(Run(ds, t, i), part, v) == Count(t, part, v)
  {
    if i > 0 {
      RunConserves(ds, t, i - 1, part, v);
      StepConserves(ds, Run(ds, t, i - 1), i - 1, part, v);
    }
  }

  lemma StepConserves(ds: seq<Depths>, t: seq<External>, i: nat, part: External -> seq<nat>, v: nat)
    requires |t| == |ds| && AllClosed(ds) && i < |ds| && IsPart(part)
    ensures Count(StepAt(ds, t, i), part, v) == Count(t, part, v)
  {
    if Grouped(ds, i) {
      ScanIs(ds, t, ds[i].begin, i, NOTHING);
      ScanBalanced(ds, t, ds[i].begin, i, NOTHING, part, v);
      var s := Scan(ds, t, ds[i].begin, i, NOTHING);
      assert Swept(ds, ds[i].begin, i, i);
      Replaced(s.t, i, s.collected, part, v);
    }
  }

  /** The same for tests, left and right hash expressions: each occurs as often as before. */
  lemma NothingLost(ds: seq<Depths>, t: seq<External>, v: nat)
    requires |t| == |ds| && AllClosed(ds)
    ensures var r := Run(ds, t, |ds|);
      && Count(r, (x: External) => x.tests, v) == Count(t, (x: External) => x.tests, v)
      && Count(r, (x: External) => x.left, v) == Count(t, (x: External) => x.left, v)
      && Count(r, (x: External) => x.right, v) == Count(t, (x: External) => x.right, v)
  {
    Parts();
    RunConserves(ds, t, |ds|, (x: External) => x.tests, v);
    RunConserves(ds, t, |ds|, (x: External) => x.left, v);
    RunConserves(ds, t, |ds|, (x: External) => x.right, v);
  }

  // ------------------------------------------------------------------------------------------
  // Depths that are never left
  // ------------------------------------------------------------------------------------------

  /** Every test occurs as often after the moves as before, whatever the patterns hold. */
  ghost predicate KeepsTests(ds: seq<Depths>) {
    forall t: seq<External>, v: nat :: |t| == |ds| ==> KeepsTest(ds, t, v)
  }

  ghost predicate KeepsTest(ds: seq<Depths>, t: seq<External>, v: nat)
    requires |t| == |ds|
  {
    Count(Run(ds, t, |ds|), (x: External) => x.tests, v) == Count(t, (x: External) => x.tests, v)
  }

  /** Pattern `i` alone holds a test. */
  function OnlyAt(n: nat, i: nat): (t: seq<External>)
    ensures |t| == n && forall k :: 0 <= k < n ==> t[k] == if k == i then External([0], [], []) else NOTHING
  {
    seq(n, k => if k == i then External([0], [], []) else NOTHING)
  }

  lemma {:induction false} CountNothing(t: seq<External>, v: nat)
    requires forall k :: 0 <= k < |t| ==> t[k] == NOTHING
    ensures Count(t, (x: External) => x.tests, v) == 0
  {
    if t != [] {
      CountNothing(t[..|t| - 1], v);
    }
  }

  lemma {:induction false} CountOne(t: seq<External>, i: nat)
    requires i < |t| && t[i] == External([0], [], [])
    ensures Count(t, (x: External) => x.tests, 0) > 0
  {
    if i < |t| - 1 {
      CountOne(t[..|t| - 1], i);
    }
  }

  /** Until pattern `i`, the first that no element leaves, comes up, its test stays where it is. */
  lemma {:induction false} StaysUntil(ds: seq<Depths>, i: nat, j: nat)
    requires j <= i < |ds| && Grouped(ds, i) && !ClosesFrom(ds, ds[i].begin, i)
    requires forall k :: 0 <= k < i && Grouped(ds, k) ==> ClosesFrom(ds, ds[k].begin, k)
    ensures Run(ds, OnlyAt(|ds|, i), j) == OnlyAt(|ds|, i)
  {
    if j > 0 {
      StaysUntil(ds, i, j - 1);
      var t, k := OnlyAt(|ds|, i), j - 1;
      if Grouped(ds, k) {
        var d := ds[k].begin;
        ScanIs(ds, t, d, k, NOTHING);
        SweptCloses(ds, d, k, i);
        GatheredNothing(ds, t, d, k);
        assert StepAt(ds, t, k) == t;
      }
    }
  }

  lemma SweptCloses(ds: seq<Depths>, depth: int, k: nat, i: nat)
    ensures Swept(ds, depth, k, i) && ClosesFrom(ds, depth, k) ==> ClosesFrom(ds, depth, i)
  {
  }

  lemma {:induction false} StaysNothing(ds: seq<Depths>, t: seq<External>, i: nat, j: nat)
    requires |t| == |ds| && i <= j && forall k :: 0 <= k < |ds| ==> Run(ds, t, i)[k] == NOTHING
    ensures forall k :: 0 <= k < |ds| ==> Run(ds, t, j)[k] == NOTHING
    decreases j
  {
    if i < j {
      StaysNothing(ds, t, i, j - 1);
      var u := Run(ds, t, j - 1);
      if Grouped(ds, j - 1) {
        ScanIs(ds, u, ds[j - 1].begin, j - 1, NOTHING);
        GatheredNothing(ds, u, ds[j - 1].begin, j - 1);
      }
    }
  }

  /** A depth that is never left loses what its patterns held. */
  lemma UnclosedLoses(ds: seq<Depths>, i: nat)
    requires i < |ds| && Grouped(ds, i) && !ClosesFrom(ds, ds[i].begin, i)
    requires forall k :: 0 <= k < i && Grouped(ds, k) ==> ClosesFrom(ds, ds[k].begin, k)
    ensures !KeepsTest(ds, OnlyAt(|ds|, i), 0)
  {
    var t := OnlyAt(|ds|, i);
    StaysUntil(ds, i, i);
    ScanIs(ds, t, ds[i].begin, i, NOTHING);
    assert Swept(ds, ds[i].begin, i, i);
    assert Run(ds, t, i + 1) == StepAt(ds, t, i);
    StaysNothing(ds, t, i + 1, |ds|);
    CountNothing(Run(ds, t, |ds|), 0);
    CountOne(t, i);
  }

  lemma {:induction false} FirstUnclosed(ds: seq<Depths>, i: nat) returns (first: nat)
    requires i < |ds| && Grouped(ds, i) && !ClosesFrom(ds, ds[i].begin, i)
    ensures first < |ds| && Grouped(ds, first) && !ClosesFrom(ds, ds[first].begin, first)
    ensures forall k :: 0 <= k < first && Grouped(ds, k) ==> ClosesFrom(ds, ds[k].begin, k)
  {
    if k :| 0 <= k < i && Grouped(ds, k) && !ClosesFrom(ds, ds[k].begin, k) {
      first := FirstUnclosed(ds, k);
    } else {
      first := i;
    }
  }

  /** The moves lose no test, whatever the patterns hold, if and only if every depth is left. */
  lemma KeptIffClosed(ds: seq<Depths>)
    ensures KeepsTests(ds) <==> AllClosed(ds)
  {
    if AllClosed(ds) {
      forall t: seq<External>, v: nat | |t| == |ds| ensures KeepsTest(ds, t, v) {
        NothingLost(ds, t, v);
      }
    } else {
      var i :| 0 <= i < |ds| && Grouped(ds, i) && !ClosesFrom(ds, ds[i].begin, i);
      var first := FirstUnclosed(ds, i);
      UnclosedLoses(ds, first);
    }
  }

  // ------------------------------------------------------------------------------------------
  // Whole groups
  // ------------------------------------------------------------------------------------------

  /** The first pattern is outside any group. */
  ghost predicate StartsOutside(ds: seq<Depths>) { ds != [] ==> ds[0] == Depths(1, 1) }

  /** Pattern `k` is the first of the patterns that begin at its depth, since the depth was entered. */
  ghost predicate FirstOfGroup(ds: seq<Depths>, k: nat) {
    k < |ds| && forall j :: 0 <= j < k ==> !SameGroup(ds, j, k)
  }

  /** When every depth is left and the first pattern is outside any group, every pattern within a group, at any depth,
      gives what it holds to the first of its group, and patterns outside keep it. */
  lemma WholeGroupsCombined(ds: seq<Depths>, t: seq<External>, k: nat)
    requires |t| == |ds| && AllClosed(ds) && StartsOutside(ds) && k < |ds|
    ensures ds[k].begin == 1 ==> Run(ds, t, |ds|)[k] == t[k]
    ensures ds[k].begin != 1 && FirstOfGroup(ds, k) ==> Run(ds, t, |ds|)[k] == Gathered(ds, t, ds[k].begin, k, NOTHING)
    ensures ds[k].begin != 1 && !FirstOfGroup(ds, k) ==> Run(ds, t, |ds|)[k] == NOTHING
  {
    hide Gathered, Run;
    GroupsCombined(ds, t);
    if ds[k].begin != 1 {
      forall j | 0 <= j < k && SameGroup(ds, j, k) ensures 0 < j && Grouped(ds, j) {
      }
    }
  }
}
