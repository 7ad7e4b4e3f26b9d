/** The order in which a recursive deletion comes to the classes. */
module DeletionOrder {
  import opened ClassGraph

  /** Adds to `l` the classes of `s` and all below them that it lacks, each behind what is below it. Their rank is
      less than `n`. */
  ghost function Visit(g: Graph, s: seq<Defclass>, n: nat, l: seq<Defclass>): seq<Defclass>
    decreases n, |s|
  {
    if s == [] then l
    else if s[0] in l || s[0] !in g.subs || s[0] !in g.rank || g.rank[s[0]] >= n then Visit(g, s[1..], n, l)
    else Visit(g, s[1..], n, Visit(g, g.subs[s[0]], g.rank[s[0]], l) + [s[0]])
  }

  /** All classes below `c`, and `c` at the end. */
  ghost function Order(g: Graph, c: Defclass): seq<Defclass> {
    Visit(g, [c], if c in g.rank then g.rank[c] + 1 else 0, [])
  }

  ghost function Elements(l: seq<Defclass>): set<Defclass> { set c | c in l }

  /** The classes before the first one in the set. */
  ghost function UpTo(l: seq<Defclass>, p: set<Defclass>): seq<Defclass> {
    if l == [] || l[0] in p then [] else [l[0]] + UpTo(l[1..], p)
  }

  /** Each class is listed once, and behind all its subclasses. */
  ghost predicate Listed(g: Graph, l: seq<Defclass>) {
    && Distinct(l)
    && (forall i :: 0 <= i < |l| ==>
          l[i] in g.classes && l[i] in g.subs && forall d :: d in g.subs[l[i]] ==> d in l[..i])
  }

  ghost predicate Under(g: Graph, s: seq<Defclass>, n: nat) {
    forall i :: 0 <= i < |s| ==> s[i] in g.classes && g.rank.Keys >= g.classes && g.rank[s[i]] < n
  }

  /** `d` is one of the classes or below one of them. */
  ghost predicate BelowSome(g: Graph, s: seq<Defclass>, d: Defclass) {
    exists i :: 0 <= i < |s| && d in Below(g, s[i])
  }

  lemma ListedHolds(g: Graph, l: seq<Defclass>, c: Defclass, d: Defclass)
    requires Acyclic(g) && Listed(g, l) && c in l && d in Below(g, c)
    ensures d in l
  {
    forall x, y | x in Elements(l) && x in g.subs && y in g.subs[x] ensures y in Elements(l) {
      var i :| 0 <= i < |l| && l[i] == x;
      assert y in l[..i];
    }
    assert c in Elements(l);
    DownwardHolds(g, Elements(l), d, c);
  }

  lemma ListedNext(g: Graph, l: seq<Defclass>, c: Defclass)
    requires Listed(g, l) && c !in l && c in g.classes && c in g.subs && (forall d :: d in g.subs[c] ==> d in l)
    ensures Listed(g, l + [c])
  {
    var m := l + [c];
    forall i | 0 <= i < |m|
      ensures m[i] in g.classes && m[i] in g.subs && forall d :: d in g.subs[m[i]] ==> d in m[..i]
    {
      assert m[..i] == l[..i];
    }
  }

  /** A visit lists what is below the classes, and nothing else, behind what was listed. */
  lemma {:induction false} VisitLists(g: Graph, s: seq<Defclass>, n: nat, l: seq<Defclass>)
    requires Acyclic(g) && Under(g, s, n) && Listed(g, l)
    ensures Listed(g, Visit(g, s, n, l)) && l <= Visit(g, s, n, l)
    ensures forall d :: d in Visit(g, s, n, l) <==> d in l || BelowSome(g, s, d)
    decreases n, |s|
  {
    hide Listed, IsA, Below;
    if s != [] {
      var c := s[0];
      assert forall d :: BelowSome(g, s, d) <==> d in Below(g, c) || BelowSome(g, s[1..], d) by { SomeSplits(g, s); }
      if c in l {
        VisitLists(g, s[1..], n, l);
        forall d | d in Below(g, c) ensures d in l { ListedHolds(g, l, c, d); }
      } else {
        UnderSubs(g, c);
        VisitLists(g, g.subs[c], g.rank[c], l);
        var m := Visit(g, g.subs[c], g.rank[c], l);
        SubsSplit(g, c);
        ListedNext(g, m, c);
        VisitLists(g, s[1..], n, m + [c]);
      }
    }
  }

  lemma SomeSplits(g: Graph, s: seq<Defclass>)
    requires s != []
    ensures forall d :: BelowSome(g, s, d) <==> d in Below(g, s[0]) || BelowSome(g, s[1..], d)
  {
    forall d ensures BelowSome(g, s, d) <==> d in Below(g, s[0]) || BelowSome(g, s[1..], d) {
      if BelowSome(g, s, d) {
        var i :| 0 <= i < |s| && d in Below(g, s[i]);
        assert i == 0 || s[1..][i - 1] == s[i];
      }
      if BelowSome(g, s[1..], d) {
        var i :| 0 <= i < |s[1..]| && d in Below(g, s[1..][i]);
        assert s[i + 1] == s[1..][i];
      }
    }
  }

  lemma UnderSubs(g: Graph, c: Defclass)
    requires Acyclic(g) && c in g.classes
    ensures Under(g, g.subs[c], g.rank[c])
  {
  }

  lemma SubsSplit(g: Graph, c: Defclass)
    requires Acyclic(g) && c in g.classes
    ensures !BelowSome(g, g.subs[c], c) && (forall d :: d in g.subs[c] ==> BelowSome(g, g.subs[c], d))
    ensures forall d :: d in Below(g, c) <==> d == c || BelowSome(g, g.subs[c], d)
  {
    BelowSplits(g, c);
    SelfBelow(g, c);
    var s := g.subs[c];
    forall i | 0 <= i < |s| ensures Below(g, s[i]) <= Below(g, c) && s[i] in Below(g, s[i]) && c !in Below(g, s[i]) {
      BelowSub(g, c, s[i]);
      SelfBelow(g, s[i]);
      if IsA(g, c, s[i]) { IsAIn(g, c, s[i]); }
    }
  }

  /** The order lists the class and all that inherit from it once each, every class behind its subclasses. */
  lemma OrderIs(g: Graph, c: Defclass)
    requires Acyclic(g) && c in g.classes
    ensures Listed(g, Order(g, c)) && Elements(Order(g, c)) == Below(g, c)
  {
    hide IsA, Below, Visit;
    VisitLists(g, [c], g.rank[c] + 1, []);
    SomeSplits(g, [c]);
    forall d | d in Elements(Order(g, c)) ensures d in Below(g, c) {
      assert !BelowSome(g, [c][1..], d);
    }
    forall d | d in Below(g, c) ensures d in Elements(Order(g, c)) {
      assert BelowSome(g, [c], d);
    }
  }

  lemma {:induction false} VisitJoins(g: Graph, s: seq<Defclass>, k: nat, n: nat, l: seq<Defclass>)
    requires k <= |s|
    ensures Visit(g, s, n, l) == Visit(g, s[k..], n, Visit(g, s[..k], n, l))
    decreases k
  {
    if k == 0 {
      assert s[0..] == s;
    } else {
      var c := s[0];
      assert s[1..][k - 1..] == s[k..] && s[..k][1..] == s[1..][..k - 1];
      var m := if c in l || c !in g.subs || c !in g.rank || g.rank[c] >= n then l
        else Visit(g, g.subs[c], g.rank[c], l) + [c];
      VisitJoins(g, s[1..], k - 1, n, m);
    }
  }

  /** The subclasses come in their own order: what is below the first `k` of them is a beginning of the class's order,
      and the class itself comes last. */
  lemma SubclassesInTurn(g: Graph, c: Defclass, k: nat) returns (n: nat)
    requires Acyclic(g) && c in g.classes && k <= |g.subs[c]|
    ensures n < |Order(g, c)| && Order(g, c)[|Order(g, c)| - 1] == c
    ensures forall d :: d in Order(g, c)[..n] <==> BelowSome(g, g.subs[c][..k], d)
  {
    var s, r := g.subs[c], g.rank[c];
    UnderSubs(g, c);
    VisitLists(g, s[..k], r, []);
    var front := Visit(g, s[..k], r, []);
    VisitJoins(g, s, k, r, []);
    VisitExtends(g, s[k..], r, front);
    OrderUnfolds(g, c);
    n := |front|;
    hide Visit, BelowSome;
    assert Order(g, c)[..n] == front;
  }

  lemma OrderUnfolds(g: Graph, c: Defclass)
    requires Acyclic(g) && c in g.classes
    ensures Order(g, c) == Visit(g, g.subs[c], g.rank[c], []) + [c]
  {
    var m := Visit(g, g.subs[c], g.rank[c], []) + [c];
    assert [c][1..] == [];
    assert Visit(g, [], g.rank[c] + 1, m) == m;
  }

  // ------------------------------------------------------------------------------------------
  // The order when part of the classes has gone
  // ------------------------------------------------------------------------------------------

  /** What has been listed may as well have been removed. */
  lemma {:induction false} VisitMinus(g: Graph, s: seq<Defclass>, n: nat, l: seq<Defclass>, k: seq<Defclass>)
    requires g.subs.Keys == g.classes
    ensures Visit(g, s, n, l + k) == l + Visit(Minus(g, Elements(l)), Remaining(s, Elements(l)), n, k)
    decreases n, |s|
  {
    var gone := Elements(l);
    var h := Minus(g, gone);
    if s != [] {
      var c := s[0];
      if c in gone {
        assert Remaining(s, gone) == Remaining(s[1..], gone);
        VisitMinus(g, s[1..], n, l, k);
      } else {
        assert Remaining(s, gone)[0] == c && Remaining(s, gone)[1..] == Remaining(s[1..], gone);
        if c in k || c !in g.subs || c !in g.rank || g.rank[c] >= n {
          VisitMinus(g, s[1..], n, l, k);
        } else {
          VisitMinus(g, g.subs[c], g.rank[c], l, k);
          var m := Visit(h, h.subs[c], h.rank[c], k);
          assert (l + m) + [c] == l + (m + [c]);
          VisitMinus(g, s[1..], n, l, m + [c]);
        }
      }
    }
  }

  /** Classes that are listed already can be left out of the visit. */
  lemma {:induction false} VisitSkips(g: Graph, s: seq<Defclass>, n: nat, l: seq<Defclass>, gone: set<Defclass>)
    requires forall x :: x in gone ==> x in l
    ensures Visit(g, Remaining(s, gone), n, l) == Visit(g, s, n, l)
    decreases |s|
  {
    if s != [] {
      var c := s[0];
      if c in gone {
        assert Remaining(s, gone) == Remaining(s[1..], gone);
        VisitSkips(g, s[1..], n, l, gone);
      } else {
        assert Remaining(s, gone)[0] == c && Remaining(s, gone)[1..] == Remaining(s[1..], gone);
        if c in l || c !in g.subs || c !in g.rank || g.rank[c] >= n {
          VisitSkips(g, s[1..], n, l, gone);
        } else {
          var m := Visit(g, g.subs[c], g.rank[c], l) + [c];
          VisitExtends(g, g.subs[c], g.rank[c], l);
          VisitSkips(g, s[1..], n, m, gone);
        }
      }
    }
  }

  lemma {:induction false} VisitExtends(g: Graph, s: seq<Defclass>, n: nat, l: seq<Defclass>)
    ensures l <= Visit(g, s, n, l)
    decreases n, |s|
  {
    if s != [] {
      var c := s[0];
      if c in l || c !in g.subs || c !in g.rank || g.rank[c] >= n {
        VisitExtends(g, s[1..], n, l);
      } else {
        VisitExtends(g, g.subs[c], g.rank[c], l);
        VisitExtends(g, s[1..], n, Visit(g, g.subs[c], g.rank[c], l) + [c]);
      }
    }
  }

  lemma {:induction false} VisitRanks(g: Graph, s: seq<Defclass>, n: nat, l: seq<Defclass>)
    ensures forall i :: 0 <= i < |Visit(g, s, n, l)| ==>
      var d := Visit(g, s, n, l)[i]; d in l || (d in g.rank && g.rank[d] < n)
    decreases n, |s|
  {
    if s != [] {
      var c := s[0];
      if c in l || c !in g.subs || c !in g.rank || g.rank[c] >= n {
        VisitRanks(g, s[1..], n, l);
      } else {
        VisitRanks(g, g.subs[c], g.rank[c], l);
        VisitRanks(g, s[1..], n, Visit(g, g.subs[c], g.rank[c], l) + [c]);
      }
    }
  }

  /** A visit that is broken off and taken up again from the start gives the same order. */
  lemma {:induction false} VisitResumes(g: Graph, s: seq<Defclass>, n: nat, l: seq<Defclass>, k: seq<Defclass>)
    requires l <= k <= Visit(g, s, n, l)
    ensures Visit(g, s, n, k) == Visit(g, s, n, l)
    decreases n, |s|
  {
    if s == [] {
      assert k == l;
    } else {
      var c := s[0];
      if c in l || c !in g.subs || c !in g.rank || g.rank[c] >= n {
        VisitResumes(g, s[1..], n, l, k);
      } else {
        var b := Visit(g, g.subs[c], g.rank[c], l);
        VisitExtends(g, g.subs[c], g.rank[c], l);
        VisitExtends(g, s[1..], n, b + [c]);
        if |k| > |b| {
          assert k[|b|] == c && b + [c] <= k;
          VisitResumes(g, s[1..], n, b + [c], k);
        } else {
          assert k <= b;
          VisitRanks(g, g.subs[c], g.rank[c], l);
          VisitResumes(g, g.subs[c], g.rank[c], l, k);
        }
      }
    }
  }

  /** Those are the ones that have no class of the set before them, nor are one. */
  lemma {:induction false} UpToIs(l: seq<Defclass>, p: set<Defclass>, i: nat)
    requires i < |l|
    ensures UpTo(l, p) <= l
    ensures i < |UpTo(l, p)| <==> forall j :: 0 <= j <= i ==> l[j] !in p
  {
    if l[0] !in p && i > 0 {
      UpToIs(l[1..], p, i - 1);
      assert forall j :: 0 < j <= i ==> l[j] == l[1..][j - 1];
    }
    UpToPrefix(l, p);
  }

  lemma {:induction false} UpToFree(l: seq<Defclass>, p: set<Defclass>, k: seq<Defclass>)
    requires forall i :: 0 <= i < |l| ==> l[i] !in p
    ensures UpTo(l + k, p) == l + UpTo(k, p)
  {
    if l == [] {
      assert l + k == k && l + UpTo(k, p) == UpTo(k, p);
    } else {
      UpToFree(l[1..], p, k);
      assert (l + k)[1..] == l[1..] + k;
      assert [l[0]] + (l[1..] + UpTo(k, p)) == l + UpTo(k, p);
    }
  }

  lemma {:induction false} UpToStops(l: seq<Defclass>, p: set<Defclass>, q: set<Defclass>, k: seq<Defclass>)
    requires Elements(l) * p != {} && (forall x :: x in l ==> (x in p <==> x in q))
    ensures UpTo(l + k, q) == UpTo(l, p)
  {
    if l[0] !in p {
      var x :| x in Elements(l) * p;
      var i :| 0 <= i < |l| && l[i] == x;
      assert l[1..][i - 1] == x && x in Elements(l[1..]);
      UpToStops(l[1..], p, q, k);
      assert (l + k)[1..] == l[1..] + k;
    }
  }

  lemma {:induction false} UpToPrefix(l: seq<Defclass>, p: set<Defclass>)
    ensures UpTo(l, p) <= l
  {
    if l != [] && l[0] !in p {
      UpToPrefix(l[1..], p);
    }
  }
}
