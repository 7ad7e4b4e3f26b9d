/** Listing the message handlers of a class, or of all classes, as one multifield. */
module HandlerLists {

  datatype HandlerType = Around | Before | Primary | After

  datatype Handler = Handler(name: string, kind: HandlerType)

  function Qualifier(k: HandlerType): string {
    match k
    case Around => "around"
    case Before => "before"
    case Primary => "primary"
    case After => "after"
  }

  class Defclass {
    const name: string
    const handlers: seq<Handler>
    /** The classes the class inherits from, in order of precedence. */
    const superclasses: seq<Defclass>
    /** The next class in the order of definition. */
    var next: Defclass?

    constructor (n: string, h: seq<Handler>, supers: seq<Defclass>) {
      name, handlers, superclasses, next := n, h, supers, null;
    }

    /** All superclasses; the list starts with the class itself. */
    function AllSuperclasses(): (all: seq<Defclass>)
      ensures |all| > 0 && all[0] == this
    {
      [this] + superclasses
    }
  }

  // ------------------------------------------------------------------------------------------
  // What the multifield holds
  // ------------------------------------------------------------------------------------------

  /** The first `n` handlers of a class: for each the class's name, its own and its qualifier. */
  function Rows(c: Defclass, n: nat): (r: seq<string>)
    requires n <= |c.handlers|
    ensures |r| == 3 * n
  {
    if n == 0 then []
    else Rows(c, n - 1) + [c.name, c.handlers[n - 1].name, Qualifier(c.handlers[n - 1].kind)]
  }

  function Block(c: Defclass): seq<string> { Rows(c, |c.handlers|) }

  /** The three cells of a handler: the class's name, its own, and the word for its kind. */
  lemma {:induction false} RowsAt(c: Defclass, n: nat, j: nat)
    requires j < n <= |c.handlers|
    ensures Rows(c, n)[3 * j] == c.name && Rows(c, n)[3 * j + 1] == c.handlers[j].name
    ensures Rows(c, n)[3 * j + 2] == match c.handlers[j].kind
      case Around => "around" case Before => "before" case Primary => "primary" case After => "after"
  {
    if j < n - 1 {
      RowsAt(c, n - 1, j);
    }
  }

  /** The blocks of the classes one after the other. */
  function InOrder(classes: seq<Defclass>): seq<string> {
    if classes == [] then [] else InOrder(classes[..|classes| - 1]) + Block(classes[|classes| - 1])
  }

  /** The blocks of the classes, the last class's first. */
  function Reversed(classes: seq<Defclass>): seq<string> {
    if classes == [] then [] else Block(classes[|classes| - 1]) + Reversed(classes[..|classes| - 1])
  }

  function Total(classes: seq<Defclass>): nat {
    if classes == [] then 0 else Total(classes[..|classes| - 1]) + |classes[|classes| - 1].handlers|
  }

  lemma {:induction false} Lengths(classes: seq<Defclass>)
    ensures |InOrder(classes)| == |Reversed(classes)| == 3 * Total(classes)
  {
    if classes != [] {
      Lengths(classes[..|classes| - 1]);
    }
  }

  lemma Extend(classes: seq<Defclass>, i: nat)
    requires i < |classes|
    ensures InOrder(classes[..i + 1]) == InOrder(classes[..i]) + Block(classes[i])
    ensures Reversed(classes[..i + 1]) == Block(classes[i]) + Reversed(classes[..i])
    ensures Total(classes[..i + 1]) == Total(classes[..i]) + |classes[i].handlers|
  {
    assert classes[..i + 1][..i] == classes[..i];
  }

  lemma {:induction false} TotalGrows(classes: seq<Defclass>, i: nat)
    requires i <= |classes|
    ensures Total(classes[..i]) <= Total(classes)
    decreases |classes| - i
  {
    if i == |classes| {
      assert classes[..i] == classes;
    } else {
      Extend(classes, i);
      TotalGrows(classes, i + 1);
    }
  }

  ghost function At(list: seq<Defclass>, i: int): Defclass? {
    if 0 <= i < |list| then list[i] else null
  }

  /** From `cls` on the classes follow one another as in `list`. */
  ghost predicate Follow(list: seq<Defclass>)
    reads list`next
  {
    && (forall i, j :: 0 <= i < j < |list| ==> list[i] != list[j])
    && (forall i :: 0 <= i < |list| ==> list[i].next == At(list, i + 1))
  }

  // ------------------------------------------------------------------------------------------
  // The fill
  // ------------------------------------------------------------------------------------------

  /** Writes the three cells of a handler. */
  method FillRow(cells: array<string>, start: nat, c: Defclass, h: Handler) returns (i: nat)
    requires start + 3 <= cells.Length
    modifies cells
    ensures i == start + 3
    ensures cells[..] == old(cells[..start]) + [c.name, h.name, Qualifier(h.kind)] + old(cells[start + 3..])
  {
    i := start;
    cells[i] := c.name;
    i := i + 1;
    cells[i] := h.name;
    i := i + 1;
    cells[i] := Qualifier(h.kind);
    i := i + 1;
  }

  lemma RowJoins(was: seq<string>, rows: seq<string>, row: seq<string>, cells: seq<string>, start: nat)
    requires |row| == 3 && start + |rows| + 3 <= |was|
    requires cells == was[..start] + rows + was[start + |rows|..]
    ensures cells[..start + |rows|] + row + cells[start + |rows| + 3..]
         == was[..start] + (rows + row) + was[start + |rows| + 3..]
  {
    assert cells[..start + |rows|] == was[..start] + rows;
    assert cells[start + |rows| + 3..] == was[start + |rows| + 3..];
  }

  /** Writes one class's handlers from cell `start` on. */
  method FillBlock(cells: array<string>, start: nat, c: Defclass)
    requires start + 3 * |c.handlers| <= cells.Length
    modifies cells
    ensures cells[..] == old(cells[..start]) + Block(c) + old(cells[start + 3 * |c.handlers|..])
  {
    var i, j := start, 0;
    ghost var was := cells[..];
    assert was == was[..start] + [] + was[start..];
    while j < |c.handlers|
      invariant 0 <= j <= |c.handlers| && i == start + 3 * j
      invariant cells[..] == was[..start] + Rows(c, j) + was[i..]
    {
      RowJoins(was, Rows(c, j), [c.name, c.handlers[j].name, Qualifier(c.handlers[j].kind)], cells[..], start);
      i := FillRow(cells, i, c, c.handlers[j]);
      j := j + 1;
    }
  }

  /** The cells hold the blocks of the classes in `done`: from the front in order, or up to the end reversed. */
  ghost predicate Filled(cells: seq<string>, done: seq<Defclass>, inhp: bool) {
    && 3 * Total(done) <= |cells|
    && if inhp then cells[|cells| - 3 * Total(done)..] == Reversed(done) else cells[..3 * Total(done)] == InOrder(done)
  }

  method FillOne(cells: array<string>, supcls: Defclass, inhp: bool, sublen: nat, ghost done: seq<Defclass>)
    returns (newlen: nat)
    requires Filled(cells[..], done, inhp) && sublen == 3 * Total(done) && 3 * Total(done + [supcls]) <= cells.Length
    modifies cells
    ensures Filled(cells[..], done + [supcls], inhp) && newlen == 3 * Total(done + [supcls])
  {
    Extend(done + [supcls], |done|);
    assert (done + [supcls])[..|done|] == done && (done + [supcls])[..|done| + 1] == done + [supcls];
    Lengths(done);
    ghost var was := cells[..];
    var i := 0;
    if inhp {
      i := cells.Length - |supcls.handlers| * 3 - sublen;
    } else {
      i := sublen;
    }
    FillBlock(cells, i, supcls);
    Placed(was, cells[..], supcls, inhp, done, i);
    newlen := sublen + |supcls.handlers| * 3;
  }

  lemma Placed(was: seq<string>, cells: seq<string>, supcls: Defclass, inhp: bool, done: seq<Defclass>, i: nat)
    requires Filled(was, done, inhp) && 3 * Total(done) + 3 * |supcls.handlers| <= |was|
    requires i == if inhp then |was| - |supcls.handlers| * 3 - 3 * Total(done) else 3 * Total(done)
    requires cells == was[..i] + Block(supcls) + was[i + 3 * |supcls.handlers|..]
    requires Total(done + [supcls]) == Total(done) + |supcls.handlers|
    requires InOrder(done + [supcls]) == InOrder(done) + Block(supcls)
    requires Reversed(done + [supcls]) == Block(supcls) + Reversed(done)
    ensures Filled(cells, done + [supcls], inhp)
  {
    hide InOrder, Reversed, Total, Rows;
    if inhp {
      assert cells[i..] == Block(supcls) + was[i + 3 * |supcls.handlers|..];
    } else {
      assert cells[..i + 3 * |supcls.handlers|] == was[..i] + Block(supcls);
    }
  }

  /** The classes whose handlers are listed: the given one's precedence list, or every class by itself. */
  function Listed(list: seq<Defclass>, clsptr: Defclass?, inhp: bool): seq<Defclass> {
    if clsptr == null then list else if inhp then clsptr.AllSuperclasses() else [clsptr]
  }

  function Listing(list: seq<Defclass>, clsptr: Defclass?, inhp: bool): seq<string> {
    if clsptr != null && inhp then Reversed(clsptr.AllSuperclasses()) else InOrder(Listed(list, clsptr, inhp))
  }

  /** How many of a class's superclasses count. */
  function Limit(cls: Defclass, inhp: bool): (n: nat)
    ensures n <= |cls.AllSuperclasses()|
  {
    if inhp then |cls.AllSuperclasses()| else 1
  }

  /** The classes looked at for the classes visited. */
  function Sources(visited: seq<Defclass>, inhp: bool): seq<Defclass> {
    if visited == [] then []
    else
      var last := visited[|visited| - 1];
      Sources(visited[..|visited| - 1], inhp) + last.AllSuperclasses()[..Limit(last, inhp)]
  }

  lemma {:induction false} SourcesAlone(visited: seq<Defclass>)
    ensures Sources(visited, false) == visited
  {
    if visited != [] {
      SourcesAlone(visited[..|visited| - 1]);
    }
  }

  lemma SourcesNext(visited: seq<Defclass>, k: nat, inhp: bool)
    requires k < |visited|
    ensures Sources(visited[..k + 1], inhp)
         == Sources(visited[..k], inhp) + visited[k].AllSuperclasses()[..Limit(visited[k], inhp)]
  {
    assert visited[..k + 1][..k] == visited[..k];
  }

  lemma {:induction false} TotalJoin(a: seq<Defclass>, b: seq<Defclass>)
    ensures Total(a + b) == Total(a) + Total(b)
  {
    if b == [] {
      assert a + b == a;
    } else {
      TotalJoin(a, b[..|b| - 1]);
      assert (a + b)[..|a + b| - 1] == a + b[..|b| - 1];
    }
  }

  lemma OneMore(before: seq<Defclass>, all: seq<Defclass>, i: nat)
    requires i < |all|
    ensures before + all[..i + 1] == before + all[..i] + [all[i]]
    ensures Total(before + all[..i + 1]) == Total(before + all[..i]) + |all[i].handlers|
  {
    var done := before + all[..i];
    assert before + all[..i + 1] == done + [all[i]];
    assert (done + [all[i]])[..|done|] == done;
  }

  /** Counts the handlers of a class's superclasses. */
  method CountClass(cls: Defclass, inhp: bool, start: nat, ghost before: seq<Defclass>) returns (i: nat)
    requires start == Total(before)
    ensures i == Total(before + cls.AllSuperclasses()[..Limit(cls, inhp)])
  {
    var classiLimit := Limit(cls, inhp);
    i := start;
    var classi := 0;
    assert before + cls.AllSuperclasses()[..0] == before;
    while classi < classiLimit
      invariant 0 <= classi <= classiLimit && i == Total(before + cls.AllSuperclasses()[..classi])
    {
      OneMore(before, cls.AllSuperclasses(), classi);
      i := i + |cls.AllSuperclasses()[classi].handlers|;
      classi := classi + 1;
    }
  }

  /** Counts the handlers of the classes visited. */
  method CountHandlers(svcls: Defclass?, inhp: bool, ghost visited: seq<Defclass>) returns (i: nat)
    requires Follow(visited) && svcls == At(visited, 0)
    ensures i == Total(Sources(visited, inhp))
  {
    hide Total, Sources;
    NoSources(inhp);
    i := 0;
    var cls := svcls;
    ghost var k := 0;
    assert visited[..0] == [];
    while cls != null
      invariant 0 <= k <= |visited| && cls == At(visited, k) && i == Total(Sources(visited[..k], inhp))
      decreases |visited| - k
    {
      SourcesNext(visited, k, inhp);
      i := CountClass(cls, inhp, i, Sources(visited[..k], inhp));
      cls := cls.next;
      k := k + 1;
    }
    assert visited[..k] == visited;
  }

  lemma NoSources(inhp: bool)
    ensures Sources([], inhp) == [] && Total([]) == 0
  {
  }

  /** Writes the blocks of a class's superclasses. */
  method FillClass(cells: array<string>, cls: Defclass, inhp: bool, sublen: nat, ghost before: seq<Defclass>)
    returns (newlen: nat)
    requires Filled(cells[..], before, inhp) && sublen == 3 * Total(before)
    requires 3 * Total(before + cls.AllSuperclasses()[..Limit(cls, inhp)]) <= cells.Length
    modifies cells
    ensures Filled(cells[..], before + cls.AllSuperclasses()[..Limit(cls, inhp)], inhp)
    ensures newlen == 3 * Total(before + cls.AllSuperclasses()[..Limit(cls, inhp)])
  {
    hide Total, Filled, InOrder, Reversed;
    ghost var all, limit := cls.AllSuperclasses(), Limit(cls, inhp);
    var classiLimit := Limit(cls, inhp);
    newlen := sublen;
    var classi := 0;
    assert before + all[..0] == before;
    while classi < classiLimit
      invariant 0 <= classi <= classiLimit && newlen == 3 * Total(before + all[..classi])
      invariant Filled(cells[..], before + all[..classi], inhp)
    {
      OneMore(before, all, classi);
      assert (before + all[..limit])[..|before| + classi + 1] == before + all[..classi + 1];
      TotalGrows(before + all[..limit], |before| + classi + 1);
      newlen := FillOne(cells, cls.AllSuperclasses()[classi], inhp, newlen, before + all[..classi]);
      classi := classi + 1;
    }
  }

  method FillClasses(cells: array<string>, svcls: Defclass?, inhp: bool, ghost visited: seq<Defclass>)
    requires Follow(visited) && svcls == At(visited, 0) && cells.Length == 3 * Total(Sources(visited, inhp))
    modifies cells
    ensures cells[..] == if inhp then Reversed(Sources(visited, inhp)) else InOrder(Sources(visited, inhp))
  {
    hide Total, Sources, Filled, InOrder, Reversed;
    NoSources(inhp);
    NothingFilled(cells[..], inhp);
    var cls, sublen := svcls, 0;
    ghost var k := 0;
    assert visited[..0] == [];
    while cls != null
      invariant 0 <= k <= |visited| && cls == At(visited, k) && sublen == 3 * Total(Sources(visited[..k], inhp))
      invariant Filled(cells[..], Sources(visited[..k], inhp), inhp)
      decreases |visited| - k
    {
      SourcesNext(visited, k, inhp);
      SourcesGrow(visited, k + 1, inhp);
      sublen := FillClass(cells, cls, inhp, sublen, Sources(visited[..k], inhp));
      cls := cls.next;
      k := k + 1;
    }
    assert visited[..k] == visited;
    AllFilled(cells[..], Sources(visited, inhp), inhp);
  }

  lemma NothingFilled(cells: seq<string>, inhp: bool)
    ensures Filled(cells, [], inhp)
  {
  }

  lemma AllFilled(cells: seq<string>, done: seq<Defclass>, inhp: bool)
    requires Filled(cells, done, inhp) && |cells| == 3 * Total(done)
    ensures cells == if inhp then Reversed(done) else InOrder(done)
  {
    assert cells[0..] == cells && cells[..|cells|] == cells;
  }

  lemma {:induction false} SourcesGrow(visited: seq<Defclass>, k: nat, inhp: bool)
    requires k <= |visited|
    ensures Total(Sources(visited[..k], inhp)) <= Total(Sources(visited, inhp))
    decreases |visited| - k
  {
    if k == |visited| {
      assert visited[..k] == visited;
    } else {
      SourcesNext(visited, k, inhp);
      TotalJoin(Sources(visited[..k], inhp), visited[k].AllSuperclasses()[..Limit(visited[k], inhp)]);
      SourcesGrow(visited, k + 1, inhp);
    }
  }

  /** The handlers of the class, inherited ones included or not, or of all classes; the chain of classes, cut for the
      time of the call, is restored. */
  method EnvGetDefmessageHandlerList(first: Defclass?, clsptr: Defclass?, inhp: bool, ghost list: seq<Defclass>)
    returns (result: array<string>)
    requires Follow(list) && first == At(list, 0) && (clsptr != null ==> clsptr in list)
    modifies list`next
    ensures fresh(result) && result[..] == Listing(list, clsptr, inhp)
    ensures result.Length == 3 * Total(Listed(list, clsptr, inhp))
    ensures forall c :: c in list ==> c.next == old(c.next)
  {
    hide Total, Sources, InOrder, Reversed;
    var cls, svnxt, inherited;
    ghost var visited;
    if clsptr == null {
      inherited := false;
      cls := first;
      svnxt := if cls == null then first else cls.next;
      visited := list;
    } else {
      inherited := inhp;
      cls := clsptr;
      svnxt := cls.next;
      cls.next := null;
      visited := [clsptr];
    }
    VisitedSources(list, clsptr, inhp);
    var i := CountHandlers(cls, inherited, visited);
    var len := i * 3;
    result := new string[len](_ => "");
    FillClasses(result, cls, inherited, visited);
    Lengths(Sources(visited, inherited));
    if cls != null {
      cls.next := svnxt;
    }
  }

  lemma VisitedSources(list: seq<Defclass>, clsptr: Defclass?, inhp: bool)
    ensures clsptr == null ==> Sources(list, false) == list
    ensures clsptr != null ==> Sources([clsptr], inhp) == Listed(list, clsptr, inhp)
  {
    SourcesAlone(list);
    if clsptr != null {
      assert [clsptr][..0] == [];
      SourcesNext([clsptr], 0, inhp);
      assert [clsptr][..1] == [clsptr];
      assert clsptr.AllSuperclasses()[..|clsptr.AllSuperclasses()|] == clsptr.AllSuperclasses();
    }
  }

  /** In a listing in order, a class's handlers stand behind those of all classes before it. */
  lemma {:induction false} InOrderAt(classes: seq<Defclass>, k: nat)
    requires k < |classes|
    ensures var from := 3 * Total(classes[..k]);
      from + 3 * |classes[k].handlers| <= |InOrder(classes)|
      && InOrder(classes)[from..from + 3 * |classes[k].handlers|] == Block(classes[k])
  {
    var n := |classes| - 1;
    var front := classes[..n];
    assert classes[..n + 1] == classes;
    Extend(classes, n);
    Lengths(front);
    if k < n {
      InOrderAt(front, k);
      assert front[..k] == classes[..k];
    }
    hide Total, InOrder, Rows;
  }

  /** In a reversed listing they stand before those of all classes that precede it. */
  lemma {:induction false} ReversedAt(classes: seq<Defclass>, k: nat)
    requires k < |classes|
    ensures var upto := 3 * Total(classes) - 3 * Total(classes[..k]);
      0 <= upto - 3 * |classes[k].handlers| && upto <= |Reversed(classes)|
      && Reversed(classes)[upto - 3 * |classes[k].handlers|..upto] == Block(classes[k])
  {
    var n := |classes| - 1;
    var front := classes[..n];
    assert classes[..n + 1] == classes;
    Extend(classes, n);
    Lengths(classes);
    TotalGrows(front, k);
    if k < n {
      ReversedAt(front, k);
      assert front[..k] == classes[..k];
      hide Total, Reversed, Rows;
      var upto, m := 3 * Total(front) - 3 * Total(front[..k]), |Block(classes[n])|;
      assert Reversed(classes)[m + upto - 3 * |classes[k].handlers|..m + upto]
          == Reversed(front)[upto - 3 * |classes[k].handlers|..upto];
    }
  }
}
