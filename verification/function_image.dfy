/** The table of function names in a binary image: written from the function list, read back by a search that goes
    on where the last one ended. */
module FunctionImage {

  class FunctionDefinition {
    const callFunctionName: string
    var bsaveIndex: int
    var next: FunctionDefinition?

    constructor (name: string)
      ensures callFunctionName == name && next == null
    {
      callFunctionName, bsaveIndex, next := name, 0, null;
    }
  }

  /** What the image holds: the number of names, the bytes they take, and the names, each with a closing zero. */
  datatype Image = Image(count: nat, space: nat, names: string)

  ghost function At(list: seq<FunctionDefinition>, i: int): FunctionDefinition? {
    if 0 <= i < |list| then list[i] else null
  }

  /** A list of distinct entries. */
  ghost predicate Linked(first: FunctionDefinition?, list: seq<FunctionDefinition>)
    reads list`next
  {
    && first == At(list, 0)
    && (forall i :: 0 <= i < |list| ==> list[i].next == At(list, i + 1))
    && (forall i, j :: 0 <= i < j < |list| ==> list[i] != list[j])
  }

  /** The function list: distinct entries with distinct names, none of which holds a zero. */
  ghost predicate Listed(first: FunctionDefinition?, list: seq<FunctionDefinition>)
    reads list`next
  {
    && Linked(first, list)
    && (forall i, j :: 0 <= i < j < |list| ==> list[i].callFunctionName != list[j].callFunctionName)
    && (forall i :: 0 <= i < |list| ==> '\0' !in list[i].callFunctionName)
  }

  lemma ListedLinked(first: FunctionDefinition?, list: seq<FunctionDefinition>)
    ensures Listed(first, list) ==> Linked(first, list)
  {
  }

  lemma AtIs(list: seq<FunctionDefinition>, i: int)
    ensures At(list, i) == if 0 <= i < |list| then list[i] else null
  {
  }

  lemma Links(first: FunctionDefinition?, list: seq<FunctionDefinition>, i: nat)
    requires Linked(first, list)
    ensures first == At(list, 0) && (i < |list| ==> list[i].next == At(list, i + 1))
  {
  }

  lemma Apart(first: FunctionDefinition?, list: seq<FunctionDefinition>, i: nat)
    requires Linked(first, list) && i < |list|
    ensures forall k :: 0 <= k < |list| && k != i ==> list[k] != list[i]
  {
  }

  // ------------------------------------------------------------------------------------------
  // Writing
  // ------------------------------------------------------------------------------------------

  /** The conversion to a short integer. */
  function Short(n: int): int { (n + 0x8000) % 0x10000 - 0x8000 }

  /** How many of the first `i` flags are set. */
  function Rank(needed: seq<bool>, i: nat): nat
    requires i <= |needed|
  {
    if i == 0 then 0 else Rank(needed, i - 1) + if needed[i - 1] then 1 else 0
  }

  /** The names of the first `i` functions that are needed and have an index that is not negative. */
  ghost function Names(list: seq<FunctionDefinition>, needed: seq<bool>, i: nat): seq<string>
    requires i <= |list| == |needed|
  {
    if i == 0 then []
    else
      var more := if needed[i - 1] && Short(Rank(needed, i - 1)) >= 0 then [list[i - 1].callFunctionName] else [];
      Names(list, needed, i - 1) + more
  }

  /** The names with their closing zeros. */
  function Joined(names: seq<string>): string {
    if names == [] then "" else Joined(names[..|names| - 1]) + names[|names| - 1] + "\0"
  }

  /** Each name stands behind the names before it and their zeros, with a zero byte of its own behind it. */
  lemma {:induction false} JoinedAt(names: seq<string>, k: nat)
    requires k < |names|
    ensures var from := |Joined(names[..k])|;
      && from + |names[k]| < |Joined(names)| && Joined(names)[from..from + |names[k]|] == names[k]
      && Joined(names)[from + |names[k]|] as int == 0 && |Joined(names[..k + 1])| == from + |names[k]| + 1
    ensures |Joined(names[..0])| == 0
  {
    var n := |names| - 1;
    assert names[..k + 1][..k] == names[..k] && names[..n + 1] == names;
    if k < n {
      JoinedAt(names[..n], k);
      assert names[..n][..k] == names[..k] && names[..n][..k + 1] == names[..k + 1];
      var from := |Joined(names[..k])|;
      assert Joined(names)[from..from + |names[k]|] == Joined(names[..n])[from..from + |names[k]|];
    }
  }

  lemma JoinedNext(names: seq<string>, name: string)
    ensures Joined(names + [name]) == Joined(names) + name + "\0"
  {
    assert (names + [name])[..|names|] == names;
  }

  /** The needed functions are numbered in list order, the others get -1. */
  ghost predicate Numbered(list: seq<FunctionDefinition>, needed: seq<bool>, i: nat)
    requires i <= |list| == |needed|
    reads list`bsaveIndex
  {
    forall k :: 0 <= k < i ==> list[k].bsaveIndex == if needed[k] then Short(Rank(needed, k)) else -1
  }

  method InitializeFunctionNeededFlags(first: FunctionDefinition?, ghost list: seq<FunctionDefinition>)
    requires Listed(first, list)
    modifies list`bsaveIndex
    ensures forall i :: 0 <= i < |list| ==> list[i].bsaveIndex == 0
  {
    var functionList := first;
    ghost var i := 0;
    while functionList != null
      invariant 0 <= i <= |list| && functionList == At(list, i)
      invariant forall k :: 0 <= k < i ==> list[k].bsaveIndex == 0
      decreases |list| - i
    {
      functionList.bsaveIndex := 0;
      functionList := functionList.next;
      i := i + 1;
    }
  }

  /** Gives each needed function its index. */
  method AssignIndices(first: FunctionDefinition?, ghost list: seq<FunctionDefinition>, ghost needed: seq<bool>)
    returns (count: nat)
    requires Listed(first, list) && |needed| == |list|
    requires forall i :: 0 <= i < |list| ==> (needed[i] <==> list[i].bsaveIndex != 0)
    modifies list`bsaveIndex
    ensures Numbered(list, needed, |list|) && count == Rank(needed, |list|)
  {
    hide *;
    var functionList := first;
    ghost var i := 0;
    count := 0;
    RankNone(needed);
    ListedLinked(first, list);
    Links(first, list, 0);
    NoneNumbered(list, needed);
    while functionList != null
      invariant 0 <= i <= |list| && functionList == At(list, i)
      invariant count == Rank(needed, i) && Numbered(list, needed, i)
      invariant forall k :: i <= k < |list| ==> (needed[k] <==> list[k].bsaveIndex != 0)
      decreases |list| - i
    {
      AtIs(list, i);
      Links(first, list, i);
      Apart(first, list, i);
      RankNext(needed, i);
      NumberedIs(list, needed, i);
      if functionList.bsaveIndex != 0 {
        functionList.bsaveIndex := Short(count);
        count := count + 1;
      } else {
        functionList.bsaveIndex := -1;
      }
      NumberedNext(list, needed, i);
      functionList := functionList.next;
      i := i + 1;
    }
    AtIs(list, i);
  }

  lemma NoneNumbered(list: seq<FunctionDefinition>, needed: seq<bool>)
    requires |list| == |needed|
    ensures Numbered(list, needed, 0)
  {
  }

  lemma NumberedIs(list: seq<FunctionDefinition>, needed: seq<bool>, i: nat)
    requires i <= |list| == |needed| && Numbered(list, needed, i)
    ensures forall k :: 0 <= k < i ==> list[k].bsaveIndex == if needed[k] then Short(Rank(needed, k)) else -1
  {
  }

  lemma NumberedNext(list: seq<FunctionDefinition>, needed: seq<bool>, i: nat)
    requires i < |list| == |needed|
    requires forall k :: 0 <= k < i ==> list[k].bsaveIndex == if needed[k] then Short(Rank(needed, k)) else -1
    requires list[i].bsaveIndex == if needed[i] then Short(Rank(needed, i)) else -1
    ensures Numbered(list, needed, i + 1)
  {
  }

  lemma RankNone(needed: seq<bool>)
    ensures Rank(needed, 0) == 0
  {
  }

  lemma RankNext(needed: seq<bool>, i: nat)
    requires i < |needed|
    ensures Rank(needed, i + 1) == Rank(needed, i) + if needed[i] then 1 else 0
  {
  }

  /** The bytes that the names take. */
  method FunctionBinarySize(first: FunctionDefinition?, ghost list: seq<FunctionDefinition>, ghost needed: seq<bool>)
    returns (size: nat)
    requires Listed(first, list) && |needed| == |list| && Numbered(list, needed, |list|)
    ensures size == |Joined(Names(list, needed, |list|))|
  {
    hide *;
    NamesNone(list, needed);
    ListedLinked(first, list);
    Links(first, list, 0);
    NumberedIs(list, needed, |list|);
    var functionList := first;
    ghost var i := 0;
    size := 0;
    while functionList != null
      invariant 0 <= i <= |list| && functionList == At(list, i) && size == |Joined(Names(list, needed, i))|
      decreases |list| - i
    {
      AtIs(list, i);
      Links(first, list, i);
      NamesNext(list, needed, i);
      if functionList.bsaveIndex >= 0 {
        size := size + |functionList.callFunctionName| + 1;
      }
      functionList := functionList.next;
      i := i + 1;
    }
    AtIs(list, i);
  }

  lemma NamesNone(list: seq<FunctionDefinition>, needed: seq<bool>)
    requires |list| == |needed|
    ensures Joined(Names(list, needed, 0)) == "" && Names(list, needed, 0) == []
  {
  }

  lemma NamesNext(list: seq<FunctionDefinition>, needed: seq<bool>, i: nat)
    requires i < |list| == |needed|
    ensures var more := needed[i] && Short(Rank(needed, i)) >= 0;
      && Names(list, needed, i + 1) == Names(list, needed, i) + (if more then [list[i].callFunctionName] else [])
      && Joined(Names(list, needed, i + 1))
         == Joined(Names(list, needed, i)) + (if more then list[i].callFunctionName + "\0" else "")
  {
    if needed[i] && Short(Rank(needed, i)) >= 0 {
      JoinedNext(Names(list, needed, i), list[i].callFunctionName);
    } else {
      assert Names(list, needed, i + 1) == Names(list, needed, i);
    }
  }

  /** The space recorded is that of the names that follow it. */
  method WriteNeededFunctions(first: FunctionDefinition?, ghost list: seq<FunctionDefinition>, ghost needed: seq<bool>)
    returns (image: Image)
    requires Listed(first, list) && |needed| == |list|
    requires forall i :: 0 <= i < |list| ==> (needed[i] <==> list[i].bsaveIndex != 0)
    modifies list`bsaveIndex
    ensures Numbered(list, needed, |list|) && image.count == Rank(needed, |list|)
    ensures image.names == Joined(Names(list, needed, |list|)) && image.space == |image.names|
  {
    hide *;
    var count := AssignIndices(first, list, needed);
    if count == 0 {
      NothingNeeded(list, needed, |list|);
      return Image(count, count, "");
    }
    var space := FunctionBinarySize(first, list, needed);
    var names := WriteNames(first, list, needed);
    return Image(count, space, names);
  }

  method WriteNames(first: FunctionDefinition?, ghost list: seq<FunctionDefinition>, ghost needed: seq<bool>)
    returns (names: string)
    requires Listed(first, list) && |needed| == |list| && Numbered(list, needed, |list|)
    ensures names == Joined(Names(list, needed, |list|))
  {
    hide *;
    NamesNone(list, needed);
    ListedLinked(first, list);
    Links(first, list, 0);
    NumberedIs(list, needed, |list|);
    var functionList := first;
    names := "";
    ghost var i := 0;
    while functionList != null
      invariant 0 <= i <= |list| && functionList == At(list, i) && names == Joined(Names(list, needed, i))
      decreases |list| - i
    {
      AtIs(list, i);
      Links(first, list, i);
      NamesNext(list, needed, i);
      if functionList.bsaveIndex >= 0 {
        names := names + (functionList.callFunctionName + "\0");
      }
      functionList := functionList.next;
      i := i + 1;
    }
    AtIs(list, i);
  }

  lemma {:induction false} NothingNeeded(list: seq<FunctionDefinition>, needed: seq<bool>, i: nat)
    requires i <= |list| == |needed| && Rank(needed, i) == 0
    ensures Joined(Names(list, needed, i)) == ""
  {
    if i > 0 {
      NothingNeeded(list, needed, i - 1);
      assert Names(list, needed, i) == Names(list, needed, i - 1);
    }
  }

  // ------------------------------------------------------------------------------------------
  // Reading
  // ------------------------------------------------------------------------------------------

  /** The first place with the name from `i` on, before `upto`, or -1. */
  ghost function First(list: seq<FunctionDefinition>, name: string, i: nat, upto: nat): (r: int)
    requires i <= upto <= |list|
    ensures r == -1 || i <= r < upto
    decreases upto - i
  {
    if i == upto then -1
    else if list[i].callFunctionName == name then i
    else First(list, name, i + 1, upto)
  }

  lemma {:induction false} FirstIs(list: seq<FunctionDefinition>, name: string, i: nat, upto: nat)
    requires i <= upto <= |list|
    ensures var r := First(list, name, i, upto);
      if r == -1 then forall k :: i <= k < upto ==> list[k].callFunctionName != name
      else
        && i <= r < upto && list[r].callFunctionName == name
        && forall k :: i <= k < r ==> list[k].callFunctionName != name
    decreases upto - i
  {
    if i < upto {
      FirstIs(list, name, i + 1, upto);
    }
  }

  datatype Search = Found(i: nat) | Absent | Fault | Endless

  /** The outcome of a search that goes on after entry `last`, or starts at the front for -1. Behind the last entry
      there is nothing to look at; after the first entry the step back to the front passes the place where the search
      began without noticing. */
  ghost function Searched(list: seq<FunctionDefinition>, name: string, last: int): Search
    requires -1 <= last < |list|
  {
    if list == [] then Absent
    else if last == |list| - 1 then Fault
    else
      var later := First(list, name, last + 1, |list|);
      if later >= 0 then Found(later)
      else if last == -1 then Absent
      else if last == 0 then (if list[0].callFunctionName == name then Found(0) else Endless)
      else
        var earlier := First(list, name, 0, last);
        if earlier >= 0 then Found(earlier) else Absent
  }

  /** Entry `i` or another one but `last` has the name. */
  ghost predicate HasOther(list: seq<FunctionDefinition>, name: string, last: int) {
    exists i :: 0 <= i < |list| && i != last && list[i].callFunctionName == name
  }

  /** When a search faults, does not end, or finds nothing; and that otherwise it finds the name. */
  lemma SearchExact(list: seq<FunctionDefinition>, name: string, last: int)
    requires -1 <= last < |list|
    ensures Searched(list, name, last) == Fault <==> list != [] && last == |list| - 1
    ensures Searched(list, name, last) == Endless <==>
      last == 0 < |list| - 1 && forall i :: 0 <= i < |list| ==> list[i].callFunctionName != name
    ensures Searched(list, name, last) == Absent <==>
      list == [] || ((last == -1 || 0 < last < |list| - 1) && !HasOther(list, name, last))
    ensures Searched(list, name, last).Found? ==>
      var i := Searched(list, name, last).i; i < |list| && list[i].callFunctionName == name
  {
    if list != [] && last != |list| - 1 {
      FirstIs(list, name, last + 1, |list|);
      if last > 0 { FirstIs(list, name, 0, last); }
    }
  }

  /** The search loop stands at entry `i`, or has ended. */
  datatype State = Running(i: nat) | Ended(outcome: Search)

  /** The state of the search loop after `k` turns, from entry `i`; the entry behind the last is the null pointer. */
  ghost function After(list: seq<FunctionDefinition>, name: string, i: nat, last: int, k: nat): State
    decreases k
  {
    if i >= |list| then Ended(Fault)
    else if list[i].callFunctionName == name then Ended(Found(i))
    else if k == 0 then Running(i)
    else if (i + 1 == |list| && last == -1) || i + 1 == last then Ended(Absent)
    else After(list, name, if i + 1 == |list| then 0 else i + 1, last, k - 1)
  }

  /** Up to the end of the list. */
  lemma {:induction false} AfterLater(list: seq<FunctionDefinition>, name: string, i: nat, last: int, k: nat)
    requires list != [] && -1 <= last < i < |list|
    ensures var later := First(list, name, i, |list|);
      if later >= 0 then After(list, name, i, last, later - i + k) == Ended(Found(later))
      else After(list, name, i, last, |list| - i + k) == if last == -1 then Ended(Absent)
           else After(list, name, 0, last, k)
    decreases |list| - i
  {
    FirstIs(list, name, i, |list|);
    if list[i].callFunctionName != name && i + 1 < |list| {
      AfterLater(list, name, i + 1, last, k);
    }
  }

  /** From the front up to where the search began. */
  lemma {:induction false} AfterEarlier(list: seq<FunctionDefinition>, name: string, i: nat, last: int)
    requires 0 <= i < last < |list|
    ensures var earlier := First(list, name, i, last);
      After(list, name, i, last, last - i) == if earlier >= 0 then Ended(Found(earlier)) else Ended(Absent)
    decreases last - i
  {
    FirstIs(list, name, i, last);
    if list[i].callFunctionName != name && i + 1 < last {
      AfterEarlier(list, name, i + 1, last);
    }
  }

  /** After the first entry a name that is not in the list is searched for for ever. */
  lemma {:induction false} SearchLoops(list: seq<FunctionDefinition>, name: string, i: nat, k: nat)
    requires i < |list| && forall j :: 0 <= j < |list| ==> list[j].callFunctionName != name
    ensures After(list, name, i, 0, k).Running?
    decreases k
  {
    if k > 0 {
      SearchLoops(list, name, if i + 1 == |list| then 0 else i + 1, k - 1);
    }
  }

  /** The turns of the loop come to that outcome, or to none. */
  lemma SearchTurns(list: seq<FunctionDefinition>, name: string, last: int, i: nat)
    requires -1 <= last < |list| && list != [] && i == last + 1
    ensures Searched(list, name, last) == Endless ==> forall k: nat :: After(list, name, i, last, k).Running?
    ensures Searched(list, name, last) != Endless ==>
      exists k: nat :: After(list, name, i, last, k) == Ended(Searched(list, name, last))
  {
    hide First, After;
    SearchExact(list, name, last);
    var n := |list|;
    if last == n - 1 {
      AfterBehind(list, name, last);
    } else if Searched(list, name, last) == Endless {
      forall k: nat ensures After(list, name, i, last, k).Running? {
        SearchLoops(list, name, i, k);
      }
    } else {
      FirstIs(list, name, i, n);
      var later := First(list, name, i, n);
      AfterLater(list, name, i, last, if last > 0 then last else 0);
      if later < 0 && last == 0 {
        AfterFound(list, name, 0, last);
      } else if later < 0 && last > 0 {
        AfterEarlier(list, name, 0, last);
      }
    }
  }

  lemma AfterBehind(list: seq<FunctionDefinition>, name: string, last: int)
    requires last == |list| - 1 >= 0
    ensures After(list, name, last + 1, last, 0) == Ended(Fault)
  {
  }

  lemma AfterFound(list: seq<FunctionDefinition>, name: string, i: nat, last: int)
    requires i < |list| && list[i].callFunctionName == name
    ensures After(list, name, i, last, 0) == Ended(Found(i))
  {
  }

  lemma FirstNext(list: seq<FunctionDefinition>, name: string, i: nat, upto: nat)
    requires i <= upto <= |list|
    ensures i == upto ==> First(list, name, i, upto) == -1
    ensures i < upto && list[i].callFunctionName == name ==> First(list, name, i, upto) == i
    ensures i < upto && list[i].callFunctionName != name ==>
      First(list, name, i, upto) == First(list, name, i + 1, upto)
  {
  }

  /** Searches the list for a name, going around, from behind the function found last; `fault` when that is the last
      in the list, where the code follows a null pointer. */
  method FastFindFunction(functionName: string, first: FunctionDefinition?, lastFunction: FunctionDefinition?,
                          ghost list: seq<FunctionDefinition>, ghost last: int)
    returns (theFunction: FunctionDefinition?, fault: bool)
    requires Linked(first, list) && -1 <= last < |list| && lastFunction == At(list, last)
    requires Searched(list, functionName, last) != Endless
    ensures fault <==> Searched(list, functionName, last) == Fault
    ensures var s := Searched(list, functionName, last); theFunction == At(list, if s.Found? then s.i else -1)
  {
    hide First, Linked;
    Links(first, list, 0);
    if first == null {
      return null, false;
    }
    if last >= 0 { Links(first, list, last); }
    if lastFunction != null {
      theFunction := lastFunction.next;
    } else {
      theFunction := first;
    }
    if theFunction == null {
      return null, true;
    }
    ghost var n, i, around := |list|, last + 1, false;
    while theFunction.callFunctionName != functionName
      invariant 0 <= i < n && theFunction == list[i]
      invariant !around ==> last < i && First(list, functionName, last + 1, n) == First(list, functionName, i, n)
      invariant around ==> 0 <= last && i <= last && First(list, functionName, last + 1, n) == -1
      invariant around && last > 0 ==>
        i < last && First(list, functionName, 0, last) == First(list, functionName, i, last)
      decreases !around, n - i
    {
      Links(first, list, i);
      Apart(first, list, i);
      FirstNext(list, functionName, i, n);
      FirstNext(list, functionName, n, n);
      if around && last > 0 {
        FirstNext(list, functionName, i, last);
        FirstNext(list, functionName, last, last);
      }
      theFunction := theFunction.next;
      if i + 1 < n { Apart(first, list, i + 1); }
      if theFunction == lastFunction {
        return null, false;
      }
      if theFunction == null {
        theFunction := first;
        around := true;
      }
      i := if i + 1 == n then 0 else i + 1;
    }
    FirstNext(list, functionName, i, n);
    if around && last > 0 { FirstNext(list, functionName, i, last); }
    return theFunction, false;
  }

  // ------------------------------------------------------------------------------------------
  // Loading the table
  // ------------------------------------------------------------------------------------------

  lemma {:induction false} JoinedSplit(names: seq<string>, i: nat)
    requires i < |names|
    ensures |Joined(names[..i])| + |names[i]| + 1 == |Joined(names[..i + 1])| <= |Joined(names)|
    ensures Joined(names)[|Joined(names[..i])|..|Joined(names[..i])| + |names[i]|] == names[i]
    ensures Joined(names)[|Joined(names[..i])| + |names[i]|] == '\0'
  {
    var n := |names| - 1;
    assert names[..n + 1] == names && names[..i + 1][..i] == names[..i];
    if i < n {
      JoinedSplit(names[..n], i);
      assert names[..n][..i] == names[..i] && names[..n][..i + 1] == names[..i + 1];
    }
  }

  /** The length of the string at `start`. */
  method Strlen(buffer: string, start: nat, ghost length: nat) returns (n: nat)
    requires start + length < |buffer| && buffer[start + length] == '\0'
    requires '\0' !in buffer[start..start + length]
    ensures n == length
  {
    n := 0;
    while buffer[start + n] != '\0'
      invariant 0 <= n <= length
      decreases length - n
    {
      n := n + 1;
    }
    if n < length { NotZero(buffer, start, length, n); }
  }

  lemma NotZero(buffer: string, start: nat, length: nat, n: nat)
    requires n < length && start + length < |buffer| && '\0' !in buffer[start..start + length]
    ensures buffer[start + n] != '\0'
  {
    assert buffer[start + n] == buffer[start..start + length][n];
  }

  /** The places at which names are found, -1 for one that is not; or what stops the loading. */
  datatype Loading = Places(places: seq<int>) | Crash | Hang

  /** The entry at which a search left off. */
  function LastOf(places: seq<int>): int { if places == [] then -1 else places[|places| - 1] }

  /** Each search goes on from where the one before ended, or from the front when that found nothing. */
  ghost function Load(list: seq<FunctionDefinition>, names: seq<string>, k: nat): (r: Loading)
    requires k <= |names|
    ensures r.Places? ==> |r.places| == k && -1 <= LastOf(r.places) < |list|
    ensures r.Places? ==> forall j :: 0 <= j < k ==> -1 <= r.places[j] < |list|
  {
    if k == 0 then Places([])
    else
      var before := Load(list, names, k - 1);
      if !before.Places? then before
      else
        var last := LastOf(before.places);
        SearchExact(list, names[k - 1], last);
        match Searched(list, names[k - 1], last)
        case Found(i) => Places(before.places + [i])
        case Absent => Places(before.places + [-1])
        case Fault => Crash
        case Endless => Hang
  }

  lemma LoadNext(list: seq<FunctionDefinition>, names: seq<string>, k: nat)
    requires k < |names|
    ensures var before := Load(list, names, k);
      if before.Places? then
        && -1 <= LastOf(before.places) < |list|
        && var s := Searched(list, names[k], LastOf(before.places));
           Load(list, names, k + 1) ==
             if s == Fault then Crash else if s == Endless then Hang
             else Places(before.places + [if s.Found? then s.i else -1])
      else Load(list, names, k + 1) == before
  {
  }

  /** What stops the loading early stops it. */
  lemma {:induction false} LoadStops(list: seq<FunctionDefinition>, names: seq<string>, k: nat, m: nat)
    requires k <= m <= |names| && !Load(list, names, k).Places?
    ensures Load(list, names, m) == Load(list, names, k)
    decreases m
  {
    if k < m {
      LoadStops(list, names, k, m - 1);
    }
  }

  /** Every place is one of its name, and one that is -1 means that no function but the one found before has it. */
  lemma {:induction false} PlacesAre(list: seq<FunctionDefinition>, names: seq<string>, k: nat, j: nat)
    requires j < k <= |names| && Load(list, names, k).Places?
    ensures var p := Load(list, names, k).places[j];
      if p >= 0 then p < |list| && list[p].callFunctionName == names[j]
      else !HasOther(list, names[j], if j == 0 then -1 else Load(list, names, k).places[j - 1])
    decreases k
  {
    hide Searched;
    LoadNext(list, names, k - 1);
    var before := Load(list, names, k - 1).places;
    SearchExact(list, names[k - 1], LastOf(before));
    if j < k - 1 {
      PlacesAre(list, names, k - 1, j);
    }
  }

  /** The function array: entry `k` is the function found for the `k`-th name. An error, and no array, when some name
      is not found; `fault` when a search follows a null pointer. */
  method ReadNeededFunctions(image: Image, first: FunctionDefinition?, ghost list: seq<FunctionDefinition>,
                             ghost names: seq<string>)
    returns (newFunctionArray: array?<FunctionDefinition?>, error: bool, fault: bool)
    requires Linked(first, list) && (forall k :: 0 <= k < |names| ==> '\0' !in names[k])
    requires image.count == |names| && image.names == Joined(names) && image.space == |image.names|
    requires Load(list, names, |names|) != Hang
    ensures fault <==> Load(list, names, |names|) == Crash
    ensures !fault ==> (error <==> -1 in Load(list, names, |names|).places)
    ensures newFunctionArray == null <==> fault || error || image.count == 0
    ensures newFunctionArray != null ==> fresh(newFunctionArray) && newFunctionArray.Length == image.count
    ensures newFunctionArray != null ==>
      forall k :: 0 <= k < |names| ==> newFunctionArray[k] == At(list, Load(list, names, |names|).places[k])
  {
    hide *;
    if image.count == 0 {
      NothingLoaded(list, names);
      return null, false, false;
    }
    var functionNames := image.names[..image.space];
    assert functionNames == image.names;
    var functions := new FunctionDefinition?[image.count](_ => null);
    var functionsNotFound := false;
    var namePtr := 0;
    var functionPtr: FunctionDefinition? := null;
    NoNames();
    assert names[..0] == [];
    AtIs(list, -1);
    NothingLoaded(list, names);
    ghost var places: seq<int> := [];
    LastIs(places);
    var i := 0;
    while i < image.count
      invariant 0 <= i <= image.count && namePtr == |Joined(names[..i])|
      invariant Load(list, names, i) == Places(places) && |places| == i && functionPtr == At(list, LastOf(places))
      invariant forall k :: 0 <= k < i ==> functions[k] == At(list, places[k])
      invariant functionsNotFound <==> -1 in places
    {
      JoinedSplit(names, i);
      var n := Strlen(functionNames, namePtr, |names[i]|);
      var name := functionNames[namePtr..namePtr + n];
      ghost var last := LastOf(places);
      LoadNext(list, names, i);
      if !Load(list, names, i + 1).Places? { LoadStops(list, names, i + 1, |names|); }
      SearchExact(list, names[i], last);
      var fault;
      functionPtr, fault := FastFindFunction(name, first, functionPtr, list, last);
      if fault {
        return null, false, true;
      }
      ghost var s := Searched(list, names[i], last);
      places := places + [if s.Found? then s.i else -1];
      LastIs(places);
      AtIs(list, LastOf(places));
      if functionPtr == null {
        functionsNotFound := true;
      }
      functions[i] := functionPtr;
      namePtr := namePtr + n + 1;
      i := i + 1;
    }
    if functionsNotFound {
      return null, true, false;
    }
    return functions, false, false;
  }

  lemma NothingLoaded(list: seq<FunctionDefinition>, names: seq<string>)
    ensures Load(list, names, 0) == Places([])
  {
  }

  lemma LastIs(places: seq<int>)
    ensures LastOf(places) == if places == [] then -1 else places[|places| - 1]
  {
  }

  lemma NoNames()
    ensures |Joined([])| == 0
  {
  }

  // ------------------------------------------------------------------------------------------
  // Writing and reading back
  // ------------------------------------------------------------------------------------------

  const SHORT_LIMIT := 0x8000

  /** All needed functions are written exactly when their indices fit a short integer: from 32769 functions on an
      index turns negative, and its function is counted but not written. */
  lemma {:induction false} AllWritten(list: seq<FunctionDefinition>, needed: seq<bool>, i: nat)
    requires i <= |list| == |needed|
    ensures |Names(list, needed, i)| <= Rank(needed, i)
    ensures |Names(list, needed, i)| == Rank(needed, i) <==> Rank(needed, i) <= 32768
  {
    if i > 0 {
      AllWritten(list, needed, i - 1);
    }
  }

  /** A needed function's name stands at its rank. */
  lemma {:induction false} NameAt(list: seq<FunctionDefinition>, needed: seq<bool>, i: nat, k: nat)
    requires k < i <= |list| == |needed| && needed[k] && Rank(needed, i) <= SHORT_LIMIT
    ensures Rank(needed, k) < |Names(list, needed, i)|
    ensures Names(list, needed, i)[Rank(needed, k)] == list[k].callFunctionName
  {
    AllWritten(list, needed, i);
    AllWritten(list, needed, i - 1);
    if k < i - 1 {
      NameAt(list, needed, i - 1, k);
    }
  }

  /** The needed function of a rank. */
  lemma {:induction false} OfRank(needed: seq<bool>, i: nat, j: nat) returns (k: nat)
    requires i <= |needed| && j < Rank(needed, i)
    ensures k < i && needed[k] && Rank(needed, k) == j
  {
    if j < Rank(needed, i - 1) {
      k := OfRank(needed, i - 1, j);
    } else {
      k := i - 1;
    }
  }

  lemma {:induction false} RankRises(needed: seq<bool>, i: nat, k: nat)
    requires i <= k <= |needed|
    ensures Rank(needed, i) <= Rank(needed, k)
  {
    if i < k {
      RankRises(needed, i, k - 1);
    }
  }

  lemma {:induction false} OnlyOne(list: seq<FunctionDefinition>, name: string, i: nat, p: nat)
    requires i <= p < |list| && list[p].callFunctionName == name
    requires forall j :: 0 <= j < p ==> list[j].callFunctionName != name
    ensures First(list, name, i, |list|) == p
    decreases p - i
  {
    if i < p {
      OnlyOne(list, name, i + 1, p);
    }
  }

  /** The place of the `k`-th name written: the needed function of that rank. */
  lemma WrittenAt(first: FunctionDefinition?, list: seq<FunctionDefinition>, needed: seq<bool>, k: nat) returns (p: nat)
    requires Listed(first, list) && |needed| == |list| && Rank(needed, |list|) <= SHORT_LIMIT
    requires k < |Names(list, needed, |list|)|
    ensures p < |list| && needed[p] && Rank(needed, p) == k
    ensures Names(list, needed, |list|)[k] == list[p].callFunctionName && '\0' !in list[p].callFunctionName
    ensures forall j :: 0 <= j < p ==> list[j].callFunctionName != list[p].callFunctionName
  {
    hide Names, Rank, First, At;
    AllWritten(list, needed, |list|);
    p := OfRank(needed, |list|, k);
    NameAt(list, needed, |list|, p);
  }

  /** The next name written is found behind the one before, without going around. */
  lemma NextFound(first: FunctionDefinition?, list: seq<FunctionDefinition>, needed: seq<bool>, k: nat, last: int)
    returns (p: nat)
    requires Listed(first, list) && |needed| == |list| && Rank(needed, |list|) <= SHORT_LIMIT
    requires k < |Names(list, needed, |list|)|
    requires -1 <= last < |list| && (last >= 0 ==> needed[last] && Rank(needed, last) + 1 == k)
    ensures p < |list| && needed[p] && Rank(needed, p) == k
    ensures last < p && Searched(list, Names(list, needed, |list|)[k], last) == Found(p)
  {
    hide Names, Rank, First, Listed;
    p := WrittenAt(first, list, needed, k);
    if last >= 0 && p <= last { RankRises(needed, p, last); }
    OnlyOne(list, list[p].callFunctionName, last + 1, p);
  }

  /** The places of the functions of the first `k` ranks. */
  ghost predicate InRanks(needed: seq<bool>, places: seq<int>) {
    forall j :: 0 <= j < |places| ==> 0 <= places[j] < |needed| && needed[places[j]] && Rank(needed, places[j]) == j
  }

  /** What was written can be read: every search goes on to the next needed function. */
  lemma {:induction false} WrittenReadable(first: FunctionDefinition?, list: seq<FunctionDefinition>, needed: seq<bool>,
                                           k: nat)
    requires Listed(first, list) && |needed| == |list| && Rank(needed, |list|) <= SHORT_LIMIT
    requires k <= |Names(list, needed, |list|)|
    ensures Load(list, Names(list, needed, |list|), k).Places?
    ensures InRanks(needed, Load(list, Names(list, needed, |list|), k).places)
  {
    hide Names, Rank, Searched, Load, Listed;
    var names := Names(list, needed, |list|);
    if k == 0 {
      NothingLoaded(list, names);
    } else {
      WrittenReadable(first, list, needed, k - 1);
      var before := Load(list, names, k - 1).places;
      LoadNext(list, names, k - 1);
      var p := NextFound(first, list, needed, k - 1, LastOf(before));
    }
  }

  lemma NamesWhole(first: FunctionDefinition?, list: seq<FunctionDefinition>, needed: seq<bool>)
    requires Listed(first, list) && |needed| == |list| && Rank(needed, |list|) <= SHORT_LIMIT
    ensures |Names(list, needed, |list|)| == Rank(needed, |list|)
    ensures forall k :: 0 <= k < |Names(list, needed, |list|)| ==> '\0' !in Names(list, needed, |list|)[k]
  {
    hide Names, Rank, Listed;
    AllWritten(list, needed, |list|);
    forall k | 0 <= k < |Names(list, needed, |list|)| ensures '\0' !in Names(list, needed, |list|)[k] {
      var p := WrittenAt(first, list, needed, k);
    }
  }

  /** Saving and loading with an unchanged function list: no error, and the array takes every needed function's
      index back to the function. */
  method SaveAndLoad(first: FunctionDefinition?, ghost list: seq<FunctionDefinition>, ghost needed: seq<bool>)
    returns (newFunctionArray: array?<FunctionDefinition?>, error: bool, fault: bool)
    requires Listed(first, list) && |needed| == |list| && Rank(needed, |list|) <= SHORT_LIMIT
    requires forall i :: 0 <= i < |list| ==> (needed[i] <==> list[i].bsaveIndex != 0)
    modifies list`bsaveIndex
    ensures !error && !fault && (newFunctionArray == null <==> forall k :: 0 <= k < |list| ==> !needed[k])
    ensures forall k :: 0 <= k < |list| && needed[k] ==>
      newFunctionArray != null && 0 <= list[k].bsaveIndex < newFunctionArray.Length
      && newFunctionArray[list[k].bsaveIndex] == list[k]
  {
    hide *;
    ghost var names := Names(list, needed, |list|);
    NamesWhole(first, list, needed);
    WrittenReadable(first, list, needed, |names|);
    ghost var places := Load(list, names, |names|).places;
    InRanksAre(needed, places);
    var image := WriteNeededFunctions(first, list, needed);
    ListedLinked(first, list);
    newFunctionArray, error, fault := ReadNeededFunctions(image, first, list, names);
    NoneNeeded(needed, |list|);
    if newFunctionArray != null {
      assert forall k :: 0 <= k < |names| ==> newFunctionArray[..][k] == At(list, places[k]);
      Loaded(list, needed, places, newFunctionArray[..]);
    }
  }

  lemma InRanksAre(needed: seq<bool>, places: seq<int>)
    requires InRanks(needed, places)
    ensures -1 !in places
  {
  }

  lemma {:induction false} NoneNeeded(needed: seq<bool>, i: nat)
    requires i <= |needed|
    ensures Rank(needed, i) == 0 <==> forall k :: 0 <= k < i ==> !needed[k]
  {
    if i > 0 {
      NoneNeeded(needed, i - 1);
    }
  }

  lemma Loaded(list: seq<FunctionDefinition>, needed: seq<bool>, places: seq<int>, functions: seq<FunctionDefinition?>)
    requires |needed| == |list| && Rank(needed, |list|) <= SHORT_LIMIT && Numbered(list, needed, |list|)
    requires |functions| == |places| == Rank(needed, |list|) && InRanks(needed, places)
    requires forall k :: 0 <= k < |functions| ==> functions[k] == At(list, places[k])
    ensures forall k :: 0 <= k < |list| && needed[k] ==>
      0 <= list[k].bsaveIndex < |functions| && functions[list[k].bsaveIndex] == list[k]
  {
    hide Rank;
    forall k | 0 <= k < |list| && needed[k]
      ensures 0 <= list[k].bsaveIndex < |functions| && functions[list[k].bsaveIndex] == list[k]
    {
      RankNext(needed, k);
      RankRises(needed, k + 1, |list|);
      SameRank(needed, places[Rank(needed, k)], k);
    }
  }

  lemma RankStrict(needed: seq<bool>, i: nat, k: nat)
    requires i < |needed| && k < |needed| && needed[i]
    ensures i < k ==> Rank(needed, i) < Rank(needed, k)
  {
    if i < k { RankRises(needed, i + 1, k); }
  }

  lemma SameRank(needed: seq<bool>, i: nat, k: nat)
    requires i < |needed| && k < |needed| && needed[i] && needed[k] && Rank(needed, i) == Rank(needed, k)
    ensures i == k
  {
    hide Rank;
    RankStrict(needed, i, k);
    RankStrict(needed, k, i);
  }
}
