/** The slots that the instances of a class have: its own and those it inherits. */
module InstanceTemplates {

  /** A slot; `slotName` is the id of its entry in the table of slot names. */
  datatype SlotDescriptor = SlotDescriptor(owner: string, slotName: nat, noInherit: bool, shared: bool)

  datatype Source = DIRECT | INHERIT

  /** Whether a class hands the slot on: a no-inherit slot is for the class's own instances only. */
  predicate Offered(s: SlotDescriptor, src: Source) { !s.noInherit || src == DIRECT }

  predicate Named(list: seq<SlotDescriptor>, id: nat) {
    exists i :: 0 <= i < |list| && list[i].slotName == id
  }

  /** A class's slots pushed on the list, the last one first, unless the list has the name already. */
  function Merged(old_: seq<SlotDescriptor>, slots: seq<SlotDescriptor>, src: Source): seq<SlotDescriptor> {
    if slots == [] then old_
    else
      var rest := Merged(old_, slots[1..], src);
      if Offered(slots[0], src) && !Named(rest, slots[0].slotName) then [slots[0]] + rest else rest
  }

  /** The template of the first `n` classes of a precedence list; the first is the class itself. */
  function Template(classes: seq<seq<SlotDescriptor>>, n: nat): seq<SlotDescriptor>
    requires n <= |classes|
  {
    if n == 0 then []
    else Merged(Template(classes, n - 1), classes[n - 1], if n == 1 then DIRECT else INHERIT)
  }

  ghost predicate NamesDistinct(list: seq<SlotDescriptor>) {
    forall i, j :: 0 <= i < j < |list| ==> list[i].slotName != list[j].slotName
  }

  /** Some slot of the class with this name is offered. */
  ghost predicate Offers(slots: seq<SlotDescriptor>, src: Source, id: nat) {
    exists i :: 0 <= i < |slots| && slots[i].slotName == id && Offered(slots[i], src)
  }

  function SourceOf(k: nat): Source { if k == 0 then DIRECT else INHERIT }

  /** `m` adds to the list exactly the offered names that are new, and keeps the old list as its end. */
  ghost predicate IsMerge(old_: seq<SlotDescriptor>, slots: seq<SlotDescriptor>, src: Source, m: seq<SlotDescriptor>) {
    && NamesDistinct(m) && |old_| <= |m| && m[|m| - |old_|..] == old_
    && (forall j :: 0 <= j < |m| - |old_| ==> m[j] in slots && Offered(m[j], src) && !Named(old_, m[j].slotName))
    && (forall i :: 0 <= i < |slots| && Offered(slots[i], src) ==> Named(m, slots[i].slotName))
  }

  lemma NamedPush(s: SlotDescriptor, rest: seq<SlotDescriptor>, id: nat)
    ensures Named([s] + rest, id) <==> s.slotName == id || Named(rest, id)
  {
    assert ([s] + rest)[0] == s;
    if Named(rest, id) {
      var i :| 0 <= i < |rest| && rest[i].slotName == id;
      assert ([s] + rest)[i + 1] == rest[i];
    }
  }

  lemma NamedEnd(old_: seq<SlotDescriptor>, m: seq<SlotDescriptor>, id: nat)
    requires |old_| <= |m| && m[|m| - |old_|..] == old_ && Named(old_, id)
    ensures Named(m, id)
  {
    var i :| 0 <= i < |old_| && old_[i].slotName == id;
    assert m[|m| - |old_| + i] == old_[i];
  }

  lemma {:induction false} MergedIs(old_: seq<SlotDescriptor>, slots: seq<SlotDescriptor>, src: Source)
    requires NamesDistinct(old_)
    ensures IsMerge(old_, slots, src, Merged(old_, slots, src))
  {
    if slots == [] {
    } else {
      MergedIs(old_, slots[1..], src);
      var rest := Merged(old_, slots[1..], src);
      assert slots == [slots[0]] + slots[1..];
      if Offered(slots[0], src) && !Named(rest, slots[0].slotName) {
        MergePush(old_, slots, src, rest);
      } else {
        MergeSkip(old_, slots, src, rest);
      }
    }
  }

  lemma MergePush(old_: seq<SlotDescriptor>, slots: seq<SlotDescriptor>, src: Source, rest: seq<SlotDescriptor>)
    requires slots != [] && IsMerge(old_, slots[1..], src, rest)
    requires Offered(slots[0], src) && !Named(rest, slots[0].slotName)
    ensures IsMerge(old_, slots, src, [slots[0]] + rest)
  {
    var m := [slots[0]] + rest;
    assert m[|m| - |old_|..] == rest[|rest| - |old_|..];
    PushDistinct(slots[0], rest);
    if Named(old_, slots[0].slotName) { NamedEnd(old_, rest, slots[0].slotName); }
    hide Named, NamesDistinct;
    forall j | 0 <= j < |m| - |old_| ensures m[j] in slots && Offered(m[j], src) && !Named(old_, m[j].slotName) {
      if j > 0 {
        assert m[j] == rest[j - 1] && rest[j - 1] in slots[1..];
      }
    }
    forall i | 0 <= i < |slots| && Offered(slots[i], src) ensures Named(m, slots[i].slotName) {
      NamedPush(slots[0], rest, slots[i].slotName);
      if i > 0 {
        assert slots[i] == slots[1..][i - 1];
      }
    }
  }

  lemma PushDistinct(s: SlotDescriptor, rest: seq<SlotDescriptor>)
    requires NamesDistinct(rest) && !Named(rest, s.slotName)
    ensures NamesDistinct([s] + rest)
  {
    var m := [s] + rest;
    forall i, j | 0 <= i < j < |m| ensures m[i].slotName != m[j].slotName {
      if i == 0 { NamedAt(rest, j - 1); }
    }
  }

  lemma NamedAt(list: seq<SlotDescriptor>, i: nat)
    requires i < |list|
    ensures Named(list, list[i].slotName)
  {
  }

  lemma MergeSkip(old_: seq<SlotDescriptor>, slots: seq<SlotDescriptor>, src: Source, rest: seq<SlotDescriptor>)
    requires slots != [] && IsMerge(old_, slots[1..], src, rest)
    requires Offered(slots[0], src) ==> Named(rest, slots[0].slotName)
    ensures IsMerge(old_, slots, src, rest)
  {
    hide Named;
    assert forall i :: 0 < i < |slots| ==> slots[i] == slots[1..][i - 1];
    assert forall s :: s in slots[1..] ==> s in slots;
  }

  /** The slot comes from the first of the `n` classes that offers its name. */
  ghost predicate FromFirst(classes: seq<seq<SlotDescriptor>>, n: nat, s: SlotDescriptor)
    requires n <= |classes|
  {
    exists k :: 0 <= k < n && OfferedFirst(classes, k, s)
  }

  ghost predicate OfferedFirst(classes: seq<seq<SlotDescriptor>>, k: nat, s: SlotDescriptor)
    requires k < |classes|
  {
    && s in classes[k] && Offered(s, SourceOf(k))
    && forall j :: 0 <= j < k ==> !Offers(classes[j], SourceOf(j), s.slotName)
  }

  ghost predicate AllNamed(classes: seq<seq<SlotDescriptor>>, n: nat, m: seq<SlotDescriptor>)
    requires n <= |classes|
  {
    forall k, id :: 0 <= k < n && Offers(classes[k], SourceOf(k), id) ==> Named(m, id)
  }

  lemma {:induction false} TemplateOffers(classes: seq<seq<SlotDescriptor>>, n: nat)
    requires n <= |classes|
    ensures NamesDistinct(Template(classes, n)) && AllNamed(classes, n, Template(classes, n))
    ensures forall i :: 0 <= i < |Template(classes, n)| ==> FromFirst(classes, n, Template(classes, n)[i])
  {
    if n > 0 {
      TemplateOffers(classes, n - 1);
      var before, m := Template(classes, n - 1), Template(classes, n);
      MergedIs(before, classes[n - 1], SourceOf(n - 1));
      hide Template, Merged, AllNamed, OfferedFirst;
      forall i | 0 <= i < |m| ensures FromFirst(classes, n, m[i]) {
        if i < |m| - |before| {
          FirstNow(classes, n, before, m[i]);
        } else {
          assert m[i] == before[i - (|m| - |before|)];
          var k :| 0 <= k < n - 1 && OfferedFirst(classes, k, m[i]);
        }
      }
      StillNamed(classes, n, before, m);
    }
  }

  lemma FirstNow(classes: seq<seq<SlotDescriptor>>, n: nat, before: seq<SlotDescriptor>, s: SlotDescriptor)
    requires 0 < n <= |classes| && AllNamed(classes, n - 1, before) && !Named(before, s.slotName)
    requires s in classes[n - 1] && Offered(s, SourceOf(n - 1))
    ensures FromFirst(classes, n, s)
  {
    hide Named, Offers;
    assert OfferedFirst(classes, n - 1, s);
  }

  lemma StillNamed(classes: seq<seq<SlotDescriptor>>, n: nat, before: seq<SlotDescriptor>, m: seq<SlotDescriptor>)
    requires 0 < n <= |classes| && AllNamed(classes, n - 1, before)
    requires IsMerge(before, classes[n - 1], SourceOf(n - 1), m)
    ensures AllNamed(classes, n, m)
  {
    forall k, id | 0 <= k < n && Offers(classes[k], SourceOf(k), id) ensures Named(m, id) {
      if k < n - 1 {
        NamedEnd(before, m, id);
      }
    }
  }

  /** A slot of class `k` for the instances, and no class before has one of that name for them: the class itself gives
      all its slots, the others those that are not no-inherit. */
  ghost predicate TakenFrom(classes: seq<seq<SlotDescriptor>>, k: nat, s: SlotDescriptor)
    requires k < |classes|
  {
    && s in classes[k] && (k == 0 || !s.noInherit)
    && forall j, l :: 0 <= j < k && 0 <= l < |classes[j]| && classes[j][l].slotName == s.slotName ==>
         j > 0 && classes[j][l].noInherit
  }

  /** Taken from one of the first `n` classes. */
  ghost predicate Taken(classes: seq<seq<SlotDescriptor>>, n: nat, s: SlotDescriptor)
    requires n <= |classes|
  {
    exists k :: 0 <= k < n && TakenFrom(classes, k, s)
  }

  lemma TakenFirst(classes: seq<seq<SlotDescriptor>>, n: nat, s: SlotDescriptor)
    requires n <= |classes| && FromFirst(classes, n, s)
    ensures Taken(classes, n, s)
  {
    var k :| 0 <= k < n && OfferedFirst(classes, k, s);
    forall j, l | 0 <= j < k && 0 <= l < |classes[j]| && classes[j][l].slotName == s.slotName
      ensures j > 0 && classes[j][l].noInherit
    {
      assert !Offers(classes[j], SourceOf(j), s.slotName);
    }
    assert TakenFrom(classes, k, s);
  }

  /** The template in terms of the fields of the slots: its names are distinct; every entry is taken from the first
      class that has a slot of its name for the instances; and every slot of the class itself, and every slot of
      another class that is not no-inherit, has its name there. */
  lemma TemplateIs(classes: seq<seq<SlotDescriptor>>, n: nat)
    requires n <= |classes|
    ensures var t := Template(classes, n);
      && (forall i, j :: 0 <= i < j < |t| ==> t[i].slotName != t[j].slotName)
      && (forall i :: 0 <= i < |t| ==> Taken(classes, n, t[i]))
      && (forall k, l :: 0 <= k < n && 0 <= l < |classes[k]| && (k == 0 || !classes[k][l].noInherit) ==>
            exists i :: 0 <= i < |t| && t[i].slotName == classes[k][l].slotName)
  {
    TemplateOffers(classes, n);
    AllTaken(classes, n, Template(classes, n));
  }

  lemma AllTaken(classes: seq<seq<SlotDescriptor>>, n: nat, t: seq<SlotDescriptor>)
    requires n <= |classes| && AllNamed(classes, n, t)
    requires forall i :: 0 <= i < |t| ==> FromFirst(classes, n, t[i])
    ensures forall i :: 0 <= i < |t| ==> Taken(classes, n, t[i])
    ensures forall k, l :: 0 <= k < n && 0 <= l < |classes[k]| && (k == 0 || !classes[k][l].noInherit) ==>
      exists i :: 0 <= i < |t| && t[i].slotName == classes[k][l].slotName
  {
    hide FromFirst, Taken, Offers;
    forall i | 0 <= i < |t| ensures Taken(classes, n, t[i]) {
      TakenFirst(classes, n, t[i]);
    }
    forall k, l | 0 <= k < n && 0 <= l < |classes[k]| && (k == 0 || !classes[k][l].noInherit)
      ensures exists i :: 0 <= i < |t| && t[i].slotName == classes[k][l].slotName
    {
      OffersIs(classes[k], SourceOf(k), l);
      assert Named(t, classes[k][l].slotName);
    }
  }

  lemma OffersIs(slots: seq<SlotDescriptor>, src: Source, l: nat)
    requires l < |slots| && Offered(slots[l], src)
    ensures Offers(slots, src, slots[l].slotName)
  {
  }

  // ------------------------------------------------------------------------------------------
  // Forming the template
  // ------------------------------------------------------------------------------------------

  /** Whether the list has the slot's name. */
  method Find(list: seq<SlotDescriptor>, slotName: nat) returns (found: bool)
    ensures found <==> Named(list, slotName)
  {
    var cur := 0;
    while cur < |list| && slotName != list[cur].slotName
      invariant 0 <= cur <= |list| && forall i :: 0 <= i < cur ==> list[i].slotName != slotName
    {
      cur := cur + 1;
    }
    return cur < |list|;
  }

  /** Pushes the slots in reverse order, since they go on a stack. */
  method MergeSlots(old_: seq<SlotDescriptor>, slots: seq<SlotDescriptor>, src: Source)
    returns (list: seq<SlotDescriptor>, scnt: nat)
    ensures list == Merged(old_, slots, src) && scnt == |list| - |old_|
  {
    list, scnt := old_, 0;
    var i := |slots| - 1;
    while i >= 0
      invariant -1 <= i < |slots| && list == Merged(old_, slots[i + 1..], src) && scnt == |list| - |old_|
    {
      var newSlot := slots[i];
      assert slots[i..][0] == newSlot && slots[i..][1..] == slots[i + 1..];
      if !newSlot.noInherit || src == DIRECT {
        var found := Find(list, newSlot.slotName);
        if !found {
          list := [newSlot] + list;
          scnt := scnt + 1;
        }
      }
      i := i - 1;
    }
  }

  function Locals(list: seq<SlotDescriptor>): nat {
    if list == [] then 0 else Locals(list[..|list| - 1]) + if list[|list| - 1].shared then 0 else 1
  }

  /** That is how many of the list's places hold a slot that is not shared. */
  lemma {:induction false} LocalsCount(list: seq<SlotDescriptor>)
    ensures Locals(list) == |set i | 0 <= i < |list| && !list[i].shared|
  {
    var all := set i | 0 <= i < |list| && !list[i].shared;
    if list == [] {
      assert all == {};
    } else {
      var n := |list| - 1;
      LocalsCount(list[..n]);
      var front := set i | 0 <= i < n && !list[..n][i].shared;
      assert all == if list[n].shared then front else front + {n};
    }
  }

  /** The map takes the id of entry `k`, of the first `n`, to `k` + 1 and every other id to 0. */
  ghost predicate Maps(m: seq<nat>, t: seq<SlotDescriptor>, n: nat)
    requires n <= |t|
  {
    && (forall k :: 0 <= k < n ==> t[k].slotName < |m| && m[t[k].slotName] == k + 1)
    && (forall id :: 0 <= id < |m| && m[id] != 0 ==> m[id] <= n && t[m[id] - 1].slotName == id)
  }

  lemma MapsNext(m: seq<nat>, t: seq<SlotDescriptor>, n: nat)
    requires n < |t| && Maps(m, t, n) && NamesDistinct(t) && t[n].slotName < |m|
    ensures Maps(m[t[n].slotName := n + 1], t, n + 1)
  {
  }

  class Defclass {
    /** The slots of the class and of the classes it inherits from, in order of precedence. */
    const slots: seq<seq<SlotDescriptor>>

    var instanceTemplate: array<SlotDescriptor>
    var instanceSlotCount: nat
    var localInstanceSlotCount: nat
    var slotNameMap: array<nat>
    var maxSlotNameID: nat

    constructor (precedence: seq<seq<SlotDescriptor>>)
      ensures slots == precedence && fresh(instanceTemplate) && fresh(slotNameMap)
    {
      slots := precedence;
      instanceTemplate := new SlotDescriptor[0];
      slotNameMap := new nat[0];
      instanceSlotCount, localInstanceSlotCount, maxSlotNameID := 0, 0, 0;
    }

    /** The slots of the instances, as an array. */
    method FormInstanceTemplate()
      requires |slots| > 0
      modifies this
      ensures fresh(instanceTemplate) && instanceTemplate[..] == Template(slots, |slots|)
      ensures instanceSlotCount == instanceTemplate.Length
      ensures localInstanceSlotCount == |set i | 0 <= i < instanceTemplate.Length && !instanceTemplate[i].shared|
    {
      var islots, scnt := MergeSlots([], slots[0], DIRECT);
      var i := 1;
      while i < |slots|
        invariant 1 <= i <= |slots| && islots == Template(slots, i) && scnt == |islots|
      {
        var more;
        islots, more := MergeSlots(islots, slots[i], INHERIT);
        scnt := scnt + more;
        i := i + 1;
      }
      FillTemplate(islots);
      LocalsCount(islots);
      assert instanceTemplate[..] == islots;
      assert (set k | 0 <= k < instanceTemplate.Length && !instanceTemplate[k].shared)
          == (set k | 0 <= k < |islots| && !islots[k].shared);
    }

    method FillTemplate(islots: seq<SlotDescriptor>)
      modifies this
      ensures fresh(instanceTemplate) && instanceTemplate[..] == islots
      ensures instanceSlotCount == |islots| && localInstanceSlotCount == Locals(islots)
    {
      instanceSlotCount := |islots|;
      localInstanceSlotCount := 0;
      var blank := SlotDescriptor("", 0, false, false);
      var t := new SlotDescriptor[instanceSlotCount](_ => blank);
      instanceTemplate := t;
      var i := 0;
      while i < instanceSlotCount
        invariant 0 <= i <= instanceSlotCount == |islots| && instanceTemplate == t
        invariant t[..i] == islots[..i] && localInstanceSlotCount == Locals(islots[..i])
      {
        t[i] := islots[i];
        if !islots[i].shared {
          localInstanceSlotCount := localInstanceSlotCount + 1;
        }
        assert islots[..i + 1][..i] == islots[..i] && t[..i + 1] == t[..i] + [t[i]];
        i := i + 1;
      }
      assert t[..] == t[..i] && islots == islots[..i];
    }

    method GreatestID()
      requires instanceSlotCount == instanceTemplate.Length && maxSlotNameID == 0
      modifies this`maxSlotNameID
      ensures forall k :: 0 <= k < instanceTemplate.Length ==> instanceTemplate[k].slotName <= maxSlotNameID
      ensures maxSlotNameID == 0 || exists k ::
        0 <= k < instanceTemplate.Length && instanceTemplate[k].slotName == maxSlotNameID
    {
      var i := 0;
      while i < instanceSlotCount
        invariant 0 <= i <= instanceSlotCount
        invariant forall k :: 0 <= k < i ==> instanceTemplate[k].slotName <= maxSlotNameID
        invariant maxSlotNameID == 0 || exists k :: 0 <= k < i && instanceTemplate[k].slotName == maxSlotNameID
      {
        if instanceTemplate[i].slotName > maxSlotNameID {
          maxSlotNameID := instanceTemplate[i].slotName;
        }
        i := i + 1;
      }
    }

    method FormSlotNameMap()
      requires instanceSlotCount == instanceTemplate.Length && NamesDistinct(instanceTemplate[..])
      modifies this`maxSlotNameID, this`slotNameMap
      ensures Maps(slotNameMap[..], instanceTemplate[..], instanceTemplate.Length) && fresh(slotNameMap)
      ensures slotNameMap.Length == if instanceSlotCount == 0 then 0 else maxSlotNameID + 1
    {
      hide Maps, NamesDistinct;
      ghost var t := instanceTemplate[..];
      maxSlotNameID := 0;
      slotNameMap := new nat[0];
      NothingMapped(slotNameMap[..], t);
      if instanceSlotCount == 0 {
        return;
      }
      GreatestID();
      var m := new nat[maxSlotNameID + 1](_ => 0);
      slotNameMap := m;
      NothingMapped(m[..], t);
      var i := 0;
      while i < instanceSlotCount
        invariant 0 <= i <= instanceSlotCount && slotNameMap == m && t == instanceTemplate[..]
        invariant Maps(m[..], t, i)
        modifies m
      {
        MapsNext(m[..], t, i);
        m[instanceTemplate[i].slotName] := i + 1;
        i := i + 1;
      }
    }
  }

  lemma NothingMapped(m: seq<nat>, t: seq<SlotDescriptor>)
    requires forall id :: 0 <= id < |m| ==> m[id] == 0
    ensures Maps(m, t, 0)
  {
  }
}
