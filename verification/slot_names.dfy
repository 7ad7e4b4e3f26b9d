/** The hash table of slot names: use counts, and ids as small as possible. */
module SlotNames {

  const SLOT_NAME_TABLE_HASH_SIZE := 167
  const BIG_PRIME := 11329

  /** A symbol with its place in the symbol table. */
  datatype Symbol = Symbol(text: string, bucket: nat)

  function HashSlotName(sname: Symbol): (h: nat)
    ensures h < SLOT_NAME_TABLE_HASH_SIZE
  {
    (sname.bucket * BIG_PRIME) % SLOT_NAME_TABLE_HASH_SIZE
  }

  class SlotName {
    const name: Symbol
    const id: int
    const hashTableIndex: nat
    var use: int
    var nxt: SlotName?

    constructor (n: Symbol, i: int, h: nat)
      ensures name == n && id == i && hashTableIndex == h && use == 1
    {
      name, id, hashTableIndex, use, nxt := n, i, h, 1, null;
    }
  }

  datatype Use = Added(name: Symbol) | Deleted(name: Symbol)

  /** How many more times a name was added than deleted. */
  ghost function Balance(history: seq<Use>, n: Symbol): int {
    if history == [] then 0
    else
      var last := history[|history| - 1];
      Balance(history[..|history| - 1], n) + (if last == Added(n) then 1 else if last == Deleted(n) then -1 else 0)
  }

  lemma BalanceNext(history: seq<Use>, u: Use, n: Symbol)
    ensures Balance(history + [u], n)
         == Balance(history, n) + (if u == Added(n) then 1 else if u == Deleted(n) then -1 else 0)
  {
    assert (history + [u])[..|history|] == history;
  }

  ghost function At(chain: seq<SlotName>, i: int): SlotName? {
    if 0 <= i < |chain| then chain[i] else null
  }

  /** A chain of the table: distinct entries, each pointing to the next. */
  ghost predicate Linked(head: SlotName?, chain: seq<SlotName>)
    reads chain`nxt
  {
    && head == At(chain, 0)
    && (forall i, j :: 0 <= i < j < |chain| ==> chain[i] != chain[j])
    && (forall k :: 0 <= k < |chain| ==> chain[k].nxt == At(chain, k + 1))
  }

  /** The chains hold the entries by their hash values. */
  ghost predicate Placed(chains: seq<seq<SlotName>>, entries: set<SlotName>) {
    && (forall b, k :: 0 <= b < |chains| && 0 <= k < |chains[b]| ==>
      chains[b][k] in entries && chains[b][k].hashTableIndex == b)
    && (forall e :: e in entries ==> e.hashTableIndex < |chains| && e in chains[e.hashTableIndex])
  }

  lemma PlacedWith(chains: seq<seq<SlotName>>, entries: set<SlotName>, snp: SlotName)
    requires Placed(chains, entries) && snp.hashTableIndex < |chains|
    ensures Placed(chains[snp.hashTableIndex := [snp] + chains[snp.hashTableIndex]], entries + {snp})
  {
    var h := snp.hashTableIndex;
    var c := chains[h := [snp] + chains[h]];
    assert c[h][0] == snp;
    forall e | e in entries && e.hashTableIndex == h ensures e in c[h] {
      var k :| 0 <= k < |chains[h]| && chains[h][k] == e;
      assert c[h][k + 1] == e;
    }
  }

  lemma KeyedWith(entries: set<SlotName>, snp: SlotName)
    requires Keyed(entries) && snp.hashTableIndex == HashSlotName(snp.name)
    requires forall e :: e in entries ==> e.name != snp.name
    ensures Keyed(entries + {snp})
  {
  }

  /** Names tell entries apart. */
  ghost predicate Keyed(entries: set<SlotName>) {
    && (forall e :: e in entries ==> e.hashTableIndex == HashSlotName(e.name))
    && (forall d, e :: d in entries && e in entries && d != e ==> d.name != e.name)
  }

  /** And so do ids. */
  ghost predicate IdsApart(entries: set<SlotName>) {
    forall d, e :: d in entries && e in entries && d != e ==> d.id != e.id
  }

  /** A new entry keeps the ids apart if and only if its id is new. */
  lemma IdsApartWith(entries: set<SlotName>, snp: SlotName)
    requires snp !in entries
    ensures IdsApart(entries + {snp}) <==> IdsApart(entries) && !Taken(entries, snp.id)
  {
    var more := entries + {snp};
    if IdsApart(more) {
      assert snp in more && forall e :: e in entries ==> e in more;
    }
  }

  /** There is an entry for a name exactly while it was added more often than deleted, and its use count says how
      much more often. */
  ghost predicate Counted(entries: set<SlotName>, history: seq<Use>)
    reads entries`use
  {
    && (forall e :: e in entries ==> e.use == Balance(history, e.name) && e.use > 0)
    && (forall n :: Balance(history, n) != 0 ==> exists e :: e in entries && e.name == n)
  }

  /** Some entry has the id. */
  ghost predicate Taken(entries: set<SlotName>, id: int) {
    exists e :: e in entries && e.id == id
  }

  ghost predicate HasId(chain: seq<SlotName>, id: int) {
    exists k :: 0 <= k < |chain| && chain[k].id == id
  }

  class SlotNameTable {
    var table: array<SlotName?>

    ghost var chains: seq<seq<SlotName>>
    ghost var entries: set<SlotName>
    ghost var history: seq<Use>

    constructor ()
      ensures Valid() && IdsApart(entries) && entries == {} && history == []
    {
      table := new SlotName?[SLOT_NAME_TABLE_HASH_SIZE](_ => null);
      chains := seq(SLOT_NAME_TABLE_HASH_SIZE, _ => []);
      entries, history := {}, [];
    }

    ghost predicate Shape()
      reads this, table, entries`nxt
    {
      && table.Length == |chains| == SLOT_NAME_TABLE_HASH_SIZE && Placed(chains, entries)
      && (forall b :: 0 <= b < |chains| ==> Linked(table[b], chains[b]))
    }

    ghost predicate Valid()
      reads this, table, entries`nxt, entries`use
    {
      Shape() && Keyed(entries) && Counted(entries, history)
    }

    // ----------------------------------------------------------------------------------------
    // Searching
    // ----------------------------------------------------------------------------------------

    /** The entry of a name. */
    method FindName(slotName: Symbol) returns (snp: SlotName?)
      requires Valid()
      ensures snp != null ==> snp in entries && snp.name == slotName
      ensures snp == null ==> forall e :: e in entries ==> e.name != slotName
    {
      hide Keyed, Counted, HashSlotName;
      var b := HashSlotName(slotName);
      ghost var k := 0;
      snp := table[b];
      while snp != null && snp.name != slotName
        invariant 0 <= k <= |chains[b]| && snp == At(chains[b], k)
        invariant forall j :: 0 <= j < k ==> chains[b][j].name != slotName
        decreases |chains[b]| - k
      {
        snp := snp.nxt;
        k := k + 1;
      }
      if snp == null {
        NameHashes(slotName);
      }
    }

    lemma NameHashes(n: Symbol)
      requires Valid()
      requires forall j :: 0 <= j < |chains[HashSlotName(n)]| ==> chains[HashSlotName(n)][j].name != n
      ensures forall e :: e in entries ==> e.name != n
    {
    }

    method FindSlotNameID(slotName: Symbol) returns (id: int)
      requires Valid()
      ensures if exists e :: e in entries && e.name == slotName
              then exists e :: e in entries && e.name == slotName && id == e.id
              else id == -1
    {
      var snp := FindName(slotName);
      id := if snp != null then snp.id else -1;
    }

    // ----------------------------------------------------------------------------------------
    // New ids
    // ----------------------------------------------------------------------------------------

    method InChain(i: nat, id: int) returns (found: bool)
      requires Shape() && i < SLOT_NAME_TABLE_HASH_SIZE
      ensures found <==> HasId(chains[i], id)
    {
      ghost var k := 0;
      var snp := table[i];
      while snp != null && snp.id != id
        invariant 0 <= k <= |chains[i]| && snp == At(chains[i], k)
        invariant forall j :: 0 <= j < k ==> chains[i][j].id != id
        decreases |chains[i]| - k
      {
        snp := snp.nxt;
        k := k + 1;
      }
      return snp != null;
    }

    lemma TakenIff(id: int)
      requires Shape()
      ensures |chains| == SLOT_NAME_TABLE_HASH_SIZE
      ensures Taken(entries, id) <==> exists b :: 0 <= b < |chains| && HasId(chains[b], id)
    {
      if Taken(entries, id) {
        var e :| e in entries && e.id == id;
        var k :| 0 <= k < |chains[e.hashTableIndex]| && chains[e.hashTableIndex][k] == e;
        assert HasId(chains[e.hashTableIndex], id);
      }
    }

    /** Whether some entry has the id. */
    method IdTaken(id: int) returns (found: bool)
      requires Shape()
      ensures found <==> Taken(entries, id)
    {
      TakenIff(id);
      hide Taken, HasId;
      var i := 0;
      while i < SLOT_NAME_TABLE_HASH_SIZE
        invariant 0 <= i <= SLOT_NAME_TABLE_HASH_SIZE
        invariant forall b :: 0 <= b < i ==> !HasId(chains[b], id)
      {
        var here := InChain(i, id);
        if here {
          return true;
        }
        i := i + 1;
      }
      return false;
    }

    /** The least id from 0 on that no entry has. */
    method NewSlotNameID() returns (newid: int)
      requires Shape()
      ensures newid >= 0 && !Taken(entries, newid) && forall i :: 0 <= i < newid ==> Taken(entries, i)
    {
      ghost var top := IdBound(entries);
      newid := 0;
      var taken := IdTaken(newid);
      while taken
        invariant 0 <= newid <= top + 1 && (taken <==> Taken(entries, newid))
        invariant forall i :: 0 <= i < newid ==> Taken(entries, i)
        decreases top + 1 - newid
      {
        newid := newid + 1;
        taken := IdTaken(newid);
      }
    }

    // ----------------------------------------------------------------------------------------
    // Adding and deleting
    // ----------------------------------------------------------------------------------------

    /** One more use of an entry. */
    method CountUse(snp: SlotName)
      requires Valid() && snp in entries
      modifies this`history, snp`use
      ensures Valid() && history == old(history) + [Added(snp.name)]
    {
      hide Balance, Linked, HashSlotName, At;
      snp.use := snp.use + 1;
      history := history + [Added(snp.name)];
      CountedAfter(entries, old(history), Added(snp.name), snp.name);
    }

    /** A new entry at the head of its chain. */
    method InsertName(slotName: Symbol, id: int) returns (snp: SlotName)
      requires Valid() && forall e :: e in entries ==> e.name != slotName
      modifies this`chains, this`entries, this`history, table
      ensures Valid() && fresh(snp) && snp.name == slotName && snp.id == id
      ensures history == old(history) + [Added(slotName)] && entries == old(entries) + {snp}
      ensures IdsApart(entries) <==> IdsApart(old(entries)) && !Taken(old(entries), id)
    {
      hide *;
      ghost var before, was := chains, entries;
      Parts();
      BalanceOf(slotName);
      var h := HashSlotName(slotName);
      snp := new SlotName(slotName, id, h);
      snp.nxt := table[h];
      NewHead(snp, table[h], before[h]);
      PlacedWith(before, was, snp);
      KeyedWith(was, snp);
      IdsApartWith(was, snp);
      table[h] := snp;
      chains := before[h := [snp] + before[h]];
      entries := was + {snp};
      history := history + [Added(slotName)];
      CountedAfter(entries, old(history), Added(slotName), slotName);
      Whole();
    }

    /** In every reachable table a name has an entry, and then exactly one, while it was added more often than
        deleted. */
    lemma EntryWhileUsed(n: Symbol)
      requires Valid()
      ensures Balance(history, n) >= 0
      ensures (exists e :: e in entries && e.name == n) <==> Balance(history, n) > 0
      ensures forall d, e :: d in entries && e in entries && d.name == e.name ==> d == e
    {
      hide Balance, Shape, HashSlotName;
    }

    lemma Parts()
      requires Valid()
      ensures table.Length == |chains| == SLOT_NAME_TABLE_HASH_SIZE && Placed(chains, entries) && Keyed(entries)
      ensures forall b :: 0 <= b < |chains| ==> Linked(table[b], chains[b])
      ensures forall b, k :: 0 <= b < |chains| && 0 <= k < |chains[b]| ==> chains[b][k] in entries
      ensures forall e :: e in entries ==> e.use == Balance(history, e.name) && e.use > 0
      ensures forall n :: Balance(history, n) != 0 ==> exists e :: e in entries && e.name == n
    {
    }

    lemma BalanceOf(n: Symbol)
      requires Valid() && forall e :: e in entries ==> e.name != n
      ensures Balance(history, n) == 0 && HashSlotName(n) < SLOT_NAME_TABLE_HASH_SIZE
    {
    }

    lemma Whole()
      requires table.Length == |chains| == SLOT_NAME_TABLE_HASH_SIZE && Placed(chains, entries) && Keyed(entries)
      requires forall b :: 0 <= b < |chains| ==> Linked(table[b], chains[b])
      requires Counted(entries, history)
      ensures Valid()
    {
    }

    /** Adds a name, or counts one more use of it; fails when another id than its own is forced on a name. An id forced
        on a new name is not checked: the ids stay apart if and only if it is new. */
    method AddSlotName(slotName: Symbol, newid: int, usenewid: bool) returns (snp: SlotName?)
      requires Valid()
      modifies this`chains, this`entries, this`history, table, entries`use
      ensures Valid()
      ensures snp == null <==> usenewid && exists e :: e in old(entries) && e.name == slotName && e.id != newid
      ensures snp == null ==> history == old(history) && entries == old(entries)
      ensures snp != null ==> history == old(history) + [Added(slotName)] && snp in entries && snp.name == slotName
      ensures snp != null && snp in old(entries) ==> entries == old(entries)
      ensures snp != null && snp !in old(entries) ==> entries == old(entries) + {snp} && fresh(snp)
      ensures snp != null && snp !in old(entries) && usenewid ==> snp.id == newid
      ensures snp != null && snp !in old(entries) ==>
        (IdsApart(entries) <==> IdsApart(old(entries)) && (usenewid ==> !Taken(old(entries), newid)))
      ensures snp != null && snp !in old(entries) && !usenewid ==>
        snp.id >= 0 && !Taken(old(entries), snp.id) && forall i :: 0 <= i < snp.id ==> Taken(old(entries), i)
    {
      hide Counted, Balance, HashSlotName, Linked, At, Shape, Taken, IdsApart;
      snp := FindName(slotName);
      if snp != null {
        if usenewid && newid != snp.id {
          return null;
        }
        CountUse(snp);
      } else {
        var id := newid;
        if !usenewid {
          id := NewSlotNameID();
        }
        snp := InsertName(slotName, id);
      }
    }

    /** Where the entry stands in its chain, and the entry before it. */
    method FindInChain(slotName: SlotName) returns (prv: SlotName?, ghost k: nat)
      requires Valid() && slotName in entries
      ensures var chain := chains[slotName.hashTableIndex];
        k < |chain| && chain[k] == slotName && prv == At(chain, k - 1)
    {
      hide Keyed, Counted, HashSlotName;
      var snp := table[slotName.hashTableIndex];
      prv, k := null, 0;
      ghost var chain := chains[slotName.hashTableIndex];
      while snp != slotName
        invariant 0 <= k <= |chain| && snp == At(chain, k) && prv == At(chain, k - 1)
        invariant forall j :: 0 <= j < k ==> chain[j] != slotName
        decreases |chain| - k
      {
        prv := snp;
        snp := snp.nxt;
        k := k + 1;
      }
    }

    /** The entry leaves its chain. */
    method Unlink(snp: SlotName, prv: SlotName?, ghost k: nat)
      requires Shape() && snp in entries
      requires var chain := chains[snp.hashTableIndex]; k < |chain| && chain[k] == snp && prv == At(chain, k - 1)
      modifies this`chains, this`entries, table, entries`nxt
      ensures Shape() && entries == old(entries) - {snp}
    {
      hide *;
      ghost var before, was, h := chains, entries, snp.hashTableIndex;
      ShapeParts();
      BucketsApart(before, was);
      LinkedIs(table[h], before[h]);
      AtIs(before[h], k - 1);
      AtIs(before[h], k + 1);
      AtIs(before[h], 0);
      AtIs(before[h], 1);
      PlacedWithout(before, was, snp, k);
      if prv == null {
        table[snp.hashTableIndex] := snp.nxt;
      } else {
        prv.nxt := snp.nxt;
      }
      Relinked(table[h], before[h], k);
      chains := before[h := before[h][..k] + before[h][k + 1..]];
      entries := was - {snp};
      ShapeWhole();
    }

    lemma ShapeParts()
      requires Shape()
      ensures table.Length == |chains| == SLOT_NAME_TABLE_HASH_SIZE && Placed(chains, entries)
      ensures forall b :: 0 <= b < |chains| ==> Linked(table[b], chains[b])
      ensures forall b, k :: 0 <= b < |chains| && 0 <= k < |chains[b]| ==> chains[b][k] in entries
      ensures forall e :: e in entries ==> e.hashTableIndex < |chains|
    {
    }

    lemma ShapeWhole()
      requires table.Length == |chains| == SLOT_NAME_TABLE_HASH_SIZE && Placed(chains, entries)
      requires forall b :: 0 <= b < |chains| ==> Linked(table[b], chains[b])
      ensures Shape()
    {
    }

    /** One use less; the entry goes with its last use. */
    method DeleteSlotName(slotName: SlotName?)
      requires Valid() && (slotName != null ==> slotName in entries)
      modifies this`chains, this`entries, this`history, table, entries`use, entries`nxt
      ensures Valid()
      ensures slotName == null ==> history == old(history) && entries == old(entries)
      ensures slotName != null ==> history == old(history) + [Deleted(slotName.name)]
      ensures IdsApart(old(entries)) ==> IdsApart(entries)
      ensures slotName != null ==> entries == if old(slotName.use) == 1 then old(entries) - {slotName} else old(entries)
    {
      hide *;
      if slotName == null {
        return;
      }
      var prv;
      ghost var k;
      prv, k := FindInChain(slotName);
      Parts();
      ghost var was, h := entries, history;
      slotName.use := slotName.use - 1;
      history := history + [Deleted(slotName.name)];
      KeyedApart(was, slotName);
      if slotName.use != 0 {
        CountedAfter(was, h, Deleted(slotName.name), slotName.name);
        Whole();
        return;
      }
      ShapeWhole();
      Unlink(slotName, prv, k);
      ShapeParts();
      CountedAfter(entries, h, Deleted(slotName.name), slotName.name);
      KeyedWithout(was, slotName);
      IdsApartWithout(was, slotName);
      Whole();
    }
  }

  lemma KeyedApart(entries: set<SlotName>, snp: SlotName)
    requires Keyed(entries) && snp in entries
    ensures forall e :: e in entries && e != snp ==> e.name != snp.name
  {
  }

  lemma KeyedWithout(entries: set<SlotName>, snp: SlotName)
    requires Keyed(entries)
    ensures Keyed(entries - {snp})
  {
  }

  lemma IdsApartWithout(entries: set<SlotName>, snp: SlotName)
    ensures IdsApart(entries) ==> IdsApart(entries - {snp})
  {
  }

  lemma AtIs(chain: seq<SlotName>, i: int)
    ensures At(chain, i) == if 0 <= i < |chain| then chain[i] else null
  {
  }

  lemma LinkedIs(head: SlotName?, chain: seq<SlotName>)
    requires Linked(head, chain)
    ensures head == At(chain, 0)
    ensures forall i, j :: 0 <= i < j < |chain| ==> chain[i] != chain[j]
    ensures forall k :: 0 <= k < |chain| ==> chain[k].nxt == At(chain, k + 1)
  {
  }

  /** A chain is linked without position `k` once the entry before points past it. */
  lemma Relinked(head: SlotName?, chain: seq<SlotName>, k: nat)
    requires k < |chain| && forall i, j :: 0 <= i < j < |chain| ==> chain[i] != chain[j]
    requires head == At(chain, if k == 0 then 1 else 0)
    requires forall j :: 0 <= j < |chain| && j != k ==> chain[j].nxt == At(chain, if j == k - 1 then k + 1 else j + 1)
    ensures Linked(head, chain[..k] + chain[k + 1..])
  {
    var c := chain[..k] + chain[k + 1..];
    forall j | 0 <= j < |c| ensures c[j].nxt == At(c, j + 1) {
      assert c[j] == chain[if j < k then j else j + 1];
    }
  }

  lemma BucketsApart(chains: seq<seq<SlotName>>, entries: set<SlotName>)
    requires Placed(chains, entries)
    ensures forall b, k :: 0 <= b < |chains| && 0 <= k < |chains[b]| ==> chains[b][k].hashTableIndex == b
  {
  }

  lemma PlacedWithout(chains: seq<seq<SlotName>>, entries: set<SlotName>, snp: SlotName, k: nat)
    requires Placed(chains, entries) && snp in entries
    requires k < |chains[snp.hashTableIndex]| && chains[snp.hashTableIndex][k] == snp
    requires var chain := chains[snp.hashTableIndex];
      forall i, j :: 0 <= i < j < |chain| ==> chain[i] != chain[j]
    ensures var h := snp.hashTableIndex;
      Placed(chains[h := chains[h][..k] + chains[h][k + 1..]], entries - {snp})
  {
    var h := snp.hashTableIndex;
    var c := chains[h := chains[h][..k] + chains[h][k + 1..]];
    forall b, j | 0 <= b < |c| && 0 <= j < |c[b]| ensures c[b][j] in entries - {snp} && c[b][j].hashTableIndex == b {
      assert b == h ==> c[b][j] == chains[h][if j < k then j else j + 1];
    }
    forall e | e in entries - {snp} && e.hashTableIndex == h ensures e in c[h] {
      var j :| 0 <= j < |chains[h]| && chains[h][j] == e;
      assert c[h][if j < k then j else j - 1] == e;
    }
  }

  /** Adding or deleting `n` once changes what its entry must count, and nothing else. */
  lemma CountedAfter(entries: set<SlotName>, history: seq<Use>, u: Use, n: Symbol)
    requires u == Added(n) || u == Deleted(n)
    requires forall e :: e in entries && e.name != n ==> e.use == Balance(history, e.name) && e.use > 0
    requires forall m :: m != n && Balance(history, m) != 0 ==> exists e :: e in entries && e.name == m
    requires var b := Balance(history, n) + (if u == Added(n) then 1 else -1);
      && (forall e :: e in entries && e.name == n ==> e.use == b && b > 0)
      && (b != 0 ==> exists e :: e in entries && e.name == n)
    ensures Counted(entries, history + [u])
  {
    forall m
      ensures Balance(history + [u], m)
           == Balance(history, m) + (if u == Added(m) then 1 else if u == Deleted(m) then -1 else 0)
    {
      BalanceNext(history, u, m);
    }
    hide Balance;
  }

  lemma NewHead(snp: SlotName, head: SlotName?, chain: seq<SlotName>)
    requires Linked(head, chain) && snp !in chain && snp.nxt == head
    ensures Linked(snp, [snp] + chain)
  {
    var c := [snp] + chain;
    forall k | 0 <= k < |c| ensures c[k].nxt == At(c, k + 1) {
      if k > 0 { assert c[k] == chain[k - 1]; }
    }
  }

  lemma IdBound(entries: set<SlotName>) returns (top: nat)
    ensures forall e :: e in entries ==> e.id <= top
  {
    if entries == {} {
      top := 0;
    } else {
      var e :| e in entries;
      var rest := IdBound(entries - {e});
      top := if e.id > rest then e.id else rest;
      forall d | d in entries ensures d.id <= top {
        assert d == e || d in entries - {e};
      }
    }
  }
}
