/** The map from class ids to classes, kept in chunks. */
module ClassIds {
  import opened ClassGraph

  const CLASS_ID_MAP_CHUNK := 30

  /** The least multiple of the chunk size that is no less than `n`. */
  function Chunks(n: nat): nat { (n + CLASS_ID_MAP_CHUNK - 1) / CLASS_ID_MAP_CHUNK * CLASS_ID_MAP_CHUNK }

  /** Chunks have 30 entries. */
  lemma ChunksAre(n: nat)
    ensures n <= Chunks(n) < n + 30 && Chunks(n) % 30 == 0
  {
    assert n + 29 == (n + 29) / 30 * 30 + (n + 29) % 30;
  }

  lemma ChunksStep(n: nat)
    ensures n <= Chunks(n) < n + CLASS_ID_MAP_CHUNK && Chunks(n) % CLASS_ID_MAP_CHUNK == 0
    ensures n % CLASS_ID_MAP_CHUNK == 0 ==> Chunks(n) == n && Chunks(n + 1) == n + CLASS_ID_MAP_CHUNK
    ensures n % CLASS_ID_MAP_CHUNK != 0 ==> Chunks(n + 1) == Chunks(n)
  {
  }

  class ClassIdMap {
    var classIDMap: array<Defclass?>
    var maxClassID: nat
    var availClassID: nat

    /** The classes that have an id. */
    ghost var live: set<Defclass>

    constructor ()
      ensures Valid() && live == {}
    {
      classIDMap := new Defclass?[0];
      maxClassID, availClassID, live := 0, 0, {};
    }

    /** Ids and map agree, and only empty entries lie from `n` on. */
    ghost predicate EntriesUpTo(n: nat)
      reads this`classIDMap, this`availClassID, this`live, classIDMap, live`id
    {
      && n <= availClassID == classIDMap.Length
      && (forall c :: c in live ==> c.id < n && classIDMap[c.id] == c)
      && (forall i :: 0 <= i < n && classIDMap[i] != null ==> classIDMap[i] in live && classIDMap[i].id == i)
      && (forall i :: n <= i < availClassID ==> classIDMap[i] == null)
    }

    ghost predicate Entries()
      reads this`classIDMap, this`maxClassID, this`availClassID, this`live, classIDMap, live`id
    {
      EntriesUpTo(maxClassID)
    }

    /** Besides, the greatest id is in use, and the map has no more chunks than it takes. */
    ghost predicate Valid()
      reads this`classIDMap, this`maxClassID, this`availClassID, this`live, classIDMap, live`id
    {
      && Entries() && availClassID == Chunks(maxClassID)
      && (maxClassID > 0 ==> classIDMap[maxClassID - 1] != null)
    }

    /** A block of `newsz` entries that starts as the old one of `oldsz` entries does. */
    method GenRealloc(oldsz: nat, newsz: nat) returns (block: array<Defclass?>)
      requires classIDMap.Length == oldsz
      ensures fresh(block) && block.Length == newsz
      ensures forall i :: 0 <= i < newsz && i < oldsz ==> block[i] == classIDMap[i]
    {
      block := new Defclass?[newsz];
      var i := 0;
      while i < newsz && i < oldsz
        invariant 0 <= i <= newsz && i <= oldsz
        invariant forall j :: 0 <= j < i ==> block[j] == classIDMap[j]
      {
        block[i] := classIDMap[i];
        i := i + 1;
      }
    }

    /** Adds a chunk of empty entries when all are taken. */
    method GrowMap()
      requires maxClassID % CLASS_ID_MAP_CHUNK == 0 && availClassID == maxClassID == classIDMap.Length
      modifies this`classIDMap, this`availClassID
      ensures fresh(classIDMap) && availClassID == old(availClassID) + CLASS_ID_MAP_CHUNK == classIDMap.Length
      ensures forall i :: 0 <= i < maxClassID ==> classIDMap[i] == old(classIDMap[i])
      ensures forall i :: maxClassID <= i < availClassID ==> classIDMap[i] == null
    {
      classIDMap := GenRealloc(maxClassID, maxClassID + CLASS_ID_MAP_CHUNK);
      availClassID := availClassID + CLASS_ID_MAP_CHUNK;
      ghost var block := classIDMap;
      var i := maxClassID;
      while i < maxClassID + CLASS_ID_MAP_CHUNK
        invariant maxClassID <= i <= availClassID && classIDMap == block
        invariant availClassID == old(availClassID) + CLASS_ID_MAP_CHUNK == classIDMap.Length
        invariant forall j :: 0 <= j < maxClassID ==> classIDMap[j] == old(classIDMap[j])
        invariant forall j :: maxClassID <= j < i ==> classIDMap[j] == null
        modifies block
      {
        classIDMap[i] := null;
        i := i + 1;
      }
    }

    /** Gives the class the next id; no other class changes its id. */
    method AssignClassID(cls: Defclass)
      requires Valid() && cls !in live
      modifies this, classIDMap, cls`id
      ensures Valid() && live == old(live) + {cls} && cls.id == old(maxClassID) && maxClassID == old(maxClassID) + 1
      ensures fresh(classIDMap) || classIDMap == old(classIDMap)
    {
      ChunksStep(maxClassID);
      if maxClassID % CLASS_ID_MAP_CHUNK == 0 {
        GrowMap();
      }
      classIDMap[maxClassID] := cls;
      cls.id := maxClassID;
      maxClassID := maxClassID + 1;
      live := live + {cls};
    }

    /** Takes an id back; the map shrinks to the greatest id in use. */
    method DeassignClassID(id: nat)
      requires Valid() && id < maxClassID && classIDMap[id] != null
      modifies this, classIDMap
      ensures Valid() && live == old(live) - {old(classIDMap[id])} && maxClassID <= old(maxClassID)
      ensures fresh(classIDMap) || classIDMap == old(classIDMap)
    {
      ghost var top := maxClassID - 1;
      live := live - {classIDMap[id]};
      classIDMap[id] := null;
      var i := id + 1;
      while i < maxClassID
        invariant id + 1 <= i <= maxClassID
        invariant forall j :: id < j < i ==> classIDMap[j] == null
        invariant id < top ==> classIDMap[top] != null
      {
        if classIDMap[i] != null {
          return;
        }
        i := i + 1;
      }
      ShrinkMap(id);
    }

    lemma EntriesSize(n: nat)
      requires EntriesUpTo(n)
      ensures n <= availClassID == classIDMap.Length
    {
    }

    /** An empty entry at the end need not be counted. */
    lemma OneLess(n: nat)
      requires EntriesUpTo(n + 1) && classIDMap[n] == null
      ensures EntriesUpTo(n)
    {
    }

    /** Gives back what lies from `newChunk` on. */
    method Trim(oldChunk: nat, newChunk: nat)
      requires EntriesUpTo(maxClassID) && oldChunk == availClassID && maxClassID <= newChunk < oldChunk
      modifies this`classIDMap, this`availClassID
      ensures EntriesUpTo(maxClassID) && availClassID == newChunk && fresh(classIDMap)
      ensures maxClassID > 0 ==> classIDMap[maxClassID - 1] == old(classIDMap[maxClassID - 1])
    {
      classIDMap := GenRealloc(oldChunk, newChunk);
      availClassID := newChunk;
    }

    /** Lowers `maxClassID` past empty entries and gives back the chunks that are not needed any more. */
    method ShrinkMap(released: nat)
      requires Entries() && released == maxClassID - 1 && classIDMap[released] == null
      requires availClassID == Chunks(maxClassID)
      modifies this`maxClassID, this`classIDMap, this`availClassID
      ensures Valid() && maxClassID <= old(maxClassID)
      ensures fresh(classIDMap) || classIDMap == old(classIDMap)
    {
      hide Chunks, EntriesUpTo;
      EntriesSize(maxClassID);
      var id := released;
      var reallocReqd, oldChunk, newChunk := false, 0, 0;
      while classIDMap[id] == null
        invariant Entries() && 0 <= id < old(maxClassID) && maxClassID == id + 1
        invariant classIDMap == old(classIDMap) && availClassID == old(availClassID) && maxClassID <= old(maxClassID)
        invariant if reallocReqd then oldChunk == availClassID && newChunk == Chunks(maxClassID) < oldChunk
                  else availClassID == Chunks(maxClassID)
        decreases id
      {
        ChunksStep(id);
        OneLess(id);
        EntriesSize(id);
        maxClassID := id;
        if maxClassID % CLASS_ID_MAP_CHUNK == 0 {
          newChunk := maxClassID;
          if !reallocReqd {
            oldChunk := maxClassID + CLASS_ID_MAP_CHUNK;
            reallocReqd := true;
          }
        }
        if id == 0 {
          break;
        }
        id := id - 1;
      }
      ChunksStep(maxClassID);
      if reallocReqd {
        Trim(oldChunk, newChunk);
      }
    }
  }
}
