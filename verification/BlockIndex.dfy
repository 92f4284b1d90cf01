/** BlockIndex: the files of the block store with their id range and count. */
module BlockIndex {
  import opened Blocks
  import opened ChainModel

  datatype AddResult = Saved | FileAlreadyExists | BlockIsNotValid

  /** What a stored chain that starts at id 0 keeps: the ids are exactly 0..last and each file holds its own id. */
  class BlockIndex {
    var files: map<int, Block>
    var records: int
    var firstSavedId: int
    var lastSavedId: int

    constructor ()
      ensures files == map[] && records == 0 && firstSavedId == 0 && lastSavedId == 0
    {
      files, records, firstSavedId, lastSavedId := map[], 0, 0, 0;
    }

    ghost predicate Valid()
      reads this
    {
      && firstSavedId == 0 && lastSavedId >= 0 && records == lastSavedId + 1
      && (forall i :: i in files <==> 0 <= i <= lastSavedId)
      && (forall i :: i in files ==> !files[i].IsEmpty() && files[i].index == i)
    }

    /** The stored blocks by id. */
    ghost function Contents(): (s: seq<Block>)
      requires Valid()
      reads this
      ensures |s| == lastSavedId + 1
      ensures forall i :: 0 <= i < |s| ==> s[i] == GetBlockById(i)
    {
      var fs, n := files, lastSavedId + 1;
      seq(n, i requires 0 <= i < n => fs[i])
    }

    /** getBlockById: the default block when there is no file. */
    function GetBlockById(id: int): Block
      reads this
    {
      if id in files then files[id] else NO_BLOCK
    }

    /** add, without a record limit: an existing file is left alone. */
    method Add(id: int, block: Block) returns (r: AddResult)
      modifies this
      ensures r == if id in old(files) then FileAlreadyExists else Saved
      ensures r == FileAlreadyExists ==> unchanged(this)
      ensures r == Saved ==>
                && files == old(files)[id := block] && records == old(records) + 1
                && lastSavedId == (if id > old(lastSavedId) then id else old(lastSavedId))
                && firstSavedId == (if id < old(firstSavedId) || old(firstSavedId) == -1 then id else old(firstSavedId))
    {
      if id in files {
        return FileAlreadyExists;
      }
      files := files[id := block];
      records := records + 1;
      if id > lastSavedId {
        lastSavedId := id;
      }
      if id < firstSavedId || firstSavedId == -1 {
        firstSavedId := id;
      }
      return Saved;
    }

    /** Adding the block with the next id, or the first one to an empty store. */
    method Append(block: Block) returns (r: AddResult)
      requires !block.IsEmpty()
      requires if files == map[] then block.index == 0 && records == 0 && firstSavedId == 0 && lastSavedId == 0
               else Valid() && block.index == lastSavedId + 1
      modifies this
      ensures r == Saved && Valid()
      ensures Contents() == (if old(files) == map[] then [block] else old(Contents()) + [block])
    {
      r := Add(block.index, block);
    }

    method RemoveAll()
      modifies this
      ensures files == map[] && records == 0 && firstSavedId == 0 && lastSavedId == 0
    {
      files, records, firstSavedId, lastSavedId := map[], 0, 0, 0;
    }

    /**
     removeById: everything from id on is removed. An id beyond the next free
     one removes nothing but still becomes the successor of the last saved id.
     */
    method RemoveById(id: int)
      requires Valid()
      modifies this
      ensures 0 < id <= old(lastSavedId) + 1 ==> Valid() && Contents() == old(Contents())[..id]
      ensures id <= 0 ==> files == map[] && records == 0
      ensures id > old(lastSavedId) ==> files == old(files) && records == old(records)
      ensures lastSavedId == id - 1
    {
      if id < firstSavedId {
        RemoveAll();
      }
      ghost var was, end, count := files, lastSavedId, records;
      var currentIdToRemove := id;
      while currentIdToRemove <= lastSavedId
        invariant id <= currentIdToRemove && (currentIdToRemove <= end + 1 || currentIdToRemove == id)
        invariant firstSavedId == 0 && lastSavedId == end
        invariant files == map i | i in was && !(id <= i < currentIdToRemove) :: was[i]
        invariant records == if id < 0 || currentIdToRemove == id then count else count - (currentIdToRemove - id)
        decreases lastSavedId - currentIdToRemove
      {
        if currentIdToRemove in files {
          files := files - {currentIdToRemove};
          records := records - 1;
        }
        currentIdToRemove := currentIdToRemove + 1;
      }
      lastSavedId := id - 1;
    }

    /** removeDummyBlocks: the dummy suffix is removed, one block at a time. */
    method RemoveDummyBlocks()
      requires Valid() && Rooted(Contents())
      modifies this
      ensures Valid() && Contents() == old(Contents())[..RealLength(old(Contents()), |old(Contents())|)]
    {
      ghost var was, k := Contents(), RealLength(Contents(), |Contents()|);
      assert k > 0 by {
        assert was[0].kind == GenesisBlock;
      }
      var isNotDummyBlock := false;
      var lastId := lastSavedId;
      while !isNotDummyBlock
        invariant Valid() && lastId == lastSavedId && k <= lastId + 1 <= |was|
        invariant Contents() == was[..lastId + 1]
        invariant isNotDummyBlock ==> lastId + 1 == k
        decreases !isNotDummyBlock, lastId
      {
        var block := GetBlockById(lastId);
        assert block == was[lastId];
        if block.kind != DummyBlock {
          isNotDummyBlock := true;
        } else {
          RemoveById(lastId);
          lastId := lastId - 1;
        }
      }
    }

    /** getLastBlock: the non-empty block with the highest id in the range. */
    method GetLastBlock() returns (b: Block)
      ensures b.IsEmpty() ==> forall i :: firstSavedId <= i <= lastSavedId ==> GetBlockById(i).IsEmpty()
      ensures !b.IsEmpty() ==>
                exists i :: firstSavedId <= i <= lastSavedId && b == GetBlockById(i)
                            && forall j :: i < j <= lastSavedId ==> GetBlockById(j).IsEmpty()
      ensures Valid() ==> b == Last(Contents())
    {
      var id := lastSavedId;
      while id >= firstSavedId
        invariant id <= lastSavedId
        invariant forall j :: id < j <= lastSavedId ==> GetBlockById(j).IsEmpty()
        decreases id - firstSavedId
      {
        var block := GetBlockById(id);
        if !block.IsEmpty() {
          return block;
        }
        id := id - 1;
      }
      return NO_BLOCK;
    }

    /** getLastRealBlock, and getLastRealBlockById, which is the same loop. */
    method GetLastRealBlock() returns (b: Block)
      requires Valid()
      ensures var k := RealLength(Contents(), |Contents()|);
              b == if k == 0 then NO_BLOCK else Contents()[k - 1]
    {
      ghost var s := Contents();
      var id := lastSavedId;
      while id >= firstSavedId
        invariant -1 <= id <= lastSavedId
        invariant forall i :: id < i <= lastSavedId ==> s[i].kind == DummyBlock
      {
        var block := GetBlockById(id);
        assert block == s[id];
        if !block.IsEmpty() && block.kind != DummyBlock {
          return block;
        }
        id := id - 1;
      }
      return NO_BLOCK;
    }

    /** The walk of createGenesisBlock back to the nearest genesis block. */
    method FindGenesis() returns (i: int)
      requires Valid() && Rooted(Contents())
      ensures i == LastGenesis(Contents(), |Contents()|)
    {
      ghost var s := Contents();
      i := lastSavedId;
      while GetBlockById(i).kind != GenesisBlock && i >= firstSavedId
        invariant 0 <= i <= lastSavedId
        invariant forall j :: i < j <= lastSavedId ==> s[j].kind != GenesisBlock
        decreases i
      {
        assert GetBlockById(i) == s[i];
        i := i - 1;
      }
      assert GetBlockById(i) == s[i];
    }

    /** getBlockByPosition. */
    function GetBlockByPosition(position: int): Block
      reads this
    {
      var blockId := firstSavedId + position;
      if blockId <= lastSavedId then GetBlockById(blockId) else NO_BLOCK
    }

    /**
     The block-index scan of checkIntegrity: 0, or the id of the first block
     that does not carry its predecessor's hash.
     */
    method CheckIntegrity() returns (id: int)
      requires Valid()
      ensures id == FirstBreak(Contents(), 1)
      ensures id == 0 <==> forall i :: 0 < i < |Contents()| ==> Contents()[i].prevHash == Contents()[i - 1].hash
      ensures id != 0 ==>
                && 0 < id < |Contents()| && Contents()[id].prevHash != Contents()[id - 1].hash
                && forall i :: 0 < i < id ==> Contents()[i].prevHash == Contents()[i - 1].hash
    {
      var i := 1;
      while i < records
        invariant 1 <= i <= records
        invariant forall j :: 0 < j < i ==> Contents()[j].prevHash == Contents()[j - 1].hash
        invariant FirstBreak(Contents(), i) == FirstBreak(Contents(), 1)
      {
        var prev := GetBlockByPosition(i - 1);
        var cur := GetBlockByPosition(i);
        assert prev == Contents()[i - 1] && cur == Contents()[i];
        if cur.prevHash != prev.hash {
          return cur.index;
        }
        i := i + 1;
      }
      return 0;
    }
  }
}
