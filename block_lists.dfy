/** The block lists of the firmware converter: a list of (address, payload)
    entries built from a container's data blocks, then rehashed in place so
    that no entry exceeds the transaction size limit. */
module BlockLists {
  import opened Wrappers
  import opened AddressResolver
  import opened BlockLayout

  /** A block list. Firmware and calibration lists differ only in how their
      constructors fill `blocks`; both rehash the same way. */
  class BlockList {
    const sizeLimit: int
    const resolver: Resolver
    var blocks: seq<Block>

    constructor (sizeLimit: int, resolver: Resolver)
      ensures this.sizeLimit == sizeLimit && this.resolver == resolver && blocks == []
    {
      this.sizeLimit := sizeLimit;
      this.resolver := resolver;
      blocks := [];
    }

    /** The firmware list's constructor: one entry per data block, in order;
        a non-absolute block is resolved at its raw start offset. */
    static method ForFirmware(dataBlocks: seq<DataBlock>, sizeLimit: int, resolver: Resolver, regionOf: RegionOf)
      returns (r: Result<BlockList, Fault>)
      ensures r.Err? ==> FirmwareLayout(dataBlocks, regionOf, resolver) == Err(r.error)
      ensures r.Ok? ==> fresh(r.value) && r.value.sizeLimit == sizeLimit && r.value.resolver == resolver
      ensures r.Ok? ==> FirmwareLayout(dataBlocks, regionOf, resolver) == Ok(r.value.blocks)
    {
      var list := new BlockList(sizeLimit, resolver);
      var i := 0;
      while i < |dataBlocks|
        invariant 0 <= i <= |dataBlocks|
        invariant fresh(list) && list.sizeLimit == sizeLimit && list.resolver == resolver
        invariant FirmwareLayout(dataBlocks[..i], regionOf, resolver) == Ok(list.blocks)
      {
        var block := dataBlocks[i];
        var region := regionOf(block.typeCode);
        var address: Option<int>;
        if region != Absolute {
          var resolved := Resolve(resolver, region, block.memoryType, block.startOffset);
          if resolved.Err? {
            FirmwareLayoutStops(dataBlocks, i, regionOf, resolver);
            return Err(resolved.error);
          }
          address := resolved.value;
        } else {
          address := Some(block.startOffset);
        }
        assert FirmwareBlock(block, regionOf, resolver) == Ok(Block(address, block.data));
        assert dataBlocks[..i + 1][..i] == dataBlocks[..i];
        list.blocks := list.blocks + [Block(address, block.data)];
        i := i + 1;
      }
      assert dataBlocks[..i] == dataBlocks;
      r := Ok(list);
    }

    /** The calibration list's constructor: one entry per data block, in
        order; a non-absolute block resolves its algorithm's adjusted base
        and adds its own start offset. */
    static method ForCalibration(dataBlocks: seq<DataBlock>, sizeLimit: int, resolver: Resolver,
                                 regionOf: RegionOf, adjust: AdjustOffset)
      returns (r: Result<BlockList, Fault>)
      ensures r.Err? ==> CalibrationLayout(dataBlocks, regionOf, adjust, resolver) == Err(r.error)
      ensures r.Ok? ==> fresh(r.value) && r.value.sizeLimit == sizeLimit && r.value.resolver == resolver
      ensures r.Ok? ==> CalibrationLayout(dataBlocks, regionOf, adjust, resolver) == Ok(r.value.blocks)
    {
      var list := new BlockList(sizeLimit, resolver);
      var i := 0;
      while i < |dataBlocks|
        invariant 0 <= i <= |dataBlocks|
        invariant fresh(list) && list.sizeLimit == sizeLimit && list.resolver == resolver
        invariant CalibrationLayout(dataBlocks[..i], regionOf, adjust, resolver) == Ok(list.blocks)
      {
        var block := dataBlocks[i];
        var region := regionOf(block.typeCode);
        var address: int;
        if region != Absolute {
          var base := adjust(block.algorithmId, region, 0);
          if base.None? {
            CalibrationLayoutStops(dataBlocks, i, regionOf, adjust, resolver);
            return Err(UnknownAlgorithm);
          }
          var resolved := Resolve(resolver, region, block.memoryType, base.value);
          if resolved.Err? {
            CalibrationLayoutStops(dataBlocks, i, regionOf, adjust, resolver);
            return Err(resolved.error);
          }
          if resolved.value.None? {
            // `None + start_offset` raises
            CalibrationLayoutStops(dataBlocks, i, regionOf, adjust, resolver);
            return Err(NoneAddress);
          }
          address := resolved.value.value + block.startOffset;
        } else {
          address := block.startOffset;
        }
        assert CalibrationBlock(block, regionOf, adjust, resolver) == Ok(Block(Some(address), block.data));
        assert dataBlocks[..i + 1][..i] == dataBlocks[..i];
        list.blocks := list.blocks + [Block(Some(address), block.data)];
        i := i + 1;
      }
      assert dataBlocks[..i] == dataBlocks;
      r := Ok(list);
    }

    /** The split branch of `rehash_blocks` for one entry: collects the
        payload byte by byte and emits a chunk whenever the pending one holds
        `sizeLimit` bytes, then emits what is left. Emitting from an entry
        with no address raises (`None + len(temp_block)`). */
    static method SplitEntry(address: Option<int>, payload: seq<Byte>, sizeLimit: int)
      returns (ok: bool, chunks: seq<Block>)
      requires |payload| >= sizeLimit
      ensures ok == RehashBlock(Block(address, payload), sizeLimit).Ok?
      ensures ok ==> chunks == RehashBlock(Block(address, payload), sizeLimit).value
    {
      ghost var n := ChunkSize(sizeLimit);
      ghost var a := if address.Some? then address.value else 0;
      chunks := [];
      var tempBlock: seq<Byte> := [];
      var tempStart := address;
      var i := 0;
      ghost var j := 0;
      SplitStart(a, payload, n);
      while i < |payload|
        invariant j <= i <= |payload| && i - j < n
        invariant tempBlock == payload[j..i]
        invariant address.None? ==> j == 0 && tempStart.None?
        invariant address.Some? ==> tempStart == Some(a + j)
        invariant SplitSoFar(chunks, a, payload, n, j)
      {
        tempBlock := tempBlock + [payload[i]];
        i := i + 1;
        if |tempBlock| >= sizeLimit {
          if tempStart.None? {
            return false, [];
          }
          SplitEmit(chunks, a, payload, n, j, i, Block(tempStart, tempBlock));
          chunks := chunks + [Block(tempStart, tempBlock)];
          tempStart := Some(tempStart.value + |tempBlock|);
          tempBlock := [];
          j := i;
        }
      }
      assert address.None? ==> payload == [];
      assert tempBlock == payload[j..];
      SplitFinish(chunks, a, payload, n, j);
      RehashBlockSplits(Block(address, payload), sizeLimit);
      if |tempBlock| > 0 {
        chunks := chunks + [Block(tempStart, tempBlock)];
      }
      ok := true;
    }

    /** `rehash_blocks`: every entry shorter than the size limit is kept;
        every other one is replaced by its chunks. An entry with no address
        that needs splitting raises, and the list is then left as it was. */
    method Rehash() returns (ok: bool)
      modifies this
      ensures ok == RehashAll(old(blocks), sizeLimit).Ok?
      ensures blocks == if ok then RehashAll(old(blocks), sizeLimit).value else old(blocks)
    {
      var newBlocks: seq<Block> := [];
      var k := 0;
      while k < |blocks|
        invariant 0 <= k <= |blocks|
        invariant blocks == old(blocks)
        invariant RehashAll(blocks[..k], sizeLimit) == Ok(newBlocks)
      {
        var block := blocks[k];
        if |block.payload| < sizeLimit {
          newBlocks := newBlocks + [Block(block.address, block.payload)];
        } else {
          var split, chunks := SplitEntry(block.address, block.payload, sizeLimit);
          if !split {
            assert |blocks[k].payload| >= sizeLimit && blocks[k].payload != [] && blocks[k].address.None?;
            RehashFails(blocks, sizeLimit);
            return false;
          }
          newBlocks := newBlocks + chunks;
        }
        RehashSnoc(blocks[..k], block, sizeLimit);
        assert blocks[..k + 1] == blocks[..k] + [block];
        k := k + 1;
      }
      assert blocks[..k] == blocks;
      blocks := newBlocks;
      ok := true;
    }
  }
}
