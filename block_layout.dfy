/** The block-list arithmetic of the firmware converter as functions: the
    address each data block gets on the firmware and on the calibration
    path, and how rehashing cuts a block into transactions of at most
    `size_limit` bytes. The class in block_lists.dfy is proved against these. */
module BlockLayout {
  import opened Wrappers
  import opened AddressResolver

  /** One payload byte. */
  type Byte = x: int | 0 <= x < 256

  /** A data block as a container parser hands it over: the block type code
      (from which the memory region is derived), the data width, the start
      offset, the owning algorithm id (read on the calibration path only)
      and the payload. */
  datatype DataBlock = DataBlock(typeCode: int, memoryType: string, startOffset: int, algorithmId: int, data: seq<Byte>)

  /** An (address, payload) entry of a block list. The firmware path keeps
      the `None` that `resolve` returns for an unmapped region or width. */
  datatype Block = Block(address: Option<int>, payload: seq<Byte>)

  /** The parser library's region lookup, block type code to region name. */
  type RegionOf = int -> string

  /** The firmware id block's offset adjustment: (algorithm id, region,
      local offset) to a container offset, or None where it raises because
      the algorithm is not in its table. */
  type AdjustOffset = (int, string, int) -> Option<int>

  const Absolute := "abs"

  /** A firmware data block: an absolute block keeps its start offset;
      any other is resolved at its raw start offset, with no adjustment. */
  function FirmwareBlock(b: DataBlock, regionOf: RegionOf, res: Resolver): (r: Result<Block, Fault>)
    ensures r.Ok? ==> r.value.payload == b.data
    ensures regionOf(b.typeCode) == Absolute ==> r == Ok(Block(Some(b.startOffset), b.data))
    ensures regionOf(b.typeCode) != Absolute ==>
      var resolved := Resolve(res, regionOf(b.typeCode), b.memoryType, b.startOffset);
      (r.Err? <==> resolved.Err?) && (r.Ok? ==> r.value.address == resolved.value)
    ensures r.Ok? && r.value.address.Some? && regionOf(b.typeCode) != Absolute ==>
      r.value.address.value % 4 == 0
  {
    var region := regionOf(b.typeCode);
    if region != Absolute then
      match Resolve(res, region, b.memoryType, b.startOffset)
      case Err(e) => Err(e)
      case Ok(address) => Ok(Block(address, b.data))
    else
      Ok(Block(Some(b.startOffset), b.data))
  }

  /** A calibration data block: an absolute block keeps its start offset;
      any other resolves its algorithm's adjusted base (local offset 0) and
      then adds its own start offset, which is not re-aligned. */
  function CalibrationBlock(b: DataBlock, regionOf: RegionOf, adjust: AdjustOffset, res: Resolver): (r: Result<Block, Fault>)
    ensures r.Ok? ==> r.value.payload == b.data && r.value.address.Some?
    ensures regionOf(b.typeCode) == Absolute ==> r == Ok(Block(Some(b.startOffset), b.data))
    ensures regionOf(b.typeCode) != Absolute && adjust(b.algorithmId, regionOf(b.typeCode), 0).None? ==>
      r == Err(UnknownAlgorithm)
    ensures regionOf(b.typeCode) != Absolute && adjust(b.algorithmId, regionOf(b.typeCode), 0).Some? ==>
      var resolved := Resolve(res, regionOf(b.typeCode), b.memoryType, adjust(b.algorithmId, regionOf(b.typeCode), 0).value);
      (resolved == Ok(None) ==> r == Err(NoneAddress)) &&
      (resolved.Err? ==> r == Err(resolved.error)) &&
      (resolved.Ok? && resolved.value.Some? ==> r == Ok(Block(Some(resolved.value.value + b.startOffset), b.data)))
    ensures r.Ok? && regionOf(b.typeCode) != Absolute ==> (r.value.address.value - b.startOffset) % 4 == 0
  {
    var region := regionOf(b.typeCode);
    if region != Absolute then
      match adjust(b.algorithmId, region, 0)
      case None => Err(UnknownAlgorithm)
      case Some(base) =>
        match Resolve(res, region, b.memoryType, base)
        case Err(e) => Err(e)
        case Ok(None) => Err(NoneAddress)
        case Ok(Some(address)) => Ok(Block(Some(address + b.startOffset), b.data))
    else
      Ok(Block(Some(b.startOffset), b.data))
  }

  /** The blocks of a firmware block list before rehashing. */
  function FirmwareLayout(bs: seq<DataBlock>, regionOf: RegionOf, res: Resolver): (r: Result<seq<Block>, Fault>)
    ensures r.Ok? ==> |r.value| == |bs|
    ensures r.Ok? ==> forall i :: 0 <= i < |bs| ==> r.value[i].payload == bs[i].data
    ensures r.Err? ==> r.error == MemMapUnset || r.error.NoMultiplier?
  {
    MapAll(bs, b => FirmwareBlock(b, regionOf, res))
  }

  /** The blocks of a calibration block list before rehashing. */
  function CalibrationLayout(bs: seq<DataBlock>, regionOf: RegionOf, adjust: AdjustOffset, res: Resolver): (r: Result<seq<Block>, Fault>)
    ensures r.Ok? ==> |r.value| == |bs|
    ensures r.Ok? ==> forall i :: 0 <= i < |bs| ==> r.value[i].payload == bs[i].data && r.value[i].address.Some?
  {
    MapAll(bs, b => CalibrationBlock(b, regionOf, adjust, res))
  }

  /** A firmware list stops at the first block that cannot be resolved. */
  lemma FirmwareLayoutStops(bs: seq<DataBlock>, i: nat, regionOf: RegionOf, res: Resolver)
    requires i < |bs| && FirmwareLayout(bs[..i], regionOf, res).Ok?
    requires FirmwareBlock(bs[i], regionOf, res).Err?
    ensures FirmwareLayout(bs, regionOf, res) == Err(FirmwareBlock(bs[i], regionOf, res).error)
  {
    var f := b => FirmwareBlock(b, regionOf, res);
    forall j | 0 <= j < i ensures f(bs[j]).Ok? {
      assert bs[..i][j] == bs[j];
    }
    FirstFailure(bs, f, i);
  }

  /** A calibration list stops at the first block that cannot be placed. */
  lemma CalibrationLayoutStops(bs: seq<DataBlock>, i: nat, regionOf: RegionOf, adjust: AdjustOffset, res: Resolver)
    requires i < |bs| && CalibrationLayout(bs[..i], regionOf, adjust, res).Ok?
    requires CalibrationBlock(bs[i], regionOf, adjust, res).Err?
    ensures CalibrationLayout(bs, regionOf, adjust, res) == Err(CalibrationBlock(bs[i], regionOf, adjust, res).error)
  {
    var f := b => CalibrationBlock(b, regionOf, adjust, res);
    forall j | 0 <= j < i ensures f(bs[j]).Ok? {
      assert bs[..i][j] == bs[j];
    }
    FirstFailure(bs, f, i);
  }

  /** The calibration path does not re-align: a calibration block at start
      offset 2 lands two bytes past an aligned base, while a firmware block
      with the same coordinates is resolved at offset 2 itself. */
  lemma CalibrationNotRealigned()
    ensures var b := DataBlock(0, "u24", 2, 7, [1]);
      var regionOf := (t: int) => "xm";
      var adjust := (alg: int, region: string, offset: int) => Some(offset);
      var res := Resolver(Some(HaloType0));
      CalibrationBlock(b, regionOf, adjust, res) == Ok(Block(Some(0x2800002), [1])) &&
      FirmwareBlock(b, regionOf, res) == Ok(Block(Some(0x2800008), [1]))
  {
  }

  /** The concatenated payloads of a block list. */
  function Bytes(bs: seq<Block>): seq<Byte>
    decreases |bs|
  {
    if bs == [] then [] else Bytes(bs[..|bs| - 1]) + bs[|bs| - 1].payload
  }

  lemma {:induction false} BytesAppend(a: seq<Block>, b: seq<Block>)
    ensures Bytes(a + b) == Bytes(a) + Bytes(b)
    decreases |b|
  {
    if b != [] {
      assert (a + b)[..|a + b| - 1] == a + b[..|b| - 1];
      BytesAppend(a, b[..|b| - 1]);
    } else {
      assert a + b == a;
    }
  }

  /** The chunk length the split loop produces: it emits as soon as the
      pending chunk holds `size_limit` bytes, and a pending chunk is never
      empty when it checks, so a limit below one acts as one. */
  function ChunkSize(limit: int): (n: nat)
    ensures n >= 1
    ensures limit >= 1 ==> n == limit
    ensures limit < 1 ==> n == 1
  {
    if limit < 1 then 1 else limit
  }

  /** Cuts `payload`, placed at `address`, into consecutive chunks of `n`
      bytes and a shorter last one. */
  function Split(address: int, payload: seq<Byte>, n: nat): (chunks: seq<Block>)
    requires n >= 1
    ensures payload != [] ==> |chunks| > 0 && chunks[0].address == Some(address)
    decreases |payload|
  {
    if payload == [] then []
    else
      var m := Min(|payload|, n);
      [Block(Some(address), payload[..m])] + Split(address + m, payload[m..], n)
  }

  /** A non-empty payload needs the least number of chunks that holds it:
      one more than fills every chunk but the last. */
  lemma {:induction false} SplitCount(address: int, payload: seq<Byte>, n: nat)
    requires n >= 1 && payload != []
    ensures (|Split(address, payload, n)| - 1) * n < |payload| <= |Split(address, payload, n)| * n
    decreases |payload|
  {
    if |payload| > n {
      var c := |Split(address + n, payload[n..], n)|;
      assert |Split(address, payload, n)| == c + 1;
      SplitCount(address + n, payload[n..], n);
      ShiftByOne(c, n);
    } else {
      SplitSingle(address, payload, n);
    }
  }

  /** One more chunk covers `n` more bytes. */
  lemma ShiftByOne(c: int, n: int)
    ensures (c - 1) * n + n == c * n && c * n + n == (c + 1) * n
  {
  }

  /** A payload of at most one chunk is a single chunk. */
  lemma SplitSingle(address: int, payload: seq<Byte>, n: nat)
    requires n >= 1 && 0 < |payload| <= n
    ensures Split(address, payload, n) == [Block(Some(address), payload)]
  {
    assert payload[..|payload|] == payload;
    assert Split(address + |payload|, payload[|payload|..], n) == [];
  }

  /** A split of the bytes from `j` on that has a full chunk left takes it first. */
  lemma SplitStep(address: int, payload: seq<Byte>, n: nat, j: nat)
    requires n >= 1 && j + n <= |payload|
    ensures Split(address, payload[j..], n) ==
      [Block(Some(address), payload[j..j + n])] + Split(address + n, payload[j + n..], n)
  {
    assert payload[j..][..n] == payload[j..j + n];
    assert payload[j..][n..] == payload[j + n..];
  }

  /** `done` holds the chunks of `payload` (placed at `address`) that lie
      before byte `j`: together with the split of the rest they make the
      split of the whole payload. */
  ghost predicate SplitSoFar(done: seq<Block>, address: int, payload: seq<Byte>, n: nat, j: int)
  {
    n >= 1 && 0 <= j <= |payload| && done + Split(address + j, payload[j..], n) == Split(address, payload, n)
  }

  /** Nothing is emitted before the first byte. */
  lemma SplitStart(address: int, payload: seq<Byte>, n: nat)
    requires n >= 1
    ensures SplitSoFar([], address, payload, n, 0)
  {
    assert payload[0..] == payload;
  }

  /** Emitting the next full chunk, bytes `j` to `i`, advances to `i`. */
  lemma SplitEmit(done: seq<Block>, address: int, payload: seq<Byte>, n: nat, j: int, i: int, chunk: Block)
    requires SplitSoFar(done, address, payload, n, j)
    requires i == j + n <= |payload| && chunk == Block(Some(address + j), payload[j..i])
    ensures SplitSoFar(done + [chunk], address, payload, n, i)
  {
    SplitStep(address + j, payload, n, j);
    var rest := Split(address + i, payload[i..], n);
    assert done + ([chunk] + rest) == (done + [chunk]) + rest;
  }

  /** Emitting the remainder, bytes `j` to the end, if any, completes the split. */
  lemma SplitFinish(done: seq<Block>, address: int, payload: seq<Byte>, n: nat, j: int)
    requires SplitSoFar(done, address, payload, n, j) && |payload| - j <= n
    ensures (if j < |payload| then done + [Block(Some(address + j), payload[j..])] else done) ==
      Split(address, payload, n)
  {
    if j < |payload| {
      SplitSingle(address + j, payload[j..], n);
    } else {
      assert payload[j..] == [] && done + [] == done;
    }
  }

  /** The chunks of a split hold the payload, in order, byte for byte. */
  lemma {:induction false} SplitLossless(address: int, payload: seq<Byte>, n: nat)
    requires n >= 1
    ensures Bytes(Split(address, payload, n)) == payload
    decreases |payload|
  {
    if payload != [] {
      var m := Min(|payload|, n);
      var first := [Block(Some(address), payload[..m])];
      var rest := Split(address + m, payload[m..], n);
      assert Split(address, payload, n) == first + rest;
      SplitLossless(address + m, payload[m..], n);
      BytesAppend(first, rest);
      assert Bytes(first) == payload[..m] by {
        assert first[..0] == [];
      }
      assert payload[..m] + payload[m..] == payload;
    }
  }

  /** The chunks of a split start at `address`, are contiguous (each begins
      where the previous one ends), all but the last hold exactly `n` bytes,
      and the last is non-empty and at most `n` bytes. */
  lemma {:induction false} SplitShape(address: int, payload: seq<Byte>, n: nat)
    requires n >= 1
    ensures var cs := Split(address, payload, n);
      (cs == [] <==> payload == []) &&
      (cs != [] ==> cs[0].address == Some(address)) &&
      (forall i :: 0 <= i < |cs| ==> cs[i].address.Some? && 0 < |cs[i].payload| <= n) &&
      (forall i :: 0 <= i < |cs| - 1 ==> |cs[i].payload| == n) &&
      (forall i :: 0 <= i < |cs| - 1 ==>
        cs[i + 1].address == Some(cs[i].address.value + |cs[i].payload|))
    decreases |payload|
  {
    if payload != [] {
      var m := Min(|payload|, n);
      SplitShape(address + m, payload[m..], n);
      var rest := Split(address + m, payload[m..], n);
      var cs := Split(address, payload, n);
      assert cs == [Block(Some(address), payload[..m])] + rest;
      assert rest != [] ==> m == n;
      forall i | 0 <= i < |cs| - 1
        ensures cs[i + 1].address == Some(cs[i].address.value + |cs[i].payload|)
      {
        if i > 0 {
          assert cs[i] == rest[i - 1] && cs[i + 1] == rest[i];
        }
      }
    }
  }

  /** Chunk `k` of a split sits at `address + k * n` and holds the payload
      bytes from `k * n` up to the next multiple of `n` or the end. */
  lemma {:induction false} SplitAt(address: int, payload: seq<Byte>, n: nat, k: nat)
    requires n >= 1 && k < |Split(address, payload, n)|
    ensures k * n < |payload|
    ensures Split(address, payload, n)[k] ==
      Block(Some(address + k * n), payload[k * n..Min((k + 1) * n, |payload|)])
    decreases k
  {
    var cs := Split(address, payload, n);
    var m := Min(|payload|, n);
    assert cs == [Block(Some(address), payload[..m])] + Split(address + m, payload[m..], n);
    if k > 0 {
      assert m == n;
      assert cs[k] == Split(address + n, payload[n..], n)[k - 1];
      SplitAt(address + n, payload[n..], n, k - 1);
      ChunkAfterFirst(payload, n, k);
    }
  }

  /** Chunk `k - 1` of what follows the first chunk is chunk `k` of the whole. */
  lemma ChunkAfterFirst(payload: seq<Byte>, n: nat, k: nat)
    requires n >= 1 && 0 < k && n <= |payload| && (k - 1) * n < |payload| - n
    ensures n + (k - 1) * n == k * n && k * n < |payload|
    ensures payload[n..][(k - 1) * n..Min(k * n, |payload| - n)] == payload[k * n..Min((k + 1) * n, |payload|)]
  {
    ShiftByOne(k, n);
    NextSlice(payload, n, (k - 1) * n, k * n, (k + 1) * n);
  }

  /** ChunkAfterFirst with the three chunk boundaries named. */
  lemma NextSlice(payload: seq<Byte>, n: nat, lo: int, mid: int, hi: int)
    requires n <= |payload| && 0 <= lo < |payload| - n && lo + n == mid && mid + n == hi
    ensures payload[n..][lo..Min(mid, |payload| - n)] == payload[mid..Min(hi, |payload|)]
  {
    SliceOfSlice(payload, n, lo, Min(mid, |payload| - n));
  }

  /** A slice of a suffix is a slice of the whole, shifted. */
  lemma SliceOfSlice<T>(s: seq<T>, a: nat, lo: nat, hi: nat)
    requires a <= |s| && lo <= hi <= |s| - a
    ensures s[a..][lo..hi] == s[a + lo..a + hi]
  {
  }

  /** The smaller of two integers. */
  function Min(a: int, b: int): int
  {
    if a < b then a else b
  }

  /** One block of `rehash_blocks`: a block shorter than the limit passes
      through unchanged; any other is split at its address. A block with no
      address cannot be split (adding its length to `None` raises). */
  function RehashBlock(b: Block, limit: int): (r: Result<seq<Block>, Fault>)
    ensures |b.payload| < limit ==> r == Ok([b])
    ensures |b.payload| == limit && limit > 0 && b.address.Some? ==> r == Ok([b])
    ensures r.Err? <==> |b.payload| >= limit && b.payload != [] && b.address.None?
    ensures r.Err? ==> r.error == NoneAddress
  {
    if |b.payload| < limit then Ok([b])
    else if b.payload == [] then Ok([])
    else match b.address
      case None => Err(NoneAddress)
      case Some(address) =>
        if |b.payload| == limit then
          SplitSingle(address, b.payload, limit);
          Ok(Split(address, b.payload, ChunkSize(limit)))
        else
          Ok(Split(address, b.payload, ChunkSize(limit)))
  }

  /** A block at least as long as the limit that can be split becomes
      exactly its split. */
  lemma RehashBlockSplits(b: Block, limit: int)
    requires |b.payload| >= limit && (b.address.Some? || b.payload == [])
    ensures RehashBlock(b, limit) ==
      Ok(Split(if b.address.Some? then b.address.value else 0, b.payload, ChunkSize(limit)))
  {
  }

  /** `rehash_blocks` over a whole list: each block's chunks, in order. */
  function RehashAll(bs: seq<Block>, limit: int): (r: Result<seq<Block>, Fault>)
    ensures r.Err? ==> r.error == NoneAddress
  {
    FlatMapAll(bs, b => RehashBlock(b, limit))
  }

  /** Rehashing one more block appends its chunks. */
  lemma RehashSnoc(bs: seq<Block>, b: Block, limit: int)
    ensures RehashAll(bs + [b], limit) ==
      match RehashAll(bs, limit)
      case Err(e) => Err(e)
      case Ok(done) => (match RehashBlock(b, limit) case Err(e) => Err(e) case Ok(run) => Ok(done + run))
  {
    FlatMapAllSnoc(bs, b, b => RehashBlock(b, limit));
  }

  /** Rehashing fails exactly when some block with no address needs splitting. */
  lemma RehashFails(bs: seq<Block>, limit: int)
    ensures RehashAll(bs, limit).Err? <==>
      exists i :: 0 <= i < |bs| && |bs[i].payload| >= limit && bs[i].payload != [] && bs[i].address.None?
  {
    var f := b => RehashBlock(b, limit);
    if RehashAll(bs, limit).Err? {
      var i :| 0 <= i < |bs| && f(bs[i]) == Err(MapAll(bs, f).error);
    }
  }

  /** All chunks of the blocks in `xs` come before those of the blocks in `ys`. */
  lemma RehashOrdered(xs: seq<Block>, ys: seq<Block>, limit: int)
    ensures RehashAll(xs + ys, limit).Ok? <==> RehashAll(xs, limit).Ok? && RehashAll(ys, limit).Ok?
    ensures RehashAll(xs + ys, limit).Ok? ==>
      RehashAll(xs + ys, limit).value == RehashAll(xs, limit).value + RehashAll(ys, limit).value
  {
    FlatMapAllAppend(xs, ys, b => RehashBlock(b, limit));
  }

  /** The bytes of one block are those of its chunks. */
  lemma RehashBlockLossless(b: Block, limit: int)
    requires RehashBlock(b, limit).Ok?
    ensures Bytes(RehashBlock(b, limit).value) == b.payload
  {
    if |b.payload| < limit {
      assert Bytes([b]) == Bytes([]) + b.payload;
    } else if b.payload != [] {
      SplitLossless(b.address.value, b.payload, ChunkSize(limit));
    }
  }

  /** Rehashing is a lossless partition: the chunk payloads, concatenated
      in order, are the original payloads, concatenated in order. */
  lemma {:induction false} RehashLossless(bs: seq<Block>, limit: int)
    requires RehashAll(bs, limit).Ok?
    ensures Bytes(RehashAll(bs, limit).value) == Bytes(bs)
    decreases |bs|
  {
    if bs != [] {
      var init, last := bs[..|bs| - 1], bs[|bs| - 1];
      assert bs == init + [last];
      RehashSnoc(init, last, limit);
      RehashLossless(init, limit);
      RehashBlockLossless(last, limit);
      BytesAppend(RehashAll(init, limit).value, RehashBlock(last, limit).value);
    }
  }

  /** A block that rehashing leaves as it is: shorter than the limit, or an
      addressed, non-empty chunk of at most one chunk length. */
  predicate Settled(b: Block, limit: int)
  {
    |b.payload| < limit || (b.address.Some? && 0 < |b.payload| <= ChunkSize(limit))
  }

  lemma SettledFixed(b: Block, limit: int)
    requires Settled(b, limit)
    ensures RehashBlock(b, limit) == Ok([b])
  {
    if |b.payload| >= limit {
      SplitSingle(b.address.value, b.payload, ChunkSize(limit));
    }
  }

  /** Every block that comes out of rehashing is settled, so no block of
      the result is longer than one chunk. */
  lemma {:induction false} RehashSettles(bs: seq<Block>, limit: int)
    requires RehashAll(bs, limit).Ok?
    ensures forall i :: 0 <= i < |RehashAll(bs, limit).value| ==>
      Settled(RehashAll(bs, limit).value[i], limit) &&
      |RehashAll(bs, limit).value[i].payload| <= ChunkSize(limit)
    decreases |bs|
  {
    if bs != [] {
      var init, last := bs[..|bs| - 1], bs[|bs| - 1];
      assert bs == init + [last];
      RehashSnoc(init, last, limit);
      RehashSettles(init, limit);
      var done, run := RehashAll(init, limit).value, RehashBlock(last, limit).value;
      if |last.payload| >= limit && last.payload != [] {
        SplitShape(last.address.value, last.payload, ChunkSize(limit));
      }
      assert forall i :: 0 <= i < |run| ==> Settled(run[i], limit);
      assert RehashAll(bs, limit).value == done + run;
    }
  }

  /** A list of settled blocks rehashes to itself. */
  lemma {:induction false} SettledListFixed(bs: seq<Block>, limit: int)
    requires forall i :: 0 <= i < |bs| ==> Settled(bs[i], limit)
    ensures RehashAll(bs, limit) == Ok(bs)
    decreases |bs|
  {
    if bs != [] {
      var init, last := bs[..|bs| - 1], bs[|bs| - 1];
      assert bs == init + [last];
      RehashSnoc(init, last, limit);
      SettledListFixed(init, limit);
      SettledFixed(last, limit);
    }
  }

  /** Rehashing twice with the same limit is rehashing once. */
  lemma RehashIdempotent(bs: seq<Block>, limit: int)
    requires RehashAll(bs, limit).Ok?
    ensures RehashAll(RehashAll(bs, limit).value, limit) == RehashAll(bs, limit)
  {
    RehashSettles(bs, limit);
    SettledListFixed(RehashAll(bs, limit).value, limit);
  }

  /** Ten bytes at 0x100 in chunks of four. */
  lemma SplitExample()
    ensures Split(0x100, [0, 1, 2, 3, 4, 5, 6, 7, 8, 9], 4) ==
      [Block(Some(0x100), [0, 1, 2, 3]), Block(Some(0x104), [4, 5, 6, 7]), Block(Some(0x108), [8, 9])]
  {
    var p: seq<Byte> := [0, 1, 2, 3, 4, 5, 6, 7, 8, 9];
    var q: seq<Byte> := [4, 5, 6, 7, 8, 9];
    var t: seq<Byte> := [8, 9];
    SplitSingle(0x108, t, 4);
    assert q[..4] == [4, 5, 6, 7] && q[4..] == t;
    assert Split(0x104, q, 4) == [Block(Some(0x104), [4, 5, 6, 7])] + Split(0x108, t, 4);
    assert p[..4] == [0, 1, 2, 3] && p[4..] == q;
    assert Split(0x100, p, 4) == [Block(Some(0x100), [0, 1, 2, 3])] + Split(0x104, q, 4);
  }

  /** A ten-byte block at 0x100 with a limit of four becomes chunks at
      0x100, 0x104 and 0x108 holding four, four and two bytes. */
  lemma RehashExample()
    ensures RehashAll([Block(Some(0x100), [0, 1, 2, 3, 4, 5, 6, 7, 8, 9])], 4) ==
      Ok([Block(Some(0x100), [0, 1, 2, 3]), Block(Some(0x104), [4, 5, 6, 7]), Block(Some(0x108), [8, 9])])
  {
    var p: seq<Byte> := [0, 1, 2, 3, 4, 5, 6, 7, 8, 9];
    var chunks := Split(0x100, p, 4);
    SplitExample();
    assert RehashBlock(Block(Some(0x100), p), 4) == Ok(chunks);
    var single := [Block(Some(0x100), p)];
    assert [] + single == single && [] + chunks == chunks;
    RehashSnoc([], Block(Some(0x100), p), 4);
  }
}
