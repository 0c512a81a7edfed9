/** The part-number memory maps and the address resolver of the firmware
    converter: (memory region, data width, word offset) to device address. */
module AddressResolver {
  import opened Wrappers

  /** What a conversion run raises; each one aborts the run. */
  datatype Fault =
    /** `resolve` on a resolver whose part is in no memory map: its
        `mem_map` attribute was never set (AttributeError). */
    | MemMapUnset
    /** A width listed in the memory map that has no addresses-per-word
        multiplier (the multiplier variable is unbound). */
    | NoMultiplier(width: string)
    /** The firmware's offset table has no entry for the algorithm id. */
    | UnknownAlgorithm
    /** Arithmetic on the `None` that `resolve` returned (TypeError). */
    | NoneAddress

  /** One memory map: the parts it serves and, per region and per data
      width, the base address. */
  datatype MemMap = MemMap(parts: seq<string>, regions: map<string, map<string, int>>)

  /** The part numbers the command line accepts. */
  const SupportedPartNumbers: seq<string> :=
    ["cs35l41", "cs40l25", "cs40l30", "cs48l32", "cs47l63", "cs47l66"]

  /** The HALO core memory map. */
  const HaloType0: MemMap := MemMap(
    ["cs35l41", "cs40l25", "cs40l30", "cs48l32", "cs47l63", "cs47l66"],
    map[
      "xm" := map["u24" := 0x2800000, "p32" := 0x2000000, "u32" := 0x2400000],
      "ym" := map["u24" := 0x3400000, "p32" := 0x2C00000, "u32" := 0x3000000],
      "pm" := map["pm32" := 0x3800000]
    ])

  /** The named memory maps, in the order the resolver's constructor visits them. */
  const SupportedMemMaps: seq<(string, MemMap)> := [("halo_type_0", HaloType0)]

  /** The memory-map table: one map, the HALO one, serving every part the
      command line accepts; each of its regions lists its widths with a
      four-byte aligned base. */
  lemma HaloTable()
    ensures |SupportedMemMaps| == 1 && SupportedMemMaps[0].1 == HaloType0
    ensures HaloType0.parts == SupportedPartNumbers
    ensures HaloType0.regions.Keys == {"xm", "ym", "pm"}
    ensures HaloType0.regions["xm"].Keys == HaloType0.regions["ym"].Keys == {"u24", "p32", "u32"}
    ensures HaloType0.regions["pm"].Keys == {"pm32"}
    ensures forall region, width :: Mapped(HaloType0, region, width) ==>
      HaloType0.regions[region][width] % 4 == 0
  {
    forall region, width | Mapped(HaloType0, region, width)
      ensures HaloType0.regions[region][width] % 4 == 0
    {
      assert region == "xm" || region == "ym" || region == "pm";
    }
  }

  /** An address resolver; `memMap` is None when no map lists its part. */
  datatype Resolver = Resolver(memMap: Option<MemMap>)

  /** The map the constructor ends up with: the last one listing `part`. */
  function LastMapFor(table: seq<(string, MemMap)>, part: string): (m: Option<MemMap>)
    ensures m.Some? ==>
      exists i :: 0 <= i < |table| && table[i].1 == m.value && part in table[i].1.parts &&
        (forall j :: i < j < |table| ==> part !in table[j].1.parts)
    ensures m.None? ==> forall i :: 0 <= i < |table| ==> part !in table[i].1.parts
    decreases |table|
  {
    if table == [] then None
    else if part in table[|table| - 1].1.parts then Some(table[|table| - 1].1)
    else LastMapFor(table[..|table| - 1], part)
  }

  /** The resolver's constructor: visits every named map and keeps the last
      one whose part list holds `part`; an unknown part is not reported. */
  method NewResolver(part: string) returns (r: Resolver)
    ensures r.memMap == LastMapFor(SupportedMemMaps, part)
    ensures part in SupportedPartNumbers ==> r.memMap == Some(HaloType0)
    ensures part !in SupportedPartNumbers ==> r.memMap == None
  {
    var memMap: Option<MemMap> := None;
    var i := 0;
    while i < |SupportedMemMaps|
      invariant 0 <= i <= |SupportedMemMaps|
      invariant memMap == LastMapFor(SupportedMemMaps[..i], part)
    {
      assert SupportedMemMaps[..i + 1][..i] == SupportedMemMaps[..i];
      if part in SupportedMemMaps[i].1.parts {
        memMap := Some(SupportedMemMaps[i].1);
      }
      i := i + 1;
    }
    assert SupportedMemMaps[..i] == SupportedMemMaps;
    r := Resolver(memMap);
  }

  /** Device addresses per word of each data width; `u32` has none. */
  function AddressesPerWord(width: string): (m: Option<int>)
    ensures m.Some? <==> width in {"u24", "p32", "pm32"}
    ensures m.Some? ==> 3 <= m.value <= 5
  {
    if width == "u24" then Some(4)
    else if width == "p32" then Some(3)
    else if width == "pm32" then Some(5)
    else None
  }

  /** The map has a base address for `region` and `width`. */
  predicate Mapped(m: MemMap, region: string, width: string)
  {
    region in m.regions && width in m.regions[region]
  }

  /** `x & ~0x3` on a Python integer: the low two bits cleared, which is
      rounding down to a multiple of four (Dafny's `%` is never negative). */
  function AlignDown(x: int): (r: int)
    ensures r % 4 == 0
    ensures x - 3 <= r <= x
  {
    x - x % 4
  }

  /** `resolve(region, width, offset)`: `None` when the map has no entry for
      the region and width, otherwise the base address plus `offset` words,
      aligned down to four bytes. */
  function Resolve(r: Resolver, region: string, width: string, offset: int): (res: Result<Option<int>, Fault>)
    ensures r.memMap.None? <==> res == Err(MemMapUnset)
    ensures r.memMap.Some? && !Mapped(r.memMap.value, region, width) ==> res == Ok(None)
    ensures r.memMap.Some? && Mapped(r.memMap.value, region, width) && AddressesPerWord(width).None? ==>
      res == Err(NoMultiplier(width))
    ensures res.Ok? && res.value.Some? ==>
      r.memMap.Some? && Mapped(r.memMap.value, region, width) && AddressesPerWord(width).Some? &&
      var raw := r.memMap.value.regions[region][width] + offset * AddressesPerWord(width).value;
      res.value.value % 4 == 0 && raw - 3 <= res.value.value <= raw
  {
    match r.memMap
    case None => Err(MemMapUnset)
    case Some(m) =>
      if !Mapped(m, region, width) then Ok(None)
      else match AddressesPerWord(width)
        case None => Err(NoMultiplier(width))
        case Some(perWord) => Ok(Some(AlignDown(m.regions[region][width] + offset * perWord)))
  }

  /** An address comes back exactly when the map is set, lists the region
      and width, and the width has a multiplier. */
  lemma ResolveFound(r: Resolver, region: string, width: string, offset: int)
    ensures Resolve(r, region, width, offset).Ok? && Resolve(r, region, width, offset).value.Some? <==>
      r.memMap.Some? && Mapped(r.memMap.value, region, width) && width in {"u24", "p32", "pm32"}
  {
  }

  /** The multipliers, and the one width of the HALO map that has none. */
  lemma HaloMultipliers()
    ensures AddressesPerWord("u24") == Some(4)
    ensures AddressesPerWord("p32") == Some(3)
    ensures AddressesPerWord("pm32") == Some(5)
    ensures forall region, width :: Mapped(HaloType0, region, width) ==>
      (AddressesPerWord(width).None? <==> width == "u32")
  {
    forall region, width | Mapped(HaloType0, region, width)
      ensures AddressesPerWord(width).None? <==> width == "u32"
    {
      assert region == "xm" || region == "ym" || region == "pm";
    }
  }

  /** Resolving against the HALO map. A `u32` coordinate faults instead of
      yielding an address; two consecutive `p32` words can share an address
      once aligned; a width a region does not list, or an unknown region,
      gives no address. */
  lemma HaloExamples()
    ensures Resolve(Resolver(Some(HaloType0)), "xm", "u24", 2) == Ok(Some(0x2800008))
    ensures Resolve(Resolver(Some(HaloType0)), "pm", "pm32", 1) == Ok(Some(0x3800004))
    ensures Resolve(Resolver(Some(HaloType0)), "xm", "p32", 0) == Ok(Some(0x2000000))
    ensures Resolve(Resolver(Some(HaloType0)), "xm", "p32", 1) == Ok(Some(0x2000000))
    ensures Resolve(Resolver(Some(HaloType0)), "xm", "u32", 2) == Err(NoMultiplier("u32"))
    ensures Resolve(Resolver(Some(HaloType0)), "pm", "u24", 0) == Ok(None)
    ensures Resolve(Resolver(Some(HaloType0)), "zm", "u24", 0) == Ok(None)
    ensures Resolve(Resolver(None), "xm", "u24", 0) == Err(MemMapUnset)
  {
  }
}
