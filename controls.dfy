/** The controls the converter exports: one per coefficient descriptor of
    every algorithm, each with the algorithm's (possibly generic) name, a
    control name and the device address of the coefficient. */
module Controls {
  import opened Wrappers
  import opened PyStrings
  import opened AddressResolver
  import opened BlockLayout

  /** A coefficient descriptor of an algorithm information block. */
  datatype CoefficientDescriptor =
    CoefficientDescriptor(typeCode: int, startOffset: int, coefficientName: string, fullName: string)

  /** An algorithm information block: id, name and coefficient descriptors. */
  datatype AlgorithmInfo = AlgorithmInfo(id: int, name: string, descriptors: seq<CoefficientDescriptor>)

  /** What is handed to the exporters for one coefficient. */
  datatype Control = Control(algorithmName: string, algorithmId: int, name: string, address: Option<int>)

  /** The name the general algorithm is exported under with `--generic-sym`. */
  const GenericName := "FIRMWARE"

  /** Coefficient names containing this mark name a structure control. */
  const StructMark := "_struct_t"

  /** Control addresses are always resolved as 24-bit words. */
  const ControlWidth := "u24"

  /** The exported algorithm name: the generic name for the firmware's own
      algorithm when generic symbols are requested, the algorithm's own
      name otherwise. */
  function AlgorithmName(alg: AlgorithmInfo, genericSym: bool, firmwareId: int): (name: string)
    ensures genericSym && alg.id == firmwareId ==> name == GenericName
    ensures !(genericSym && alg.id == firmwareId) ==> name == alg.name
  {
    if genericSym && alg.id == firmwareId then GenericName else alg.name
  }

  /** The control name: a structure control's full name lacks the algorithm
      name, so it is built from the exported algorithm name and the
      coefficient name; any other control takes its full name with every
      occurrence of the algorithm's own name replaced by the exported one. */
  function ControlName(alg: AlgorithmInfo, algorithmName: string, desc: CoefficientDescriptor): (name: string)
    ensures Contains(desc.coefficientName, StructMark) ==>
      name == algorithmName + "_" + desc.coefficientName
    ensures !Contains(desc.coefficientName, StructMark) ==>
      name == Replace(desc.fullName, alg.name, algorithmName)
    ensures !Contains(desc.coefficientName, StructMark) && algorithmName == alg.name ==>
      name == desc.fullName
    ensures !Contains(desc.coefficientName, StructMark) && alg.name != [] && !Contains(desc.fullName, alg.name) ==>
      name == desc.fullName
  {
    if Contains(desc.coefficientName, StructMark) then
      algorithmName + "_" + desc.coefficientName
    else
      ReplaceBySelf(desc.fullName, alg.name);
      if alg.name != [] && !Contains(desc.fullName, alg.name) then
        ReplaceAbsent(desc.fullName, alg.name, algorithmName);
        Replace(desc.fullName, alg.name, algorithmName)
      else
        Replace(desc.fullName, alg.name, algorithmName)
  }

  /** The control of one coefficient: its offset is adjusted for the
      algorithm (which raises for an unknown algorithm) and resolved as a
      24-bit word; an unmapped region gives a control with no address. */
  function ControlFor(alg: AlgorithmInfo, desc: CoefficientDescriptor, genericSym: bool, firmwareId: int,
                      regionOf: RegionOf, adjust: AdjustOffset, res: Resolver): (r: Result<Control, Fault>)
    ensures adjust(alg.id, regionOf(desc.typeCode), desc.startOffset).None? ==> r == Err(UnknownAlgorithm)
    ensures adjust(alg.id, regionOf(desc.typeCode), desc.startOffset).Some? ==>
      (r.Err? <==> res.memMap.None?) && (r.Err? ==> r.error == MemMapUnset)
    ensures r.Ok? ==>
      var offset := adjust(alg.id, regionOf(desc.typeCode), desc.startOffset).value;
      r.value.algorithmId == alg.id &&
      r.value.algorithmName == AlgorithmName(alg, genericSym, firmwareId) &&
      r.value.name == ControlName(alg, r.value.algorithmName, desc) &&
      Ok(r.value.address) == Resolve(res, regionOf(desc.typeCode), ControlWidth, offset)
    ensures r.Ok? && r.value.address.Some? ==> r.value.address.value % 4 == 0
    ensures r.Ok? ==>
      (r.value.address.Some? <==> Mapped(res.memMap.value, regionOf(desc.typeCode), ControlWidth))
  {
    var region := regionOf(desc.typeCode);
    match adjust(alg.id, region, desc.startOffset)
    case None => Err(UnknownAlgorithm)
    case Some(offset) =>
      match Resolve(res, region, ControlWidth, offset)
      case Err(e) => Err(e)
      case Ok(address) =>
        var algorithmName := AlgorithmName(alg, genericSym, firmwareId);
        Ok(Control(algorithmName, alg.id, ControlName(alg, algorithmName, desc), address))
  }

  /** The controls of one algorithm, in descriptor order. */
  function ControlsOf(alg: AlgorithmInfo, genericSym: bool, firmwareId: int,
                      regionOf: RegionOf, adjust: AdjustOffset, res: Resolver): (r: Result<seq<Control>, Fault>)
    ensures r.Ok? ==> |r.value| == |alg.descriptors|
    ensures r.Ok? ==> forall i :: 0 <= i < |r.value| ==>
      r.value[i].algorithmId == alg.id && r.value[i].algorithmName == AlgorithmName(alg, genericSym, firmwareId)
    ensures r.Err? ==> r.error == UnknownAlgorithm || r.error == MemMapUnset
  {
    MapAll(alg.descriptors, d => ControlFor(alg, d, genericSym, firmwareId, regionOf, adjust, res))
  }

  /** The controls of all algorithms, algorithm by algorithm. */
  function AllControls(algs: seq<AlgorithmInfo>, genericSym: bool, firmwareId: int,
                       regionOf: RegionOf, adjust: AdjustOffset, res: Resolver): (r: Result<seq<Control>, Fault>)
    ensures algs == [] ==> r == Ok([])
    ensures r.Err? ==> r.error == UnknownAlgorithm || r.error == MemMapUnset
  {
    FlatMapAll(algs, a => ControlsOf(a, genericSym, firmwareId, regionOf, adjust, res))
  }

  /** The controls of one algorithm stop at the first coefficient that fails. */
  lemma ControlsOfStops(alg: AlgorithmInfo, k: nat, genericSym: bool, firmwareId: int,
                        regionOf: RegionOf, adjust: AdjustOffset, res: Resolver)
    requires k < |alg.descriptors|
    requires MapAll(alg.descriptors[..k], d => ControlFor(alg, d, genericSym, firmwareId, regionOf, adjust, res)).Ok?
    requires ControlFor(alg, alg.descriptors[k], genericSym, firmwareId, regionOf, adjust, res).Err?
    ensures ControlsOf(alg, genericSym, firmwareId, regionOf, adjust, res) ==
      Err(ControlFor(alg, alg.descriptors[k], genericSym, firmwareId, regionOf, adjust, res).error)
  {
    var f := d => ControlFor(alg, d, genericSym, firmwareId, regionOf, adjust, res);
    forall j | 0 <= j < k ensures f(alg.descriptors[j]).Ok? {
      assert alg.descriptors[..k][j] == alg.descriptors[j];
    }
    FirstFailure(alg.descriptors, f, k);
  }

  /** The controls of all algorithms stop at the first algorithm that fails. */
  lemma AllControlsStops(algs: seq<AlgorithmInfo>, i: nat, genericSym: bool, firmwareId: int,
                         regionOf: RegionOf, adjust: AdjustOffset, res: Resolver)
    requires i < |algs| && AllControls(algs[..i], genericSym, firmwareId, regionOf, adjust, res).Ok?
    requires ControlsOf(algs[i], genericSym, firmwareId, regionOf, adjust, res).Err?
    ensures AllControls(algs, genericSym, firmwareId, regionOf, adjust, res) ==
      Err(ControlsOf(algs[i], genericSym, firmwareId, regionOf, adjust, res).error)
  {
    var g := a => ControlsOf(a, genericSym, firmwareId, regionOf, adjust, res);
    forall j | 0 <= j < i ensures g(algs[j]).Ok? {
      assert algs[..i][j] == algs[j];
    }
    FirstFailure(algs, g, i);
  }

  /** One more coefficient appends its control. */
  lemma ControlsOfSnoc(alg: AlgorithmInfo, k: nat, genericSym: bool, firmwareId: int,
                       regionOf: RegionOf, adjust: AdjustOffset, res: Resolver)
    requires k < |alg.descriptors|
    requires MapAll(alg.descriptors[..k], d => ControlFor(alg, d, genericSym, firmwareId, regionOf, adjust, res)).Ok?
    requires ControlFor(alg, alg.descriptors[k], genericSym, firmwareId, regionOf, adjust, res).Ok?
    ensures MapAll(alg.descriptors[..k + 1], d => ControlFor(alg, d, genericSym, firmwareId, regionOf, adjust, res)) ==
      Ok(MapAll(alg.descriptors[..k], d => ControlFor(alg, d, genericSym, firmwareId, regionOf, adjust, res)).value +
         [ControlFor(alg, alg.descriptors[k], genericSym, firmwareId, regionOf, adjust, res).value])
  {
    assert alg.descriptors[..k + 1][..k] == alg.descriptors[..k];
  }

  /** One more algorithm appends its controls. */
  lemma AllControlsSnoc(algs: seq<AlgorithmInfo>, alg: AlgorithmInfo, genericSym: bool, firmwareId: int,
                        regionOf: RegionOf, adjust: AdjustOffset, res: Resolver)
    requires AllControls(algs, genericSym, firmwareId, regionOf, adjust, res).Ok?
    requires ControlsOf(alg, genericSym, firmwareId, regionOf, adjust, res).Ok?
    ensures AllControls(algs + [alg], genericSym, firmwareId, regionOf, adjust, res) ==
      Ok(AllControls(algs, genericSym, firmwareId, regionOf, adjust, res).value +
         ControlsOf(alg, genericSym, firmwareId, regionOf, adjust, res).value)
  {
    FlatMapAllSnoc(algs, alg, a => ControlsOf(a, genericSym, firmwareId, regionOf, adjust, res));
  }

  /** Every exported control is resolved as a 24-bit word: its address is
      present exactly when its region lists `u24`, and is then word-aligned. */
  lemma ControlsUseWordWidth(algs: seq<AlgorithmInfo>, genericSym: bool, firmwareId: int,
                             regionOf: RegionOf, adjust: AdjustOffset, res: Resolver)
    requires AllControls(algs, genericSym, firmwareId, regionOf, adjust, res).Ok?
    ensures forall c :: c in AllControls(algs, genericSym, firmwareId, regionOf, adjust, res).value ==>
      exists region, offset :: Ok(c.address) == Resolve(res, region, ControlWidth, offset)
    ensures forall c :: c in AllControls(algs, genericSym, firmwareId, regionOf, adjust, res).value ==>
      (c.address.Some? ==> c.address.value % 4 == 0)
  {
    var g := a => ControlsOf(a, genericSym, firmwareId, regionOf, adjust, res);
    var parts := MapAll(algs, g).value;
    ControlsInParts(parts, algs, genericSym, firmwareId, regionOf, adjust, res);
  }

  /** Helper of ControlsUseWordWidth: induction over the runs of Flatten. */
  lemma {:induction false} ControlsInParts(parts: seq<seq<Control>>, algs: seq<AlgorithmInfo>, genericSym: bool,
                                           firmwareId: int, regionOf: RegionOf, adjust: AdjustOffset, res: Resolver)
    requires |parts| == |algs|
    requires forall i :: 0 <= i < |algs| ==>
      ControlsOf(algs[i], genericSym, firmwareId, regionOf, adjust, res) == Ok(parts[i])
    ensures forall c :: c in Flatten(parts) ==>
      exists region, offset :: Ok(c.address) == Resolve(res, region, ControlWidth, offset)
    ensures forall c :: c in Flatten(parts) && c.address.Some? ==> c.address.value % 4 == 0
    decreases |parts|
  {
    if parts != [] {
      var n := |parts| - 1;
      ControlsInParts(parts[..n], algs[..n], genericSym, firmwareId, regionOf, adjust, res);
      var alg := algs[n];
      var f := d => ControlFor(alg, d, genericSym, firmwareId, regionOf, adjust, res);
      assert MapAll(alg.descriptors, f) == Ok(parts[n]);
      forall c | c in parts[n]
        ensures exists region, offset :: Ok(c.address) == Resolve(res, region, ControlWidth, offset)
        ensures c.address.Some? ==> c.address.value % 4 == 0
      {
        var k :| 0 <= k < |parts[n]| && parts[n][k] == c;
        assert f(alg.descriptors[k]) == Ok(c);
        var region := regionOf(alg.descriptors[k].typeCode);
        var offset := adjust(alg.id, region, alg.descriptors[k].startOffset).value;
        assert Ok(c.address) == Resolve(res, region, ControlWidth, offset);
      }
    }
  }

  /** With the firmware's own algorithm "Amp" exported as "FIRMWARE", an
      ordinary coefficient has the name replaced inside its full name;
      kept under its own name, nothing changes. */
  lemma ControlNameExamples()
    ensures ControlName(AlgorithmInfo(5, "Amp", []), "FIRMWARE", CoefficientDescriptor(0, 2, "Vol", "Amp_Vol")) ==
      "FIRMWARE_Vol"
    ensures ControlName(AlgorithmInfo(5, "Amp", []), "Amp", CoefficientDescriptor(0, 2, "Vol", "Amp_Vol")) ==
      "Amp_Vol"
  {
    assert !Contains("Vol", StructMark);
    assert "Amp_Vol"[..3] == "Amp" && "Amp_Vol"[3..] == "_Vol";
    assert Contains("Amp_Vol", "Amp");
    assert !Contains("Vol", "Amp") by {
      assert "Vol"[0] != "Amp"[0] && "Vol"[1..] == "ol";
    }
    assert !Contains("_Vol", "Amp") by {
      assert "_Vol"[0] != "Amp"[0] && "_Vol"[1..] == "Vol";
    }
    ReplaceAbsent("_Vol", "Amp", "FIRMWARE");
    assert Replace("Amp_Vol", "Amp", "FIRMWARE") == "FIRMWARE" + "_Vol" == "FIRMWARE_Vol";
  }

  /** A structure control's name is the exported algorithm name, an
      underscore and the coefficient name. */
  lemma StructControlNameExample()
    ensures ControlName(AlgorithmInfo(5, "Amp", []), "FIRMWARE", CoefficientDescriptor(0, 0, "Amp_struct_t", "Amp_struct_t")) ==
      "FIRMWARE_Amp_struct_t"
  {
    assert "Amp_struct_t"[3..3 + |StructMark|] == StructMark;
    assert OccursAt("Amp_struct_t", StructMark, 3);
    ContainsAt("Amp_struct_t", StructMark);
  }

  /** A `u24` coefficient at word 2 of XM is at 0x2800008; PM has no `u24`
      base, so a coefficient there gets no address. */
  lemma ControlAddressExamples()
    ensures var alg := AlgorithmInfo(5, "Amp", []);
      var vol := CoefficientDescriptor(0, 2, "Vol", "Amp_Vol");
      var adjust := (id: int, region: string, offset: int) => Some(offset);
      var res := Resolver(Some(HaloType0));
      ControlFor(alg, vol, true, 5, t => "xm", adjust, res) ==
        Ok(Control("FIRMWARE", 5, ControlName(alg, "FIRMWARE", vol), Some(0x2800008))) &&
      ControlFor(alg, vol, true, 5, t => "pm", adjust, res) ==
        Ok(Control("FIRMWARE", 5, ControlName(alg, "FIRMWARE", vol), None))
  {
    assert Resolve(Resolver(Some(HaloType0)), "xm", ControlWidth, 2) == Ok(Some(0x2800008));
    assert Resolve(Resolver(Some(HaloType0)), "pm", ControlWidth, 2) == Ok(None);
  }

  /** The inner loop of the converter's control collection: the controls
      of one algorithm's coefficient descriptors, in order. */
  method AlgorithmControls(alg: AlgorithmInfo, genericSym: bool, firmwareId: int,
                           regionOf: RegionOf, adjust: AdjustOffset, res: Resolver)
    returns (r: Result<seq<Control>, Fault>)
    ensures r == ControlsOf(alg, genericSym, firmwareId, regionOf, adjust, res)
  {
    var row: seq<Control> := [];
    var k := 0;
    while k < |alg.descriptors|
      invariant 0 <= k <= |alg.descriptors|
      invariant MapAll(alg.descriptors[..k], d => ControlFor(alg, d, genericSym, firmwareId, regionOf, adjust, res)) == Ok(row)
    {
      var desc := alg.descriptors[k];
      var region := regionOf(desc.typeCode);
      var offset := adjust(alg.id, region, desc.startOffset);
      if offset.None? {
        ControlsOfStops(alg, k, genericSym, firmwareId, regionOf, adjust, res);
        return Err(UnknownAlgorithm);
      }
      var address := Resolve(res, region, ControlWidth, offset.value);
      if address.Err? {
        ControlsOfStops(alg, k, genericSym, firmwareId, regionOf, adjust, res);
        return Err(address.error);
      }
      var algorithmName := AlgorithmName(alg, genericSym, firmwareId);
      var control := Control(algorithmName, alg.id, ControlName(alg, algorithmName, desc), address.value);
      assert ControlFor(alg, desc, genericSym, firmwareId, regionOf, adjust, res) == Ok(control);
      ControlsOfSnoc(alg, k, genericSym, firmwareId, regionOf, adjust, res);
      row := row + [control];
      k := k + 1;
    }
    assert alg.descriptors[..k] == alg.descriptors;
    r := Ok(row);
  }

  /** The control collection of the converter's main routine: for each
      algorithm, for each coefficient descriptor, derive the control and
      hand it to the exporters (here: append it to `controls`). */
  method CollectControls(algs: seq<AlgorithmInfo>, genericSym: bool, firmwareId: int,
                         regionOf: RegionOf, adjust: AdjustOffset, res: Resolver)
    returns (r: Result<seq<Control>, Fault>)
    ensures r == AllControls(algs, genericSym, firmwareId, regionOf, adjust, res)
  {
    var controls: seq<Control> := [];
    var i := 0;
    while i < |algs|
      invariant 0 <= i <= |algs|
      invariant AllControls(algs[..i], genericSym, firmwareId, regionOf, adjust, res) == Ok(controls)
    {
      var alg := algs[i];
      var row := AlgorithmControls(alg, genericSym, firmwareId, regionOf, adjust, res);
      if row.Err? {
        AllControlsStops(algs, i, genericSym, firmwareId, regionOf, adjust, res);
        return Err(row.error);
      }
      AllControlsSnoc(algs[..i], alg, genericSym, firmwareId, regionOf, adjust, res);
      assert algs[..i + 1] == algs[..i] + [alg];
      controls := controls + row.value;
      i := i + 1;
    }
    assert algs[..i] == algs;
    r := Ok(controls);
  }
}
