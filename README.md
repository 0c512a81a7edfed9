# Firmware converter address layout and CS35L41 harness state machine, in Dafny

This project models two pieces of the Cirrus Logic MCU driver SDK and proves
properties about them.

**The firmware converter's address and block layout engine**
(`tools/firmware_converter/firmware_converter.py`):

- the HALO memory map (per region and data width, a base address);
- the address resolver, which maps (memory region, data width, word offset)
  to a device address aligned down to four bytes;
- the firmware and calibration block lists, which turn parsed data blocks into
  (address, payload) entries;
- `rehash_blocks`, which cuts every entry that is not shorter than the
  transaction size limit into consecutive, address-contiguous chunks;
- the rule in `main` that derives each exported control's algorithm name,
  control name and address.

**The CS35L41 bare-metal test harness** (`cs35l41/baremetal/main.c`): a
twelve-state application state machine advanced by a latched push-button
press. Each transition is labelled with the board support calls it issues.

Files:

- `wrappers.dfy`: `Option`, `Result`, and the two loop shapes the converter
  uses. `MapAll` is one output per input; `FlatMapAll` is a run of outputs per
  input. Both stop at the first input that raises, as an exception raised
  inside a Python `for` loop does.
- `py_strings.dfy`: Python's `sub in s` and `str.replace`.
- `address_resolver.dfy`: the memory map, the resolver's constructor and
  `resolve`.
- `block_layout.dfy`: functions that specify the block address on each path
  and the rehash split, with their properties.
- `block_lists.dfy`: the block list as a class. The constructors and
  `rehash_blocks` are loops, proved against `block_layout.dfy`.
- `controls.dfy`: the control name and address rule, and the collection loop.
- `harness.dfy`: the next-state and call-label functions, their properties,
  and the `App` class whose `Step` is one pass of the main loop.

Every Python exception the modelled code can raise is a `Fault` in an `Err`
result:

- `MemMapUnset`: an unknown part leaves `mem_map` unset, and the first
  `resolve` raises.
- `NoMultiplier`: `u32` has a base address but no addresses-per-word
  multiplier.
- `UnknownAlgorithm`: the firmware's offset adjustment does not know the
  algorithm id.
- `NoneAddress`: arithmetic on the `None` that `resolve` returns.

Behaviour of the code worth knowing:

- An unsupported part number does not fail at construction. Only the first
  resolution fails.
- Resolving `xm`/`u32` does not give an address. It faults, because `u32`
  has a base address but no multiplier.
- A region or width missing from the map makes `resolve` return `None`.
  What happens next depends on the caller:
  - a control gets no address, and the run goes on;
  - the firmware list keeps the entry with no address; `rehash_blocks` then
    faults on it when its payload is non-empty and not shorter than the
    size limit, because it adds the chunk length to `None`; a shorter entry
    passes through with no address;
  - the calibration list faults at once, when it adds the start offset to
    `None`.
- Firmware blocks are resolved at their raw start offset, with no
  offset adjustment.
- Calibration addresses are not re-aligned after the start offset is added,
  so they need not be multiples of four.
- The region `abs` is handled by the two block-list constructors, not by
  `resolve`. The control rule resolves `abs` like any other region, which
  gives no address.

## Model

| member | source | states |
|---|---|---|
| AddressResolver.HaloTable | tools/firmware_converter/firmware_converter.py:42-62 | the table holds one map, the HALO one, for exactly the supported parts; xm and ym list u24, p32 and u32, pm lists pm32; every base address is a multiple of four |
| AddressResolver.LastMapFor | tools/firmware_converter/firmware_converter.py:68-71 | the map kept lists the part and no later map does; no map is kept exactly when no map lists it |
| AddressResolver.NewResolver | tools/firmware_converter/firmware_converter.py:67-73 | the constructor keeps the last map listing the part: the HALO map for each supported part, none for any other part |
| AddressResolver.AddressesPerWord | tools/firmware_converter/firmware_converter.py:78-83 | a multiplier exists exactly for u24, p32 and pm32, and lies between three and five |
| AddressResolver.AlignDown | tools/firmware_converter/firmware_converter.py:87-88 | clearing the low two bits gives a multiple of four at most three below the input |
| AddressResolver.Resolve | tools/firmware_converter/firmware_converter.py:75-90 | faults when the map is unset; no address when region or width is missing; faults for a listed width without a multiplier; a found address is aligned and within three of base + offset × multiplier |
| AddressResolver.ResolveFound | tools/firmware_converter/firmware_converter.py:75-90 | an address comes back if and only if the map is set, lists region and width, and the width is u24, p32 or pm32 |
| AddressResolver.HaloMultipliers | tools/firmware_converter/firmware_converter.py:45-83 | u24→4, p32→3, pm32→5; of the widths the HALO map lists, exactly u32 has no multiplier |
| AddressResolver.HaloExamples | tools/firmware_converter/firmware_converter.py:45-90 | xm/u24 word 2 is 0x2800008; p32 words 0 and 1 share 0x2000000 once aligned; xm/u32 faults; pm/u24 and an unknown region give no address; an unset map faults |
| BlockLayout.FirmwareBlock | tools/firmware_converter/firmware_converter.py:126-132 | an abs block keeps its start offset; any other gets resolve at its raw start offset (faulting when resolve faults, keeping None); the payload is unchanged |
| BlockLayout.CalibrationBlock | tools/firmware_converter/firmware_converter.py:139-151 | an abs block keeps its start offset; otherwise an unknown algorithm faults, a None base faults, and a found base plus the start offset is the address, congruent to the start offset modulo four |
| BlockLayout.FirmwareLayout | tools/firmware_converter/firmware_converter.py:122-133 | a built firmware list has one entry per data block, in order, each with its block's payload; the only faults are an unset map and a width without a multiplier |
| BlockLayout.CalibrationLayout | tools/firmware_converter/firmware_converter.py:135-153 | a built calibration list has one entry per data block, in order, each with its block's payload and an address |
| BlockLayout.FirmwareLayoutStops | tools/firmware_converter/firmware_converter.py:125-133 | building a firmware list fails with the error of the first block that faults |
| BlockLayout.CalibrationLayoutStops | tools/firmware_converter/firmware_converter.py:138-153 | building a calibration list fails with the error of the first block that faults |
| BlockLayout.CalibrationNotRealigned | tools/firmware_converter/firmware_converter.py:144-151 | the same coordinates give 0x2800002 on the calibration path but 0x2800008 on the firmware path |
| BlockLayout.ChunkSize | tools/firmware_converter/firmware_converter.py:109-113 | the split loop emits chunks of the size limit, and of one byte for a limit below one |
| BlockLayout.Split | tools/firmware_converter/firmware_converter.py:107-116 | a non-empty payload gives at least one chunk, and the first chunk sits at the block's address |
| BlockLayout.SplitCount | tools/firmware_converter/firmware_converter.py:107-116 | a non-empty payload of L bytes gives c chunks with (c - 1)·n < L ≤ c·n: the fewest chunks of n bytes that hold it |
| BlockLayout.SplitSingle | tools/firmware_converter/firmware_converter.py:107-116 | a non-empty payload of at most one chunk splits into itself at its own address |
| BlockLayout.SplitLossless | tools/firmware_converter/firmware_converter.py:107-116 | concatenating the chunk payloads reproduces the payload |
| BlockLayout.SplitShape | tools/firmware_converter/firmware_converter.py:107-116 | chunks start at the block address, each begins where the previous ends, all but the last hold exactly n bytes, the last is non-empty and at most n |
| BlockLayout.SplitAt | tools/firmware_converter/firmware_converter.py:107-116 | chunk k sits at address + k·n and holds payload bytes k·n up to (k+1)·n or the end |
| BlockLayout.RehashBlock | tools/firmware_converter/firmware_converter.py:103-116 | a block shorter than the limit passes through unchanged; one exactly at the limit with an address gives one identical chunk; it faults exactly when a non-empty block with no address needs splitting |
| BlockLayout.RehashAll | tools/firmware_converter/firmware_converter.py:100-120 | the only fault rehashing a list can raise is the addition to `None` |
| BlockLayout.RehashFails | tools/firmware_converter/firmware_converter.py:100-120 | rehashing a list fails exactly when some block without an address needs splitting |
| BlockLayout.RehashOrdered | tools/firmware_converter/firmware_converter.py:100-120 | the chunks of earlier blocks all precede those of later blocks |
| BlockLayout.RehashBlockLossless | tools/firmware_converter/firmware_converter.py:103-116 | one block's chunks hold its payload byte for byte |
| BlockLayout.RehashLossless | tools/firmware_converter/firmware_converter.py:100-120 | the rehashed list holds the same bytes in the same order |
| BlockLayout.SettledFixed | tools/firmware_converter/firmware_converter.py:103-116 | a block below the limit, or an addressed non-empty block of at most one chunk, is left as it is |
| BlockLayout.RehashSettles | tools/firmware_converter/firmware_converter.py:100-120 | every entry of a rehashed list is settled (below the limit, or addressed and non-empty) and holds at most one chunk |
| BlockLayout.SettledListFixed | tools/firmware_converter/firmware_converter.py:100-120 | a list of settled entries is not changed by rehashing |
| BlockLayout.RehashIdempotent | tools/firmware_converter/firmware_converter.py:100-120 | rehashing twice gives what rehashing once gives |
| BlockLayout.SplitExample | tools/firmware_converter/firmware_converter.py:107-116 | ten bytes at 0x100 in chunks of four are split at 0x100, 0x104 and 0x108 into four, four and two bytes |
| BlockLayout.RehashExample | tools/firmware_converter/firmware_converter.py:100-120 | ten bytes at 0x100 with limit four become chunks at 0x100, 0x104, 0x108 of four, four and two bytes |
| BlockLists.BlockList.constructor | tools/firmware_converter/firmware_converter.py:93-98 | a new list holds the limit, the resolver and no entries |
| BlockLists.BlockList.ForFirmware | tools/firmware_converter/firmware_converter.py:122-133 | the loop builds exactly the firmware layout of the data blocks, or fails with its first error |
| BlockLists.BlockList.ForCalibration | tools/firmware_converter/firmware_converter.py:135-153 | the loop builds exactly the calibration layout of the data blocks, or fails with its first error |
| BlockLists.BlockList.SplitEntry | tools/firmware_converter/firmware_converter.py:107-116 | the byte loop emits exactly the split of the entry, and fails exactly when the entry has no address |
| BlockLists.BlockList.Rehash | tools/firmware_converter/firmware_converter.py:100-120 | the new entries are the rehash of the old ones; on a fault the entries are left unchanged |
| Controls.AlgorithmName | tools/firmware_converter/firmware_converter.py:357-360 | FIRMWARE when generic symbols are asked for and the algorithm is the firmware's own, the algorithm's name otherwise |
| Controls.ControlName | tools/firmware_converter/firmware_converter.py:363-366 | a `_struct_t` coefficient gives algorithm name + "_" + coefficient name; any other gives the full name with the algorithm's own name replaced by the exported one (str.replace, characterised by PyStrings.ReplaceFirst), so it is unchanged when the name is kept or does not occur |
| Controls.ControlFor | tools/firmware_converter/firmware_converter.py:350-372 | an unknown algorithm faults, an unset map faults; otherwise the control carries the exported names and the u24 resolution of the adjusted offset, aligned, present exactly when the region lists u24 |
| Controls.ControlsOf | tools/firmware_converter/firmware_converter.py:349-372 | one algorithm's controls: one per descriptor, each carrying the algorithm's id and exported name; the only faults are an unknown algorithm and an unset map |
| Controls.AllControls | tools/firmware_converter/firmware_converter.py:347-372 | no algorithms give no controls; the only faults are an unknown algorithm and an unset map |
| Controls.ControlsOfStops | tools/firmware_converter/firmware_converter.py:349-372 | one algorithm's controls fail with the first failing coefficient's error |
| Controls.AllControlsStops | tools/firmware_converter/firmware_converter.py:347-372 | the control list fails with the first failing algorithm's error |
| Controls.ControlsUseWordWidth | tools/firmware_converter/firmware_converter.py:350-354 | every exported control address is a u24 resolution, and a multiple of four when present |
| Controls.ControlNameExamples | tools/firmware_converter/firmware_converter.py:357-366 | "Amp_Vol" becomes "FIRMWARE_Vol" under the generic name, and stays "Amp_Vol" under the algorithm's own name |
| Controls.StructControlNameExample | tools/firmware_converter/firmware_converter.py:363-364 | the structure control "Amp_struct_t" becomes "FIRMWARE_Amp_struct_t" |
| Controls.ControlAddressExamples | tools/firmware_converter/firmware_converter.py:350-354 | a coefficient at word 2 of xm is at 0x2800008; one in pm gets no address |
| Controls.AlgorithmControls | tools/firmware_converter/firmware_converter.py:349-372 | the inner loop produces exactly one algorithm's controls, or its first error |
| Controls.CollectControls | tools/firmware_converter/firmware_converter.py:347-372 | the nested loops produce exactly all controls in algorithm and descriptor order, or the first error |
| PyStrings.Contains | tools/firmware_converter/firmware_converter.py:363 | the empty string is in every string, and a contained string is no longer than the string |
| PyStrings.ContainsAt | tools/firmware_converter/firmware_converter.py:363 | `sub in s` holds exactly when `sub` occurs at some index of `s` |
| PyStrings.Replace | tools/firmware_converter/firmware_converter.py:366 | with a non-empty pattern, a replacement no longer than the pattern does not lengthen the string, and one no shorter does not shorten it |
| PyStrings.ReplaceFirst | tools/firmware_converter/firmware_converter.py:366 | for every string: the text before the first occurrence of a non-empty pattern is kept, the occurrence becomes the replacement, and the scan resumes after it |
| PyStrings.ReplaceBySelf | tools/firmware_converter/firmware_converter.py:366 | replacing a name by itself changes nothing |
| PyStrings.ReplaceAbsent | tools/firmware_converter/firmware_converter.py:366 | replacing a non-empty name that does not occur changes nothing |
| PyStrings.ReplaceExamples | tools/firmware_converter/firmware_converter.py:366 | every non-overlapping occurrence is replaced, left to right; an empty pattern inserts before every character and at the end |
| Harness.Next | cs35l41/baremetal/main.c:93-214 | no press, or a state outside 0..11, leaves the state; named states stay named; CHECK_PROCESSING waits for processing; PUP is entered only from CHECK_PROCESSING on a press while processing |
| Harness.BspCalls | cs35l41/baremetal/main.c:95-210 | no calls without a press; calibration boot exactly on a press in CAL_PDN, normal boot exactly on a press in PDN, a processing query exactly in CHECK_PROCESSING; gain -6 for the left device, -10 otherwise |
| Harness.NextFollowsCycle | cs35l41/baremetal/main.c:95-210 | a press moves each state to its successor in CAL_PDN→…→WAKE→CAL_PDN (CHECK_PROCESSING only while processing) |
| Harness.CycleCoversStates | cs35l41/baremetal/main.c:32-43 | the press order `Cycle` has twelve entries and visits each of the twelve states exactly once |
| Harness.Run | cs35l41/baremetal/main.c:85-219 | a run of passes from a state outside 0..11 never moves |
| Harness.RunInRange | cs35l41/baremetal/main.c:85-219 | from a named state, any run of passes stays within 0..11 |
| Harness.RunIdle | cs35l41/baremetal/main.c:85-219 | passes with no press leave the state unchanged |
| Harness.CycleAtNext | cs35l41/baremetal/main.c:95-210 | a press while processing moves one place along the cycle |
| Harness.RunAlongCycle | cs35l41/baremetal/main.c:85-219 | m presses while processing move m places along the cycle |
| Harness.FullCycle | cs35l41/baremetal/main.c:85-219 | twelve presses while processing return to CAL_PDN, and no fewer do |
| Harness.App.constructor | cs35l41/baremetal/main.c:48-49 | the harness starts in CAL_PDN with no press latched |
| Harness.App.Step | cs35l41/baremetal/main.c:87-218 | one pass latches a reported press, takes the transition of Next, issues the calls of BspCalls, and clears the latch |

## Left out

- Command-line handling (`get_args`, `validate_args`, the path checks), console output (`print_*`, `error_exit`) and the metadata text lines: these are I/O. The 4140-byte ceiling on the size limit is checked there, before any block list exists, so the model accepts any integer limit.
- Container parsing (`wmfw_parser`, `wmdr_parser`) is not part of this model. `get_memory_region_from_type` and the firmware id block's `get_adjusted_offset` come from there. They are parameters (`RegionOf`, `AdjustOffset`), and an adjustment that raises is `None`.
- Exporters (`firmware_exporter_factory`, `add_*`, `update_block_info`, `to_file`) and the byte-to-word conversion with `int.from_bytes`: output formatting by unseen code. A control handed to `add_control` is appended to a list instead.
- The wiring in `main` that builds one firmware list and one calibration list per calibration file, then rehashes each, is not modelled as its own method. Each step it calls is modelled.
- AddressResolver.Resolve: the memory map is a Python dict that also holds the key `parts`. Resolving the region name `parts` would index the part list with a width string. The model keeps regions and the part list apart, so `parts` is simply an unknown region.
- AddressResolver.NewResolver: `supported_mem_maps` has a single entry, so the order in which Python visits its keys does not matter. The model visits the list in order.
- The board support package calls in `main.c` are hardware I/O. The calls a transition issues (`bsp_audio_*`, `bsp_dut_reset`, `bsp_dut_boot`, `bsp_dut_power_*`, `bsp_dut_calibrate`, `bsp_dut_get_id`, `bsp_dut_set_dig_gain`, `bsp_dut_is_processing`, `bsp_dut_mute`, `bsp_dut_hibernate`, `bsp_dut_wake`) are kept only as `BspCall` labels. The calls made outside any transition are dropped and have no label: `bsp_initialize` and `bsp_dut_initialize` before the loop, `bsp_dut_process`, `bsp_was_pb_pressed` and `bsp_sleep` on every pass, the error callback and `exit`. What the device reports (a press, processing, its id) is an input of `Step`.
- The non-terminating `while (1)` loop of `main.c` is `App.Step`, one pass of the loop. The `Run` function chains passes.
