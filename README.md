# CaloValid helpers: trigger-bit decoding and region mapping

CaloValid is a Fun4All quality-assurance module for the sPHENIX calorimeters
(EMCal, inner and outer HCal). For every event it decodes the global level-1
scaled trigger vector into the list of fired trigger bits, and it classifies
EMCal towers into detector regions. A region is a 64-way sector and a 6-way
interface-board (IB) band. The pair (trigger bit, region) keys the pi0-mass
accumulation. This project models the inline helpers of `CaloValid.h` that do
this work, and proves what they compute:

- `trigger_bits.dfy`, module `TriggerBits`: the specification of the decoder.
  `Fired(v)` is the ascending list of set-bit indices of a `bv64`. Lemmas prove
  that a bit is listed exactly when it is set, that the list is strictly
  ascending within [0, 63], and that its length is the population count (the
  number of indices `b < 64` whose bit is set).
- `region_map.dfy`, module `RegionMap`: `custom_sector_mapping` and
  `custom_ib_board` as functions over C++ `unsigned int` / `int` ranges. Their
  contracts prove the tables against closed forms. Lemmas prove the mirror
  symmetry of the IB bands, the joint validity of sector and board, and that the
  (sector, board) key names exactly one 8 x 8 tower tile.
- `calo_valid.dfy`, module `CaloValidQA`: class `CaloValid` with the `_range`
  and `m_debug` fields, their defaults and setters, and the two loop helpers
  `extractTriggerBits` and `checkTriggerCondition` as methods. Each method is
  proved against the specification above.

The tower grid is taken as 96 (eta) x 256 (phi). Two things in the header give
this size. The EMCal channel arrays hold 128 * 192 = 96 * 256 entries. The
comment on the upper-half sector puts `phi / 8` in 0..31. The sector lemmas
assume `phi < 256`. For larger phi the function still returns `32 + phi / 8` or
`phi / 8`, as the source does, and the two halves then overlap.

## Model

| member | source | states |
|---|---|---|
| CaloValidQA.CaloValid.constructor | CaloValid.h:262-263 | a new module has timing-cut half-width 1 and debug tracing off |
| CaloValidQA.CaloValid.SetTimingCutWidth | CaloValid.h:48 | sets `_range` to the argument and leaves `m_debug` unchanged |
| CaloValidQA.CaloValid.SetDebug | CaloValid.h:49 | sets `m_debug` to the argument and leaves `_range` unchanged |
| CaloValidQA.CaloValid.ExtractTriggerBits | CaloValid.h:62-81 | the scan from bit 0 to bit 63 returns `Fired(v)`: bit b is listed iff `(v >> b) & 1 == 1`, the list is strictly ascending in [0, 63], its length is the popcount, and neither `entry` nor `m_debug` affects it |
| CaloValidQA.CaloValid.CheckTriggerCondition | CaloValid.h:83-101 | the linear search with early return yields true exactly when the bit index occurs in the list |
| TriggerBits.FiredBelowMembers | CaloValid.h:73-79 | after n loop iterations, index b has been appended iff b < n and bit b is set |
| TriggerBits.FiredBelowAscending | CaloValid.h:73-79 | after n loop iterations, the list is strictly ascending and every entry is below n |
| TriggerBits.FiredBelowLength | CaloValid.h:73-79 | after n loop iterations, the list length equals the number of set bits below n |
| TriggerBits.FiredSpec | CaloValid.h:62-81 | the decoded list has exactly the set bits as members, ascends strictly with no duplicates, lies in [0, 63], and its length is the popcount of the vector |
| TriggerBits.FiredOfZero | CaloValid.h:62-81 | an all-zero vector decodes to the empty list |
| TriggerBits.FiredOfBitsZeroAndTwo | CaloValid.h:73-79 | the vector 0b101 decodes to exactly [0, 2] |
| TriggerBits.FiredMembership | CaloValid.h:62-101 | decoding then testing membership of x gives true exactly when 0 <= x < 64 and bit x of the vector is set |
| RegionMap.CustomSectorMapping | CaloValid.h:106-121 | the sector is -1 exactly when eta >= 96 and is non-negative otherwise; on the 96 x 256 grid it lies in [0, 63], is below 32 exactly in the upper half (eta >= 48), and its value mod 32 is the phi band phi / 8 |
| RegionMap.CustomIbBoard | CaloValid.h:123-147 | the twelve-row table equals (eta - 48) / 8 for 48 <= eta < 96, (47 - eta) / 8 for 0 <= eta < 48, and -1 otherwise (negative eta included) |
| RegionMap.IbBoardRange | CaloValid.h:130-141 | an in-range eta gets a board in [0, 5] |
| RegionMap.IbBoardIgnoresPhi | CaloValid.h:123-147 | the board does not depend on phi |
| RegionMap.IbBoardMirror | CaloValid.h:130-141 | eta and 95 - eta get the same board, so the two halves are mirrored |
| RegionMap.SectorAndBoardJointlyValid | CaloValid.h:111-145 | for 0 <= eta < 2^31, the sector is non-negative iff the board is, and the sector is -1 iff the board is -1 |
| RegionMap.SectorIdentifiesHalfAndPhiBand | CaloValid.h:112-119 | on the 96 x 256 grid, two towers share a sector iff they are in the same half and in the same phi band |
| RegionMap.RegionKeyIdentifiesTile | CaloValid.h:106-147 | on the 96 x 256 grid, two towers share the key (sector, board) iff they are in the same 8-wide eta band and the same 8-wide phi band |

## Left out

- `Init`, `process_event`, `End`, `process_g4hits`, `process_g4cells`, `process_towers`, `process_clusters` (CaloValid.h:29-43): their bodies are not in the header. They are Fun4All lifecycle hooks that do node-tree I/O.
- `LogYHist2D`, `createHistos`, `MirrorHistogram`, `getHistoPrefix` (CaloValid.h:54-57, 151-155): they are declared only, and they work on ROOT histogram objects with floating-point bin contents.
- The histogram and profile members (CaloValid.h:162-258) are left out. They point into ROOT, and their filling happens in code that is not shown.
- The trigger lists `triggerIndices` and `trigOfInterest` and the counter `_eventcounter` (CaloValid.h:165, 254, 261) are left out. Only the unseen event loop uses them.
- The `std::cout` debug traces (CaloValid.h:67-71, 89-99) are console output. The model keeps only the returned values. `m_debug` is stored but never read by the model.
- The constructor's `name` argument and the output file names (CaloValid.h:24, 266-267) are left out. The name belongs to the SubsysReco base class, and the file names only concern persistence.
- CaloValidQA.CaloValid.ExtractTriggerBits: `std::vector<int>` becomes `seq<int>`. Element values are 0..63, so the int conversion of `bit` is exact.
