# x86 address selection, x86 selection helpers and MLIR Shape folders in Dafny

This project models two pieces of a compiler.

**x86 instruction selection** (`X86ISelDAGToDAG.cpp`):

- The addressing-mode record `X86ISelAddressMode`. It describes an address as
  base + index * scale + displacement, with an optional segment and at most one
  symbolic displacement. In the model it is the class `AddressMode`, updated
  field by field.
- The matcher that fills the record while it walks an address computation in
  the selection DAG:
  - `foldOffsetIntoAddress`, `matchAddressBase`, `matchWrapper`,
    `matchLoadInAddress` and `matchAdd`;
  - every opcode case of `matchAddressRecursively`, including the depth limit
    and the RIP-relative restriction;
  - the post-processing of `matchAddress`;
  - `getAddressOperands`, which flattens the record;
  - the LEA profitability score of `selectLEAAddr`.
- The pure arithmetic of several selection helpers:
  - the ENDBR marker scan;
  - the VPTERNLOG immediates;
  - the BEXTR/BZHI control words;
  - the read-modify-write opcode and immediate choice;
  - the AND-immediate shrinking and the shift-then-logic reordering;
  - the shift-amount rewrite;
  - the CMP-with-zero to TEST narrowing;
  - the condition-code flag classifiers.

**MLIR Shape dialect** (`Shape.cpp`):

- The constant folders of `concat`, `split_at`, `rank`, `get_extent`,
  `num_elements`, `from_extents`, `shape_eq`, `cstr_eq`, `cstr_broadcastable` and
  `assuming_all`.
- The verifier of `assuming_all`.
- The four type keywords.

## Conventions

- As in the source, matcher methods return `failed`, which is **true when the
  match fails**.
- SelectionDAG nodes form the datatype `Node`.
- The answers of code this model does not contain are function-valued fields of
  the datatype `Target`:
  - known bits;
  - `MaskedValueIsZero`, `haveNoCommonBitsSet` and `hasOneUse`;
  - `isOffsetSuitableForCodeModel`;
  - the flag-result use test.
- `staticallyKnownBroadcastable` is a function parameter.
- Bit patterns of up to 64 bits are `Word = seq<bool>`, bit 0 first, in module
  `X86Words`.
- Fixed-width C++ arithmetic is written out with `U64`, `S64` and `S32`
  (module `Wrappers`).

## Properties of the matcher

Every match step ensures `MatchOutcome`:

- the record stays valid (`ValidState`):
  - the scale is 1, 2, 4 or 8;
  - without an index the scale is 1 and nothing is negated;
  - at most one symbolic displacement is set;
  - external and MC symbols carry no displacement;
  - the displacement is an int32;
  - a frame-index base has no base register;
- a failed step leaves the record exactly as it was, even where the source
  first edits the record and then restores a backup;
- a successful step only fills free slots (`KeepsChosenSlots`). A base, index,
  scale, symbol or segment that is already chosen is never replaced.

Every matcher method is also proved against a function of the record, with
`Yields`: the method fails exactly when the function gives `None`, and
otherwise leaves the function's record. `RecursiveMatch`, `NodeMatch`,
`AddMatch`, `BothMatch`, `SubMatch` and `BaseMatch` specify the recursive walk
this way, so the record a match produces is determined case by case.

`MatchAddressRecursively` fails only when the base slot is taken and either
the index is taken too or the record is RIP-relative.

The SHL and MUL rewrites fold a constant into the displacement. Lemmas prove
that the rewritten address equals the original one modulo 2^32.

## Model

| member | source | states |
|---|---|---|
| `X86AddressMode.AddressMode.constructor` | llvm/lib/Target/X86/X86ISelDAGToDAG.cpp:81-84 | A new record is empty: register base with no register, no index, scale 1, displacement 0, no segment, no symbol (jump table -1), and it is valid. |
| `X86AddressMode.AddressMode.Restore` | llvm/lib/Target/X86/X86ISelDAGToDAG.cpp:1705-1707 | `AM = Backup` sets every field back to the snapshot. |
| `X86AddressMode.FoldOffsetIntoAddress` | llvm/lib/Target/X86/X86ISelDAGToDAG.cpp:1577-1614 | Fails exactly in the three refusal cases, and then leaves the record unchanged. Otherwise it sets only the displacement, to the int64 sum stored in an int32. A valid record stays valid and keeps its chosen slots. |
| `X86AddressMode.FoldedIsValid` | llvm/lib/Target/X86/X86ISelDAGToDAG.cpp:1593-1611 | An accepted fold of a record with a valid layout gives a valid record. |
| `X86AddressMode.OffsetRejected` | llvm/lib/Target/X86/X86ISelDAGToDAG.cpp:1587-1611 | The refusal test never refuses a zero sum. In 32-bit mode it refuses exactly a non-zero sum beside an external or MC symbol. |
| `X86AddressMode.Folded` | llvm/lib/Target/X86/X86ISelDAGToDAG.cpp:1611-1612 | An accepted fold changes only the displacement, and the new displacement is an int32. |
| `X86AddressMode.FoldOffsetConditions` | llvm/lib/Target/X86/X86ISelDAGToDAG.cpp:1593-1611 | In 64-bit mode an accepted non-zero sum passed the code-model check, and beside a frame index it is a 31-bit value. |
| `X86AddressMode.MatchAddressBase` | llvm/lib/Target/X86/X86ISelDAGToDAG.cpp:2422-2440 | Puts the node in the free register-base slot. Otherwise it puts it in the free index slot with scale 1. Otherwise it fails with no change. |
| `X86AddressMode.RecordSymbolLayout` | llvm/lib/Target/X86/X86ISelDAGToDAG.cpp:1679-1703 | Recording a symbol in a record without one keeps the layout valid and leaves exactly one symbol set. |
| `X86AddressMode.WrapperMatch` | llvm/lib/Target/X86/X86ISelDAGToDAG.cpp:1647-1715 | The record matchWrapper leaves, or None when it fails. It has no contract of its own; `WrapperMatchIsValid` and `WrapperCodeModelLimits` state its properties. |
| `X86AddressMode.WrapperMatchIsValid` | llvm/lib/Target/X86/X86ISelDAGToDAG.cpp:1647-1715 | A matched wrapper gives a valid record whose only symbol is the wrapped one, with the symbol's offset added to the displacement. It only matches a record without a symbol. A RIP wrapper needs a record without base and index, and makes RIP the base. |
| `X86AddressMode.WrapperCodeModelLimits` | llvm/lib/Target/X86/X86ISelDAGToDAG.cpp:1653-1670 | In 64-bit mode the large code model accepts only RIP-relative TLS wrappers, and the medium model only RIP-relative ones. |
| `X86AddressMode.MatchWrapper` | llvm/lib/Target/X86/X86ISelDAGToDAG.cpp:1647-1715 | Fails exactly when `WrapperMatch` gives nothing, and the record is then restored. Otherwise the record is `WrapperMatch`'s result. The match outcome holds. |
| `X86AddressMode.PostProcessed` | llvm/lib/Target/X86/X86ISelDAGToDAG.cpp:1725-1748 | The two rewrites keep a valid record valid. They change neither index, displacement, segment, base kind nor symbol count. |
| `X86AddressMode.PostProcessIdempotent` | llvm/lib/Target/X86/X86ISelDAGToDAG.cpp:1725-1748 | Post-processing a post-processed record changes nothing. |
| `X86AddressMode.PostProcessKeepsScaledIndex` | llvm/lib/Target/X86/X86ISelDAGToDAG.cpp:1725-1730 | (,%reg,2) becomes (%reg,%reg,1): the index register also becomes the base. |
| `X86AddressMode.GetAddressOperands` | llvm/lib/Target/X86/X86ISelDAGToDAG.cpp:263-319 | Gives the base (frame index, register or none), scale, index, displacement operand and segment. A negated index becomes a NEG of it, in the record too. |
| `X86AddressMode.DispOperandOf` | llvm/lib/Target/X86/X86ISelDAGToDAG.cpp:292-313 | The displacement operand for the record's symbol kind, or the plain displacement. It has no contract of its own; `DispOperandCarriesDisplacement` states its properties. |
| `X86AddressMode.DispOperandCarriesDisplacement` | llvm/lib/Target/X86/X86ISelDAGToDAG.cpp:292-313 | The displacement operand is symbolic exactly when the record has a symbol. It carries the integer displacement except for a jump table. |
| `X86AddressMatch.FoldedAddsOffset` | llvm/lib/Target/X86/X86ISelDAGToDAG.cpp:1593-1611 | The folded displacement equals the old displacement plus the offset modulo 2^32. |
| `X86AddressMatch.MatchLocalRecover` | llvm/lib/Target/X86/X86ISelDAGToDAG.cpp:2119-2127 | LOCAL_RECOVER of an MCSymbol is recorded exactly when the record has no symbol and no displacement. |
| `X86AddressMatch.MatchLoadInAddress` | llvm/lib/Target/X86/X86ISelDAGToDAG.cpp:1616-1645 | A load of address 0 in the GS or FS address space becomes that segment register. This happens only when no segment is set and the target uses TLS segment loads. |
| `X86AddressMatch.MatchFrameIndex` | llvm/lib/Target/X86/X86ISelDAGToDAG.cpp:2146-2154 | A frame index becomes the base exactly when the register base is free and, in 64-bit mode, the displacement is a 31-bit value. |
| `X86AddressMatch.ShlMatch` | llvm/lib/Target/X86/X86ISelDAGToDAG.cpp:2156-2185 | The record the SHL case leaves, or None. It has no contract of its own; `ShlMatchIsValid` and `ShlFoldKeepsAddress` state its properties. |
| `X86AddressMatch.ShlMatchIsValid` | llvm/lib/Target/X86/X86ISelDAGToDAG.cpp:2156-2185 | The SHL case applies exactly when the index is free and the count is 1, 2 or 3. It sets scale 2, 4 or 8 and an index of the shifted value or of its ADD operand. It changes only the scale, the index and the displacement. |
| `X86AddressMatch.ShlFoldKeepsAddress` | llvm/lib/Target/X86/X86ISelDAGToDAG.cpp:2173-2181 | For (x + c) << k with c folded, x * 2^k + disp' equals (x + c) * 2^k + disp modulo 2^32. |
| `X86AddressMatch.MatchShl` | llvm/lib/Target/X86/X86ISelDAGToDAG.cpp:2156-2185 | Fails exactly when `ShlMatch` gives nothing, and otherwise produces its record. The match outcome holds. |
| `X86AddressMatch.MulMatch` | llvm/lib/Target/X86/X86ISelDAGToDAG.cpp:2215-2253 | The record the MUL case leaves, or None. It has no contract of its own; `MulMatchIsValid` and `MulFoldKeepsAddress` state its properties. |
| `X86AddressMatch.MulMatchIsValid` | llvm/lib/Target/X86/X86ISelDAGToDAG.cpp:2215-2253 | MUL by 3, 5 or 9 applies exactly to a record with free base and index. Base and index then hold the same register and the scale is K - 1. |
| `X86AddressMatch.MulFoldKeepsAddress` | llvm/lib/Target/X86/X86ISelDAGToDAG.cpp:2237-2249 | x + x * (K - 1) + disp' equals (x + c) * K + disp modulo 2^32. |
| `X86AddressMatch.MatchMul` | llvm/lib/Target/X86/X86ISelDAGToDAG.cpp:2215-2253 | Fails exactly when `MulMatch` gives nothing, and otherwise produces its record. The match outcome holds. |
| `X86AddressMatch.ZExtValue` | llvm/lib/Target/X86/X86ISelDAGToDAG.cpp:1955 | A constant operand read as `getConstantOperandVal` does: unsigned, below 2 to the power of its width, and unchanged when already non-negative and in range. |
| `X86AddressMatch.ShiftMaskScaleLog` | llvm/lib/Target/X86/X86ISelDAGToDAG.cpp:2352-2368 | The extract, scale and BEXTR rewrites of (X >> C) & Mask, tried in order, each give a scale log of 1 to 3. The count C is zero-extended from its own width. |
| `X86AddressMatch.WideCountRefusesScale` | llvm/lib/Target/X86/X86ISelDAGToDAG.cpp:1955-1973 | An i8 count 0xFD reads as 253, so ScaleDown exceeds every leading-zero count. Without BEXTR the AND case then refuses every mask. |
| `X86AddressMatch.ScaledMaskScaleLog` | llvm/lib/Target/X86/X86ISelDAGToDAG.cpp:1855-1891 | The scaled-mask rewrite gives a scale log of 1 to 3, and only for a one-use AND. |
| `X86AddressMatch.AndScaleLog` | llvm/lib/Target/X86/X86ISelDAGToDAG.cpp:2337-2377 | The AND case needs a constant mask and gives a scale log of 1 to 3. The shift rewrites get the mask zero-extended from the AND's width, as `getConstantOperandVal` reads it. |
| `X86AddressMatch.SrlScaleLog` | llvm/lib/Target/X86/X86ISelDAGToDAG.cpp:2187-2213 | The SRL case needs a one-use SRL of an AND, with constant count and mask. The mask is zero-extended from the AND's width, and the count from its own width, before the shift. |
| `X86AddressMatch.RunMaskFoldsToScale` | llvm/lib/Target/X86/X86ISelDAGToDAG.cpp:1947-1997 | A mask of bits 2 to 29 under a shift by 2 of a 32-bit value with no known-zero bit passes every test of foldMaskAndShiftToScale, with scale log 2. |
| `X86AddressMatch.SignedMaskUnderSrlFoldsToScale` | llvm/lib/Target/X86/X86ISelDAGToDAG.cpp:2201-2210 | An i32 (X & -16) >> 2 folds to scale 4: the mask's sign bit does not spread above bit 31. |
| `X86AddressMatch.ZextScaleLog` | llvm/lib/Target/X86/X86ISelDAGToDAG.cpp:2378-2397 | The ZERO_EXTEND case needs an SHL by at most 3 whose shifted-out high bits are known zero. |
| `X86AddressMatch.ScaledIndexMatch` | llvm/lib/Target/X86/X86ISelDAGToDAG.cpp:1847-1848 | A shift rewrite sets the scale to 1, 2, 4 or 8, keeps the record valid and fills only free slots. |
| `X86AddressMatch.MatchScaledIndex` | llvm/lib/Target/X86/X86ISelDAGToDAG.cpp:1847-1848 | A rewrite applies exactly when the index is free. The rewritten node then becomes the index, scaled by 2^log. |
| `X86AddressMatch.SubCost` | llvm/lib/Target/X86/X86ISelDAGToDAG.cpp:2281-2309 | A negative count, that is a negated index, is chosen only when it saves something: a multi-use base register, a frame index, or two of symbol, displacement and segment. When the right operand costs a move it needs both. |
| `X86AddressMatch.SubMatch` | llvm/lib/Target/X86/X86ISelDAGToDAG.cpp:2255-2318 | The SUB case's record keeps the left operand's match valid, fills only free slots, and has a negated index. |
| `X86AddressMatch.MatchSub` | llvm/lib/Target/X86/X86ISelDAGToDAG.cpp:2255-2318 | Yields `SubMatch`'s record. It succeeds only when the left operand matched, the index stayed free, the record is not RIP-relative and the cost is negative. The right operand is then a negated index with scale 1. Any failure restores the record. |
| `X86AddressMatch.BothMatch` | llvm/lib/Target/X86/X86ISelDAGToDAG.cpp:1759-1771 | Matching both operands in one order, the second into the record the first left, keeps the record valid and fills only free slots. |
| `X86AddressMatch.MatchBothOperands` | llvm/lib/Target/X86/X86ISelDAGToDAG.cpp:1759-1773 | Yields `BothMatch`'s record for one operand order. A failed attempt restores the backup. |
| `X86AddressMatch.AddMatch` | llvm/lib/Target/X86/X86ISelDAGToDAG.cpp:1753-1786 | matchAdd's record keeps the record valid and fills only free slots. It never fails when base and index are free. |
| `X86AddressMatch.MatchAdd` | llvm/lib/Target/X86/X86ISelDAGToDAG.cpp:1753-1786 | Yields `AddMatch`'s record. The fallback happens exactly when both operand orders fail and base and index are free. It then sets base = operand 0, index = operand 1 and scale 1. |
| `X86AddressMatch.BaseMatch` | llvm/lib/Target/X86/X86ISelDAGToDAG.cpp:2422-2440 | matchAddressBase fails exactly when the base and index slots are both taken. Otherwise it keeps the record valid and fills only free slots. |
| `X86AddressMatch.NodeMatch` | llvm/lib/Target/X86/X86ISelDAGToDAG.cpp:2117-2414 | Each opcode case keeps the record valid and fills only free slots. Its cases use the SHL, MUL, wrapper, SUB, ADD and shift-rewrite functions, and an opcode without a case gives None. |
| `X86AddressMatch.RecursiveMatch` | llvm/lib/Target/X86/X86ISelDAGToDAG.cpp:2090-2418 | The walk keeps the record valid and fills only free slots. It fails only when the base slot is taken and either the index is taken or the record is RIP-relative. |
| `X86AddressMatch.MatchNode` | llvm/lib/Target/X86/X86ISelDAGToDAG.cpp:2117-2417 | Yields `NodeMatch`'s record, and a failed case restores the record. |
| `X86AddressMatch.MatchAddressRecursively` | llvm/lib/Target/X86/X86ISelDAGToDAG.cpp:2090-2418 | Yields `RecursiveMatch`'s record. Past depth 5, and for a non-RIP record whose opcode case does not apply, it yields matchAddressBase's record. It fails only when the base slot is taken and either the index is taken or the record is RIP-relative. A RIP-relative record within the depth limit only absorbs a constant into its displacement. |
| `X86AddressMatch.MatchAddress` | llvm/lib/Target/X86/X86ISelDAGToDAG.cpp:1719-1751 | A successful match is `RecursiveMatch`'s record from depth 0, post-processed. A failure changes nothing. The result is valid and keeps a chosen segment. |
| `X86AddressMatch.ApplyPostProcessing` | llvm/lib/Target/X86/X86ISelDAGToDAG.cpp:1723-1748 | The two rewrites, done in place, give `PostProcessed` of the record. |
| `X86AddressMatch.LeaComplexity` | llvm/lib/Target/X86/X86ISelDAGToDAG.cpp:2616-2677 | A frame-index base, or a symbol in 64-bit mode, always scores above 2, so it always gives an LEA. |
| `X86AddressMatch.LeaRejectsTwoParts` | llvm/lib/Target/X86/X86ISelDAGToDAG.cpp:2616-2679 | Base + index, or a scaled index alone, is rejected. Base + index + displacement is accepted. |
| `X86AddressMatch.OperandsOf` | llvm/lib/Target/X86/X86ISelDAGToDAG.cpp:263-319 | The operands keep the scale, the segment and the presence of an index. The base operand is empty exactly for a register base without a register. |
| `X86AddressMatch.LeaRecord` | llvm/lib/Target/X86/X86ISelDAGToDAG.cpp:2601-2611 | The record judged for an LEA is `RecursiveMatch` of the node into an empty record whose segment slot is blocked, post-processed. That match cannot fail. The record is valid and has no segment. |
| `X86AddressMatch.SelectLeaAddr` | llvm/lib/Target/X86/X86ISelDAGToDAG.cpp:2596-2683 | Accepts exactly when the complexity of `LeaRecord` is above 2, and then returns that record's operands. |
| `X86AddressFolds.ExtractScaleLog` | llvm/lib/Target/X86/X86ISelDAGToDAG.cpp:1820-1823 | The extract rewrite applies only to the mask 0xff << k with k = 8 - count, in 1 to 3. |
| `X86AddressFolds.ExtractIsByteThenScale` | llvm/lib/Target/X86/X86ISelDAGToDAG.cpp:1811-1851 | (X >> (8 - k)) & (0xff << k) equals ((X >> 8) & 0xff) << k. |
| `X86AddressFolds.MaskShiftScaleLog` | llvm/lib/Target/X86/X86ISelDAGToDAG.cpp:1955-1996 | The scale rewrite's result is the trailing-zero count of the mask, in 1 to 3. |
| `X86AddressFolds.ContiguousMaskBits` | llvm/lib/Target/X86/X86ISelDAGToDAG.cpp:1967-1968 | A mask passing the contiguity test is set exactly between its trailing and leading zeros. |
| `X86AddressFolds.MaskShiftGuardFacts` | llvm/lib/Target/X86/X86ISelDAGToDAG.cpp:1955-1996 | Without an any-extend the test establishes the scale range, contiguity, enough leading zeros, and known-zero bits equal to the masked high bits. |
| `X86AddressFolds.MaskShiftIsLongerShiftThenScale` | llvm/lib/Target/X86/X86ISelDAGToDAG.cpp:1947-2029 | For every X whose known-zero bits are zero, (X >> C) & Mask equals (X >> (C + k)) << k. |
| `X86AddressFolds.BextrScaleLog` | llvm/lib/Target/X86/X86ISelDAGToDAG.cpp:2044-2060 | The BEXTR rewrite needs a preferred BEXTR and a shifted mask, and its shift is the mask's trailing-zero count. |
| `X86AddressFolds.BextrFoldIsShiftOfExtract` | llvm/lib/Target/X86/X86ISelDAGToDAG.cpp:2034-2088 | (X >> C) & Mask equals ((X >> (C + k)) & (Mask >> k)) << k. |
| `X86AddressFolds.ScaledMaskIsMaskThenShift` | llvm/lib/Target/X86/X86ISelDAGToDAG.cpp:1859-1902 | (X << C) & Mask equals (X & (Mask >> C)) << C, with the int64 mask shifted arithmetically. |
| `X86AddressFolds.ZextOfShlIsShlOfZext` | llvm/lib/Target/X86/X86ISelDAGToDAG.cpp:2394-2403 | When the narrow shift drops only zero bits, widening before the shift gives the same value. |
| `X86Endbr.IsEndbrImm64` | llvm/lib/Target/X86/X86ISelDAGToDAG.cpp:803-822 | The loop's answer is true exactly when the immediate holds an ENDBR marker: low 24 bits 0x0F1EFA, then optional prefix bytes up to an 0xF3. |
| `X86Endbr.NoMarkerPastNonPrefix` | llvm/lib/Target/X86/X86ISelDAGToDAG.cpp:811-819 | A byte outside the prefix set before any 0xF3 rules out a marker. |
| `X86Endbr.NoMarkerWithoutF3` | llvm/lib/Target/X86/X86ISelDAGToDAG.cpp:811-821 | Prefix bytes up to bit 64 with no 0xF3 rule out a marker. |
| `X86Endbr.PlainEndbr64IsMarker` | llvm/lib/Target/X86/X86ISelDAGToDAG.cpp:803-822 | F3 0F 1E FA is a marker. |
| `X86Endbr.PrefixedEndbr64IsMarker` | llvm/lib/Target/X86/X86ISelDAGToDAG.cpp:803-822 | A 0x66 prefix between the opcode and F3 still gives a marker. |
| `X86Endbr.NonPrefixStopsScan` | llvm/lib/Target/X86/X86ISelDAGToDAG.cpp:811-819 | A 0x90 before the F3 is not a marker. |
| `X86Ternlog.InnerImm` | llvm/lib/Target/X86/X86ISelDAGToDAG.cpp:4166-4179 | The inner operation on the B and C magic constants gives the immediate of that operation of B and C. |
| `X86Ternlog.TernlogImm` | llvm/lib/Target/X86/X86ISelDAGToDAG.cpp:4166-4192 | Bit 4a+2b+c of the immediate is the value of the two-operation expression on a, b, c, in either operand order of the root. |
| `X86Ternlog.SwapAC` | llvm/lib/Target/X86/X86ISelDAGToDAG.cpp:4036-4043 | Keeps the bits in 0xa5 and computes the same function with A and C exchanged. |
| `X86Ternlog.SwapBC` | llvm/lib/Target/X86/X86ISelDAGToDAG.cpp:4047-4054 | Keeps the bits in 0x99 and computes the same function with B and C exchanged. |
| `X86Ternlog.SwapsAreInvolutions` | llvm/lib/Target/X86/X86ISelDAGToDAG.cpp:4036-4054 | Each swap applied twice gives back the immediate. |
| `X86Ternlog.LoadFoldOrder` | llvm/lib/Target/X86/X86ISelDAGToDAG.cpp:4029-4055 | The folded load always ends in the C slot. |
| `X86Ternlog.LoadFoldPreservesFunction` | llvm/lib/Target/X86/X86ISelDAGToDAG.cpp:4029-4055 | Reordering the operands with the swapped immediate never changes the computed function. |
| `X86Ternlog.BitSelectImmIsSelect` | llvm/lib/Target/X86/X86ISelDAGToDAG.cpp:4525 | 0xCA computes (A & B) \| (~A & C), that is, B where A is set and C elsewhere. |
| `X86Bextr.MatchBextrFromAndImm` | llvm/lib/Target/X86/X86ISelDAGToDAG.cpp:3627-3692 | Fires only for a low-bit mask with Shift + MaskSize at most the width, and not for Shift = MaskSize = 8. The control word is Shift \| (MaskSize << 8). The BZHI path uses Shift + MaskSize and needs MaskSize > 32. |
| `X86Bextr.BextrOp` | llvm/lib/Target/X86/X86ISelDAGToDAG.cpp:3687-3692 | BEXTR keeps `length` bits starting at `start` of the source. |
| `X86Bextr.BzhiOp` | llvm/lib/Target/X86/X86ISelDAGToDAG.cpp:3677-3686 | BZHI clears the bits from the index up. |
| `X86Bextr.BitExtractComputesShiftAndMask` | llvm/lib/Target/X86/X86ISelDAGToDAG.cpp:3651-3692 | The chosen BEXTR, or BZHI then shift, computes (X >> Shift) & Mask. |
| `X86MemFold.LoadOperand` | llvm/lib/Target/X86/X86ISelDAGToDAG.cpp:3114-3146 | The load is operand 0 or 1, is fusable, and is operand 1 only for a negate or a commutable operation. |
| `X86MemFold.FoldLoadStore` | llvm/lib/Target/X86/X86ISelDAGToDAG.cpp:3169-3307 | NEG for 0 - load. INC or DEC only for ADD or SUB of plus or minus 1 with the carry flag unused and INC/DEC allowed. imm8 never for i8 and only for int8 values. Full immediates fit the width, and imm32 for i64. |
| `X86MemFold.FlipOnlyForShorterImmediate` | llvm/lib/Target/X86/X86ISelDAGToDAG.cpp:3290-3307 | The opcode changes only when ADD and SUB trade places to take the negated constant as a shorter immediate. |
| `X86MemFold.FoldPreservesArithmetic` | llvm/lib/Target/X86/X86ISelDAGToDAG.cpp:3169-3307 | For ADD, ADC, SUB and SBB the memory instruction stores what the DAG stored. |
| `X86MemFold.FoldKeepsLogicOperation` | llvm/lib/Target/X86/X86ISelDAGToDAG.cpp:3279-3307 | AND, OR and XOR keep their operation and take the constant as immediate, unless it is an i64 constant outside int32. |
| `X86MemFold.ImmediateFormLimits` | llvm/lib/Target/X86/X86ISelDAGToDAG.cpp:3284-3307 | i8 never takes imm8. An i64 constant that neither it nor its negation fits in int32 stays in a register. |
| `X86ImmShrink.ShrinkWidth` | llvm/lib/Target/X86/X86ISelDAGToDAG.cpp:4226-4229 | The mask is widened to 32 bits when its upper half is zero, else to 64. |
| `X86ImmShrink.HighZerosOf` | llvm/lib/Target/X86/X86ISelDAGToDAG.cpp:4220-4232 | The high-zero mask fits the shrink width. |
| `X86ImmShrink.ShrinkAndImmediate` | llvm/lib/Target/X86/X86ISelDAGToDAG.cpp:4204-4265 | Rewrites only 32- and 64-bit ANDs whose high-zero bits are known zero. It drops the AND when the known bits cover its complement, and otherwise ORs the high zeros into the mask. |
| `X86ImmShrink.NotMaskIsHighZeros` | llvm/lib/Target/X86/X86ISelDAGToDAG.cpp:4252-4256 | When the mask and its high zeros cover every bit, the high zeros are the complement of the mask. |
| `X86ImmShrink.NegMaskDiffers` | llvm/lib/Target/X86/X86ISelDAGToDAG.cpp:4220-4233 | The new mask differs from the old one under the source's leading-zero guard. |
| `X86ImmShrink.ShrinkAndPreservesValue` | llvm/lib/Target/X86/X86ISelDAGToDAG.cpp:4204-4265 | For every value whose known-zero bits are zero, the rewritten AND computes the same result. |
| `X86ImmShrink.NewMaskIsSignExtended` | llvm/lib/Target/X86/X86ISelDAGToDAG.cpp:4237-4238 | The new mask is a sign-extended narrower value. |
| `X86ImmShrink.CanShrinkImmediate` | llvm/lib/Target/X86/X86ISelDAGToDAG.cpp:3933-3955 | The shrunk immediate is the constant shifted right, logically or arithmetically, by the shift amount. |
| `X86ImmShrink.PowerOf2Ceil` | llvm/lib/Target/X86/X86ISelDAGToDAG.cpp:3966-3969 | The rounded width is 8, 16, 32 or 64 and at least the given width. |
| `X86ImmShrink.MovzxNeededMask` | llvm/lib/Target/X86/X86ISelDAGToDAG.cpp:3966-3977 | The MOVZX-equivalent mask fits the operation width. |
| `X86ImmShrink.TryShrinkShlLogicImm` | llvm/lib/Target/X86/X86ISelDAGToDAG.cpp:3885-3996 | Reorders (X << C) op Imm into (X op (Imm >> C)) << C only under the source's conditions. |
| `X86ImmShrink.ShlLogicReorderPreservesValue` | llvm/lib/Target/X86/X86ISelDAGToDAG.cpp:3885-3996 | The reordered computation gives the same value. |
| `X86ImmShrink.ShlOpReorder` | llvm/lib/Target/X86/X86ISelDAGToDAG.cpp:3987-3993 | ((x << s) op val) equals ((x op c) << s) at the operation's width when c holds val's bits from s up and, except for AND, val's low s bits are clear. |
| `X86ImmShrink.ShlOpReorderThroughExtend` | llvm/lib/Target/X86/X86ISelDAGToDAG.cpp:3980-3993 | Behind an any_extend of a 32-bit shift, the AND agrees in every bit of the width and OR and XOR in the low 32 bits. |
| `X86ShiftAmount.CountModulus` | llvm/lib/Target/X86/X86ISelDAGToDAG.cpp:3806-3806 | The hardware reads the count modulo 64 for 64-bit shifts and modulo 32 otherwise. |
| `X86ShiftAmount.TryShiftAmountMod` | llvm/lib/Target/X86/X86ISelDAGToDAG.cpp:3798-3849 | X + N and X - N shift by X when N is a multiple of the size. N - X with N a non-zero multiple shifts by -X. Nothing else is rewritten. |
| `X86ShiftAmount.RewriteKeepsShiftCount` | llvm/lib/Target/X86/X86ISelDAGToDAG.cpp:3819-3861 | The rewritten count, truncated to 8 bits, selects the same shift as the original one. |
| `X86CmpTest.PeekThroughTruncate` | llvm/lib/Target/X86/X86ISelDAGToDAG.cpp:5344-5346 | The operand the narrowing inspects: a one-use truncate is looked through. It has no contract of its own; `SelectCmpWithZero` and `TestPreservesFlags` state its use. |
| `X86CmpTest.NarrowWidth` | llvm/lib/Target/X86/X86ISelDAGToDAG.cpp:5396-5434 | The TEST is narrowed to 8, 16 or 32 bits only when the mask fits. 16 bits only when optimising for size. A sign bit that moves requires no sign-flag use. |
| `X86CmpTest.SelectCmpWithZero` | llvm/lib/Target/X86/X86ISelDAGToDAG.cpp:5361-5434 | The choice between BEXTR, shift and narrowed TEST, with the conditions each choice needs. |
| `X86CmpTest.TestFlags` | llvm/lib/Target/X86/X86ISelDAGToDAG.cpp:5361-5434 | ZF is set exactly when the low w bits are zero, and SF is bit w - 1. |
| `X86CmpTest.ShrTestPreservesZero` | llvm/lib/Target/X86/X86ISelDAGToDAG.cpp:5361-5373 | For a high mask, testing X >> tz gives the same zero flag as testing X & Mask. |
| `X86CmpTest.ShlTestPreservesZero` | llvm/lib/Target/X86/X86ISelDAGToDAG.cpp:5374-5384 | For a low mask, testing X << lz gives the same zero flag as testing X & Mask. |
| `X86CmpTest.NarrowTestPreservesFlags` | llvm/lib/Target/X86/X86ISelDAGToDAG.cpp:5396-5434 | A narrowed TEST gives the same zero flag, and the same sign flag when that flag is used. |
| `X86CmpTest.TestPreservesFlags` | llvm/lib/Target/X86/X86ISelDAGToDAG.cpp:5361-5434 | Every chosen TEST form gives the flags the CMP with zero gave, as far as they are used, when a looked-through truncate's mask fits the compared width. |
| `X86CmpTest.TruncatedWideMaskChangesZeroFlag` | llvm/lib/Target/X86/X86ISelDAGToDAG.cpp:5344-5346 | Without that condition the i8 compare of trunc (and i32 x, 0x1FF) under minsize becomes a 16-bit TEST whose zero flag differs for x = 0x100. |
| `X86CmpTest.HighByteMaskBecomesShift` | llvm/lib/Target/X86/X86ISelDAGToDAG.cpp:5361-5373 | An i64 mask of the top byte with only ZF used becomes a shift. |
| `X86CondCodes.OnlyUsesZeroFlag` | llvm/lib/Target/X86/X86ISelDAGToDAG.cpp:2844-2845 | True exactly for the conditions that read only ZF. |
| `X86CondCodes.HasNoSignFlagUse` | llvm/lib/Target/X86/X86ISelDAGToDAG.cpp:2880-2884 | True exactly for the conditions that do not read SF. |
| `X86CondCodes.MayUseCarryFlag` | llvm/lib/Target/X86/X86ISelDAGToDAG.cpp:2895-2909 | True exactly for the conditions that read CF. |
| `X86CondCodes.ZeroFlagOnlyImpliesNoSignNoCarry` | llvm/lib/Target/X86/X86ISelDAGToDAG.cpp:2844-2909 | A condition reading only ZF reads neither SF nor CF. |
| `ShapeDialect.PrintType` | mlir/lib/Dialect/Shape/IR/Shape.cpp:138-145 | Every type prints as one of the four keywords. |
| `ShapeDialect.ParseType` | mlir/lib/Dialect/Shape/IR/Shape.cpp:119-135 | Parses exactly the four keywords. A missing keyword or any other keyword gives a null type with its error. |
| `ShapeDialect.PrintThenParse` | mlir/lib/Dialect/Shape/IR/Shape.cpp:119-145 | Parsing a printed type gives it back. |
| `ShapeDialect.ParseThenPrint` | mlir/lib/Dialect/Shape/IR/Shape.cpp:119-145 | Printing a parsed type gives back its keyword. |
| `ShapeDialect.ConcatFold` | mlir/lib/Dialect/Shape/IR/Shape.cpp:335-347 | Folds exactly when both shapes are constant, to the lhs extents followed by the rhs extents. |
| `ShapeDialect.SplitAtFold` | mlir/lib/Dialect/Shape/IR/Shape.cpp:846-865 | Folds exactly when both operands are constant and -rank <= split <= rank. The two parts concatenate to the input, and a negative split counts from the back. |
| `ShapeDialect.ConcatThenSplit` | mlir/lib/Dialect/Shape/IR/Shape.cpp:335-347 | Splitting a concatenation at the length of its first part gives back both parts. |
| `ShapeDialect.SplitThenConcat` | mlir/lib/Dialect/Shape/IR/Shape.cpp:846-865 | Concatenating the parts of a split gives back the shape. |
| `ShapeDialect.NegativeSplitFromBack` | mlir/lib/Dialect/Shape/IR/Shape.cpp:857-860 | Splitting at k - rank is splitting at k. |
| `ShapeDialect.RankFold` | mlir/lib/Dialect/Shape/IR/Shape.cpp:665-672 | Folds exactly for a constant shape, to its number of extents. |
| `ShapeDialect.RankOfConcat` | mlir/lib/Dialect/Shape/IR/Shape.cpp:665-672 | The rank of a concatenation is the sum of the ranks. |
| `ShapeDialect.ConstantDim` | mlir/lib/Dialect/Shape/IR/Shape.cpp:627-633 | A constant dim operand gives its int64 value back, whether it comes from const_size or from a std constant. |
| `ShapeDialect.GetExtentFoldAsWritten` | mlir/lib/Dialect/Shape/IR/Shape.cpp:635-645 | As written: a negative dim passes the guard and reads out of bounds. Non-negative dims below the rank give that extent. |
| `ShapeDialect.GetExtentNegativeDimReadsOutOfBounds` | mlir/lib/Dialect/Shape/IR/Shape.cpp:642-644 | Dim -1 on a one-extent shape reads element 2^64 - 1. |
| `ShapeDialect.GetExtentFold` | mlir/lib/Dialect/Shape/IR/Shape.cpp:635-645 | Folds exactly when the shape and dim are constant and 0 <= dim < rank, to that extent, and never reads out of bounds. |
| `ShapeDialect.GetExtentGuardOnlyAddsNegativeCase` | mlir/lib/Dialect/Shape/IR/Shape.cpp:642-644 | The corrected fold agrees with the written one on every non-negative dim. |
| `ShapeDialect.GetExtentOfConcat` | mlir/lib/Dialect/Shape/IR/Shape.cpp:635-645 | An extent of the right part of a concatenation is read at offset rank(lhs). |
| `ShapeDialect.NumElementsFold` | mlir/lib/Dialect/Shape/IR/Shape.cpp:724-736 | The loop folds exactly a constant shape, to the product of its extents wrapped to int64. |
| `ShapeDialect.NumElementsOfEmpty` | mlir/lib/Dialect/Shape/IR/Shape.cpp:731-733 | An empty shape has one element. |
| `ShapeDialect.NumElementsExact` | mlir/lib/Dialect/Shape/IR/Shape.cpp:731-735 | Without overflow the fold is the exact product. |
| `ShapeDialect.ProductOfConcat` | mlir/lib/Dialect/Shape/IR/Shape.cpp:724-736 | The element count of a concatenation is the product of the counts. |
| `ShapeDialect.FromExtentsFold` | mlir/lib/Dialect/Shape/IR/Shape.cpp:554-562 | The loop folds exactly when every extent is constant, to the extents in operand order. |
| `ShapeDialect.ShapeEqFold` | mlir/lib/Dialect/Shape/IR/Shape.cpp:523-531 | Folds exactly when both shapes are constant, to their equality. |
| `ShapeDialect.CstrEqFold` | mlir/lib/Dialect/Shape/IR/Shape.cpp:475-484 | Gives a passing witness exactly when every operand is constant and equal to the first, and never a failing one. |
| `ShapeDialect.CstrEqAgreesWithShapeEq` | mlir/lib/Dialect/Shape/IR/Shape.cpp:475-531 | On two operands cstr_eq passes exactly when shape_eq folds to true. |
| `ShapeDialect.GetShapeVec` | mlir/lib/Dialect/Shape/IR/Shape.cpp:406-419 | Extents are known exactly for shape_of of a ranked tensor and for const_shape. |
| `ShapeDialect.CstrBroadcastableFold` | mlir/lib/Dialect/Shape/IR/Shape.cpp:430-463 | Passes whenever either operand is a constant empty shape. Otherwise it passes exactly when the constant or the defining-op extents are known broadcastable. It never gives a failing witness. |
| `ShapeDialect.AssumingAllOutcome` | mlir/lib/Dialect/Shape/IR/Shape.cpp:272-291 | The number of operands left is at most the number given. |
| `ShapeDialect.AssumingAllErasesOnlyConstants` | mlir/lib/Dialect/Shape/IR/Shape.cpp:276-289 | The fold keeps a prefix of the operands and erases only constants. |
| `ShapeDialect.AssumingAllPassesIffAllTrue` | mlir/lib/Dialect/Shape/IR/Shape.cpp:272-291 | It folds to true exactly when every operand is a passing constant. |
| `ShapeDialect.AssumingAllFailsIffLastNonPassingIsFalse` | mlir/lib/Dialect/Shape/IR/Shape.cpp:272-291 | It folds to false exactly when a failing constant is followed only by passing constants. |
| `ShapeDialect.AssumingAllFoldIsSound` | mlir/lib/Dialect/Shape/IR/Shape.cpp:272-291 | A folded value is the run-time conjunction of the witnesses. The erased operands never change that conjunction. |
| `ShapeDialect.AssumingAllOp.Verify` | mlir/lib/Dialect/Shape/IR/Shape.cpp:293-299 | An op with no operands is rejected. |
| `ShapeDialect.AssumingAllOp.Fold` | mlir/lib/Dialect/Shape/IR/Shape.cpp:272-291 | The reverse loop returns the fold's outcome, and leaves on the op a prefix of its operands of the length `AssumingAllOutcome` gives. |

## Left out

- Graph surgery is not modelled: `ReplaceAllUsesWith`, `insertDAGNode`, node
  creation, `RemoveDeadNode` and the `HandleSDNode` tracking of CSE'd nodes. A
  rewritten index register is the node `Derived(n)`. Each rewrite's value
  identity is proved separately in `X86AddressFolds`.
- The following code is not part of this model. Its answers are fields of
  `Target`:
  - known bits, `MaskedValueIsZero`, `haveNoCommonBitsSet` and use counts;
  - `isOffsetSuitableForCodeModel`;
  - the subtarget and target-OS queries;
  - the flag-use test of `selectLEAAddr`.
- `X86AddressMatch.IsBaseWithConstantOffset` stands for
  `SelectionDAG::isBaseWithConstantOffset`, which is not part of this model. It
  accepts an ADD or an OR with a constant right operand. For the OR it asks the
  `haveNoCommonBitsSet` oracle where the library asks that the constant's bits
  be known zero in the other operand.
- `X86AddressMatch.AddOfFlagSetters` stands for the `isMathWithFlags` test of
  `selectLEAAddr` (llvm/lib/Target/X86/X86ISelDAGToDAG.cpp:2646-2671): an ADD
  whose two operands are X86 ADD, SUB, ADC or SBB nodes with a live flag
  result. The opcode and use test is the oracle `mathWithLiveFlags`.
- `WellFormedTarget` assumes every scalar value is i8, i16, i32 or i64, as it
  is after type legalization, and that an ANY_EXTEND does not narrow. The
  source's size assertions are not modelled.
- `X86AddressFolds.MaskShiftIsLongerShiftThenScale`: the value identity is
  proved only without an ANY_EXTEND and for counts below 64. With an
  ANY_EXTEND the source also changes the extension into a ZERO_EXTEND, and that
  graph change is not modelled.
- `X86CmpTest.TestPreservesFlags` assumes that a mask seen through a truncate
  has no set bit above the compared width. The source does not check this. It
  relies on earlier DAG combines, which clear the mask bits the truncate does
  not demand. `TruncatedWideMaskChangesZeroFlag` shows a mask for which the
  chosen TEST reads a bit the compare does not.
- `X86AddressMatch.ShlFoldKeepsAddress`: the address is proved equal modulo
  2^32 only. That the int32 displacement is exact in 64-bit mode rests on the
  code-model oracle.
- `X86AddressMatch.MulFoldKeepsAddress`: the same modulo-2^32 limit applies.
- `getAddressOperands` drops a jump table's displacement. The model keeps that
  behaviour, and `DispOperandCarriesDisplacement` excludes the jump-table case.
- `selectLEAAddr` reads the opcode of `N` after matching. The model uses the
  node as it was before matching.
- Vector (gather/scatter) addresses, `selectAddr`'s load and segment handling
  and the TLS address selectors are not modelled.
- The record's six symbol fields are grouped in one value, `SymbolFields`. The
  fields are the same; only the grouping differs.
- The debug dump, statistics and command-line options have no effect on the
  modelled results and are left out.
- `ShapeDialect.CstrBroadcastableFold`: `staticallyKnownBroadcastable` is a
  parameter, and `getBroadcastedShape` is not part of this model.
- MLIR attribute construction, the op builders and the parsers and printers of
  individual ops are not modelled.

## Findings

| source | as written | input that shows it | evidently intended | confidence | as-written member | corrected member |
|---|---|---|---|---|---|---|
| mlir/lib/Dialect/Shape/IR/Shape.cpp:642-644 | Only `dim >= numElements` is refused, then the dim is cast to `uint64_t`. | shape `[4]`, dim -1: the fold reads element 2^64 - 1. | No fold for a negative dim (0 <= dim < rank). | not executed | `ShapeDialect.GetExtentNegativeDimReadsOutOfBounds` | `ShapeDialect.GetExtentFold` |
