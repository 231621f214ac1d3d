# Verified core of the patch framework and its hook engine

A Dafny model of the hard parts of two programs that work together: Dobby, an inline-hook engine, and the Java patch
framework above it. `dafny verify dfyconfig.toml` checks the whole project.

| files | what they model |
|---|---|
| `Arm64Machine`, `Arm64Relocator`, `Arm64Decoding`, `Arm64Layout`, `Arm64Simulation`, `Arm64Block`, `Arm64Guards`, `Arm64Limits` | the ARM64 relocator as a binary translator, down to instruction words, and its simulation theorem (sections C4.1 and C6.2 of the Arm Architecture Reference Manual, DDI 0487) |
| `ThumbMachine`, `ThumbRelocator`, `ThumbSimulation`, `ThumbAssembler`, `ThumbLinking` | the Thumb-2 relocation sequences, the branch encoder and the label linker (section F5.1 of DDI 0487) |
| `X64Relocator` | the x64 decode loop, the bytes it emits and the retry with a larger chunk |
| `Leb128`, `ExportTrie`, `ExportTrieMap` | LEB128 readers (section 7.6 of DWARF version 4) and the Mach-O export-trie walk as the lookup of a finite map |
| `HookRing`, `HookMemory`, `HookEngine` | the ring of hooks, saving, patching and restoring code bytes |
| `MemoryArena`, `NearMemoryArena` | the two page arenas |
| `PatchSet`, `PatchRegistry`, `PatchKernel`, `HookChain` | patch order, copy-on-write sets, the registry over every run, and the before/original/after chain |
| `FormatEntry`, `Logcat` | the cycle-safe printer and the call logger |
| `VariableCache` | the list-backed cache and its file form |
| `Common`, `Bytes`, `Residues` | a value that may be missing; bytes and little-endian integers; numbers modulo 2^32 |

Code that updates things in place is a class or a method with loops, proved against a function; the properties are
lemmas about that function over every input, every run or every reachable state. Automatic induction is switched off
in every lemma, so each proof by induction is the one written out.

## How to read the model

- Machine state. Copied ARM64 instructions run under an arbitrary semantics `sem`, which sees the word and the
  registers but not the program counter. `Guard` lists what the block theorem needs of an instruction in the state in
  which it is executed; for literal loads, b.cond and copied register loads the per-instruction lemmas show that it is
  exact. A branch back into the block counts as
  leaving it: both machines stand at the same address. Code is below 1 MiB, the reach of a literal load.
- Code positions are counted in words (ARM64) or halfwords (Thumb), and Thumb code is placed at a word-aligned address.
- The x86 decoder, the operating system's answers, chunk allocation, hooks, formats, class names, object equality and
  `String.format` are parameters. Object equality in the printer only has to be reflexive.
- The memory of the hook engine is one array of bytes; page permissions and cache clearing have no effect on it.
- Addresses in the arenas and in the x64 operands are unbounded integers, so no sum wraps.
- `Arrays.sort` is stable and is called on an array that is sorted but for its last element, so it is an insertion.
- `UNIMPLEMENTED` and `CHECK` stop the process, as they do where `LOGGING_DEBUG` is defined, which the build's default
  does (`Dobby/CMakeLists.txt:59-61`); without it `FATAL` is empty (`Dobby/external/logging/logging/logging.h:53-77`) and the code goes
  on. "Stops" below means the former.
- The `assert`s in the LEB128 readers state what has just been tested and never stop the process; a read past the end of
  memory is a fault of the model.

## Where the code does not do what it is for

Each of these is proved, with the exact condition where the property holds for part of the inputs.

- A 32-bit ARM64 literal load is relocated with the 64-bit opcode (`assembler-arm64.h:472-474`), whatever register is
  named, so the high half is the next word of memory.
- SIMD literal loads are taken for general-purpose ones, and `b.al` and `b.nv` are not inverted by flipping a bit.
- Thumb LDR.W into PC jumps to the literal's address, and the offset of any LDR.W literal is rounded only after it is
  added.
- Half of the Thumb ADR encodings are copied and compute from the new place; for the others the address is not rounded
  and the skip lands on the literal. A MOVW whose four high bits are set can be taken for ADR.
- The code for a Thumb-2 b.cond is right only where a forward branch is taken: a branch that is not taken lands on the
  literal, and a backward one keeps its sign bit and goes almost 1 MiB back.
- `read_sleb128` needs undefined shifts for the values below -2^62.
- A Thumb load back to a label that is already bound misses it, and from 4096 bytes on the distance spills into the
  register (the relocator never emits one).
- The x64 relocator measures from instruction starts, so operands are right only if the length does not change: two-byte
  jumps never are, nor are operands followed by an immediate. A short jump's new distance is also cut to 8 bits.
- If relocated code cannot be allocated, nothing is saved but the code is patched all the same.
- The registry compares members by identity and the kernel by equality, so two objects for one member fall apart.
- The arena accepts requests above a page. The near arena loops for requests of a page or more, indexes outside the
  layout when the first or last region lies in its window, and maps the lowest page of the window without looking.
- Loading a cache over older bindings of the same keys hides them only until the next save and load, and stray bytes at
  the end of a file become an entry with an empty name.

## Model

| member | source | states |
|---|---|---|
| `Arm64Block.BlockSimulates` | killer/src/main/cpp/Dobby/source/InstructionRelocation/arm64/ARM64InstructionRelocation.cc:124-316 | From any instruction of any block, in any state, the relocated code leaves at the same address as the original with equal registers, flags and memory, except X17, the private bytes of the two copies, and LR, which after a call holds the image of the next instruction; the original leaves off the end or by its last executed instruction. Each executed instruction must pass `Guard` in the state in which it runs |
| `Arm64Block.InstructionMatches` | killer/src/main/cpp/Dobby/source/InstructionRelocation/arm64/ARM64InstructionRelocation.cc:136-288 | One instruction keeps the two machines matched at an instruction and its image, or makes them leave together |
| `Arm64Block.JumpBackRuns` | killer/src/main/cpp/Dobby/source/core/modules/codegen/codegen-arm64.cc:10-19 | After the last instruction two steps of the relocated code stand at the address behind the block, with nothing changed but X17 |
| `Arm64Simulation.PieceSimulates` | killer/src/main/cpp/Dobby/source/InstructionRelocation/arm64/ARM64InstructionRelocation.cc:139-270 | The words emitted for any guarded instruction, at any place, do what the instruction did where it stood |
| `Arm64Simulation.LoadLiteralSimulates` | killer/src/main/cpp/Dobby/source/InstructionRelocation/arm64/ARM64InstructionRelocation.cc:139-156 | Both directions: the relocated literal load is right if and only if it is a 64-bit one, or the word after the literal is zero, or the register is XZR or X17 |
| `Arm64Simulation.PcRelativeSimulates` | killer/src/main/cpp/Dobby/source/InstructionRelocation/arm64/ARM64InstructionRelocation.cc:157-175 | ADR and ADRP leave the value the original computes and go on at the next image |
| `Arm64Simulation.BranchSimulates` | killer/src/main/cpp/Dobby/source/InstructionRelocation/arm64/ARM64InstructionRelocation.cc:177-191 | B and BL reach the original target; BL leaves the image of the next instruction in LR |
| `Arm64Simulation.TestBranchSimulates` | killer/src/main/cpp/Dobby/source/InstructionRelocation/arm64/ARM64InstructionRelocation.cc:192-215 | TBZ and TBNZ, inverted over a jump through a literal, go the original way in both cases |
| `Arm64Simulation.CompareBranchSimulates` | killer/src/main/cpp/Dobby/source/InstructionRelocation/arm64/ARM64InstructionRelocation.cc:217-241 | CBZ and CBNZ likewise, at both widths |
| `Arm64Simulation.CondBranchSimulates` | killer/src/main/cpp/Dobby/source/InstructionRelocation/arm64/ARM64InstructionRelocation.cc:242-266 | Both directions: b.cond is right if and only if its condition is not AL or NV, or its target happens to be the next image |
| `Arm64Simulation.CopySimulates` | killer/src/main/cpp/Dobby/source/InstructionRelocation/arm64/ARM64InstructionRelocation.cc:267-270 | A copied instruction that in this state depends neither on X17 nor on private memory does the same at its image |
| `Arm64Guards.RegisterLoadGuard` | killer/src/main/cpp/Dobby/source/InstructionRelocation/arm64/ARM64InstructionRelocation.cc:267-270 | Both directions: a copied load through a register other than X17 passes the guard if and only if the eight bytes it reads in this state are public, or its result goes to XZR or X17 |
| `Arm64Guards.StoreIsGuarded` | killer/src/main/cpp/Dobby/source/InstructionRelocation/arm64/ARM64InstructionRelocation.cc:267-270 | A copied store passes the guard if the bytes it writes in this state are public and neither address nor data come from X17 |
| `Arm64Guards.PrologueIsGuarded` | killer/src/main/cpp/Dobby/source/InstructionRelocation/arm64/ARM64InstructionRelocation.cc:267-270 | The usual prologue, pushing FP and LR and setting FP, runs under the guard wherever its two stack slots are public |
| `Arm64Simulation.MovRuns` | killer/src/main/cpp/Dobby/source/core/modules/assembler/assembler-arm64.h:641-652 | The four emitted moves leave the 64-bit value in the register and change nothing else |
| `Arm64Simulation.LiteralBranches` | killer/src/main/cpp/Dobby/source/core/modules/assembler/assembler-arm64.h:630-639 | A load linked to its literal and a register branch go to the literal; the linking form leaves the next place in LR |
| `Arm64Layout.PieceStands` | killer/src/main/cpp/Dobby/source/core/modules/assembler/assembler-arm64.h:675-683 | After binding, every instruction has its words at its image, and its load is linked to a place that holds its literal |
| `Arm64Layout.JumpBackStands` | killer/src/main/cpp/Dobby/source/core/modules/codegen/codegen-arm64.cc:10-19 | After binding, the jump back stands behind the last piece with the address behind the block as its literal |
| `Arm64Layout.LinkReaches` | killer/src/main/cpp/Dobby/source/core/modules/assembler/assembler-arm64.h:72-95 | A linked load decodes to a 64-bit literal load that reads exactly the place it was linked to |
| `Arm64Layout.BindLinks` | killer/src/main/cpp/Dobby/source/core/modules/assembler/assembler-arm64.h:675-683 | However many labels are bound, each load stays linked to its own pool entry and the entry holds its data |
| `Arm64Layout.BindKeeps` | killer/src/main/cpp/Dobby/source/core/modules/assembler/assembler-arm64.h:72-95 | Binding changes no word of the buffer that no label links |
| `Arm64Layout.LiteralsIncrease` | killer/src/main/cpp/Dobby/source/InstructionRelocation/arm64/ARM64InstructionRelocation.cc:179-263 | The labels link loads at strictly increasing places, so no two share one |
| `Arm64Relocator.GenRelocateCodeAndBranch` | killer/src/main/cpp/Dobby/source/InstructionRelocation/arm64/ARM64InstructionRelocation.cc:124-316 | The loop yields the relocated block of the specification, and stops if and only if the architecture decodes some word of the block as a literal load with opc 2 or 3 |
| `Arm64Block.GuardedNotRefused` | killer/src/main/cpp/Dobby/source/InstructionRelocation/arm64/ARM64InstructionRelocation.cc:139-156 | A block whose instructions all pass the guard in some state is never refused |
| `Arm64Relocator.TurboAssembler.RelocateOne` | killer/src/main/cpp/Dobby/source/InstructionRelocation/arm64/ARM64InstructionRelocation.cc:139-270 | One turn of the loop stops if and only if the word is a literal load with opc 2 or 3, and otherwise appends the words and the literal that the specification gives |
| `Arm64Relocator.TurboAssembler.RelocBind` | killer/src/main/cpp/Dobby/source/core/modules/assembler/assembler-arm64.h:675-683 | Binding all labels in turn gives the bound buffer of the specification |
| `Arm64Relocator.TurboAssembler.LiteralLdrBranch` | killer/src/main/cpp/Dobby/source/core/modules/codegen/codegen-arm64.cc:10-19 | Appends the load, the branch and the address, linked |
| `Arm64Decoding.LoadLiteralDecodes` | killer/src/main/cpp/Dobby/source/InstructionRelocation/arm64/ARM64InstructionRelocation.cc:139-142 | The mask picks exactly the architecture's literal loads, with the architecture's offset, register and size |
| `Arm64Decoding.PcRelativeDecodes` | killer/src/main/cpp/Dobby/source/InstructionRelocation/arm64/ARM64InstructionRelocation.cc:157-168 | The mask picks exactly ADR and ADRP; the decoded immediate is the architecture's |
| `Arm64Decoding.BranchDecodes` | killer/src/main/cpp/Dobby/source/InstructionRelocation/arm64/ARM64InstructionRelocation.cc:177-190 | The mask picks exactly B and BL, with the architecture's offset and link bit |
| `Arm64Decoding.TestBranchDecodes` | killer/src/main/cpp/Dobby/source/InstructionRelocation/arm64/ARM64InstructionRelocation.cc:192-193 | The mask picks exactly TBZ and TBNZ, with the architecture's offset |
| `Arm64Decoding.TestBranchInverts` | killer/src/main/cpp/Dobby/source/InstructionRelocation/arm64/ARM64InstructionRelocation.cc:197-205 | The rewritten word is the opposite test of the same bit of the same register, three instructions ahead |
| `Arm64Decoding.CompareBranchInverts` | killer/src/main/cpp/Dobby/source/InstructionRelocation/arm64/ARM64InstructionRelocation.cc:220-228 | The rewritten word is the opposite comparison of the same register at the same width, three instructions ahead |
| `Arm64Decoding.CondBranchDecodes` | killer/src/main/cpp/Dobby/source/InstructionRelocation/arm64/ARM64InstructionRelocation.cc:242-243 | Every b.cond of the architecture is picked, with its condition and offset |
| `Arm64Decoding.CondBranchInverts` | killer/src/main/cpp/Dobby/source/InstructionRelocation/arm64/ARM64InstructionRelocation.cc:245-253 | The rewritten word is b.cond with bit 0 of the condition flipped, three instructions ahead |
| `Arm64Decoding.InvertedCondition` | killer/src/main/cpp/Dobby/source/InstructionRelocation/arm64/ARM64InstructionRelocation.cc:247-249 | Flipping bit 0 negates each of the fourteen real conditions in every flag state |
| `Arm64Decoding.AlwaysStaysAlways` | killer/src/main/cpp/Dobby/source/InstructionRelocation/arm64/ARM64InstructionRelocation.cc:247-249 | Flipping bit 0 of AL or NV negates nothing |
| `Arm64Decoding.CopiedExactly` | killer/src/main/cpp/Dobby/source/InstructionRelocation/arm64/ARM64InstructionRelocation.cc:136-270 | Both directions: a word is copied if and only if the architecture decodes it as none of the six kinds that depend on the program counter and it is not an unallocated word 0x55xxxxxx, which the mask takes for b.cond |
| `Arm64Decoding.QuartersMakeWord` | killer/src/main/cpp/Dobby/source/core/modules/assembler/assembler-arm64.h:641-652 | The four move values make the 64-bit value, whatever the register held |
| `Arm64Limits.SimdLoadTakenForGeneral` | killer/src/main/cpp/Dobby/source/InstructionRelocation/arm64/ARM64InstructionRelocation.cc:139-152 | A SIMD literal load is relocated as the general-purpose load that differs from it in bit 26 |
| `Arm64Limits.SimdLoadSimulates` | killer/src/main/cpp/Dobby/source/InstructionRelocation/arm64/ARM64InstructionRelocation.cc:139-152 | Both directions: a 32- or 64-bit SIMD literal load is relocated rightly if and only if it changes nothing of the SIMD state and the general-purpose register of its number already held the literal, or is XZR or X17 |
| `Arm64Limits.SimdLoadExample` | killer/src/main/cpp/Dobby/source/InstructionRelocation/arm64/ARM64InstructionRelocation.cc:139-152 | A load of 1 into D0 whose relocation, wherever it stands, leaves D0 as it was |
| `Arm64Limits.NarrowLoadExample` | killer/src/main/cpp/Dobby/source/core/modules/assembler/assembler-arm64.h:472-474 | A 32-bit literal load whose relocation leaves another value: the operand form of `ldr` always takes the 64-bit opcode |
| `Arm64Limits.AlwaysBranchExample` | killer/src/main/cpp/Dobby/source/InstructionRelocation/arm64/ARM64InstructionRelocation.cc:247-253 | `b.al` becomes `b.nv` over the jump, and both are taken in every flag state |
| `Leb128.ReadUleb128` | killer/src/main/cpp/Dobby/builtin-plugin/SymbolResolver/macho/dobby_symbol_resolver.cc:51-72 | The reader gives the base-128 number modulo 2^64 and the position after it, for any number of groups, and fails exactly when memory ends first |
| `Leb128.ReadSleb128` | killer/src/main/cpp/Dobby/builtin-plugin/SymbolResolver/macho/dobby_symbol_resolver.cc:74-94 | The signed reader gives the number, less 128^n if the last sign bit is set, up to nine groups; with a tenth group of 0 or 1 the number as a signed 64-bit word; a failure where any other tenth group or an eleventh makes a shift undefined |
| `Leb128.SkipUleb` | killer/src/main/cpp/Dobby/builtin-plugin/SymbolResolver/macho/dobby_symbol_resolver.cc:141-145 | The skip loop ends exactly where the encoding ends |
| `Leb128.UnsignedRoundTrip` | killer/src/main/cpp/Dobby/builtin-plugin/SymbolResolver/macho/dobby_symbol_resolver.cc:51-72 | Reading the canonical encoding of any 64-bit value, wherever it stands, gives the value and advances by its length |
| `Leb128.SignedRoundTrip` | killer/src/main/cpp/Dobby/builtin-plugin/SymbolResolver/macho/dobby_symbol_resolver.cc:74-94 | Both directions: the signed reader gives a value back if and only if it is at least -2^62 and below 2^63 |
| `Leb128.LastGroupZero` | killer/src/main/cpp/Dobby/builtin-plugin/SymbolResolver/macho/dobby_symbol_resolver.cc:74-94 | The last group is 0 exactly for the upper half of the positive values that need that many groups |
| `Leb128.TenGroupsExample` | killer/src/main/cpp/Dobby/builtin-plugin/SymbolResolver/macho/dobby_symbol_resolver.cc:74-94 | The encoding of 2^62 has ten groups, the tenth 0 |
| `Leb128.SignedSize` | killer/src/main/cpp/Dobby/builtin-plugin/SymbolResolver/macho/dobby_symbol_resolver.cc:74-94 | The canonical signed encoding has at most n groups exactly for the values of 7n bits |
| `Leb128.OrIsPlus` | killer/src/main/cpp/Dobby/builtin-plugin/SymbolResolver/macho/dobby_symbol_resolver.cc:64-64 | Or-ing a group in above the bits already read is adding it |
| `ExportTrieMap.WalkIsLookup` | killer/src/main/cpp/Dobby/builtin-plugin/SymbolResolver/macho/dobby_symbol_resolver.cc:98-184 | On every trie below 4 GiB no read leaves memory and a payload position that is returned belongs to a terminal node at depth at most 126 whose labels from the root spell the symbol; with prefix-free labels it is returned if and only if there is such a node |
| `ExportTrieMap.WalkLooksUp` | killer/src/main/cpp/Dobby/builtin-plugin/SymbolResolver/macho/dobby_symbol_resolver.cc:103-182 | The same from any node after any number of visited ancestors: sound on every trie, complete with prefix-free labels |
| `ExportTrieMap.EntryUnique` | killer/src/main/cpp/Dobby/builtin-plugin/SymbolResolver/macho/dobby_symbol_resolver.cc:98-184 | With prefix-free labels a symbol has at most one payload, at one depth |
| `ExportTrieMap.EncodesUnique` | killer/src/main/cpp/Dobby/builtin-plugin/SymbolResolver/macho/dobby_symbol_resolver.cc:103-182 | The same bytes encode at most one trie |
| `ExportTrieMap.ChildIsNew` | killer/src/main/cpp/Dobby/builtin-plugin/SymbolResolver/macho/dobby_symbol_resolver.cc:168-174 | In a well-formed trie a child's offset was never visited, so cycle detection rejects no valid trie |
| `ExportTrieMap.WalkVisitsDistinct` | killer/src/main/cpp/Dobby/builtin-plugin/SymbolResolver/macho/dobby_symbol_resolver.cc:168-178 | On any bytes the recorded node offsets are pairwise distinct and at most 128 |
| `ExportTrie.WalkExportedTrie` | killer/src/main/cpp/Dobby/builtin-plugin/SymbolResolver/macho/dobby_symbol_resolver.cc:98-184 | The nested loops with the array of visited offsets compute the walk of the specification and stay inside the array |
| `ExportTrie.ScanEdges` | killer/src/main/cpp/Dobby/builtin-plugin/SymbolResolver/macho/dobby_symbol_resolver.cc:124-162 | The edge loop follows the first edge whose label starts the symbol |
| `ExportTrie.ScanLabel` | killer/src/main/cpp/Dobby/builtin-plugin/SymbolResolver/macho/dobby_symbol_resolver.cc:125-138 | The whole label is scanned; it is a wrong edge if and only if it does not start the symbol, and otherwise exactly its length is consumed |
| `ExportTrie.ScanNode` | killer/src/main/cpp/Dobby/builtin-plugin/SymbolResolver/macho/dobby_symbol_resolver.cc:104-162 | One node: its payload, its matching child, the end of the walk or a bad read |
| `ExportTrie.AlreadyVisited` | killer/src/main/cpp/Dobby/builtin-plugin/SymbolResolver/macho/dobby_symbol_resolver.cc:168-173 | True if and only if the offset is among those recorded |
| `ExportTrie.ChildIsSuffix` | killer/src/main/cpp/Dobby/builtin-plugin/SymbolResolver/macho/dobby_symbol_resolver.cc:151-160 | What is left of the symbol after following an edge is a suffix of it |
| `ThumbSimulation.BranchSimulates` | killer/src/main/cpp/Dobby/source/InstructionRelocation/arm/ARMInstructionRelocation.cc:407-423 | B.W: one step of the emitted code at a word-aligned place goes where the original goes and changes nothing else |
| `ThumbSimulation.BranchLinkSimulates` | killer/src/main/cpp/Dobby/source/InstructionRelocation/arm/ARMInstructionRelocation.cc:426-444 | BL: two steps reach the original callee in Thumb state; a return to LR then leads past the emitted code |
| `ThumbSimulation.BranchLinkExchangeSimulates` | killer/src/main/cpp/Dobby/source/InstructionRelocation/arm/ARMInstructionRelocation.cc:447-465 | BLX: the same, with the callee in Arm state at the word-aligned target |
| `ThumbSimulation.LoadLiteralSimulates` | killer/src/main/cpp/Dobby/source/InstructionRelocation/arm/ARMInstructionRelocation.cc:512-535 | LDR.W literal into a register other than PC, any offset: three steps load the word at the rounded address and end past the literal; both directions: that is the load of the original if and only if the offset is a multiple of four or the two words are equal |
| `ThumbSimulation.LiteralAddressRight` | killer/src/main/cpp/Dobby/source/InstructionRelocation/arm/ARMInstructionRelocation.cc:517-525 | Both directions: rounding after adding gives the architecture's address if and only if the offset is a multiple of four |
| `ThumbSimulation.LoadLiteralIntoPc` | killer/src/main/cpp/Dobby/source/InstructionRelocation/arm/ARMInstructionRelocation.cc:527-532 | LDR.W into PC, any offset: the emitted code jumps to the address it computed, in Arm state; both directions: it meets the original if and only if the word that the original loads is that address |
| `ThumbSimulation.AdrLandsOnItsLiteral` | killer/src/main/cpp/Dobby/source/InstructionRelocation/arm/ARMInstructionRelocation.cc:501-504 | What is taken for ADR: the first step leaves the computed address in the register, the second stands on the literal itself |
| `ThumbSimulation.CondBranchRuns` | killer/src/main/cpp/Dobby/source/InstructionRelocation/arm/ARMInstructionRelocation.cc:383-404 | B.cond, with the flags of the original: taken forward, two steps reach the original target; taken backward, the first step leads almost 1 MiB back; not taken, two steps lead to the literal that holds the target |
| `ThumbSimulation.CondBranchRewritten` | killer/src/main/cpp/Dobby/source/InstructionRelocation/arm/ARMInstructionRelocation.cc:395-397 | The rewritten branch keeps condition and sign bit: its offset is 4 for a forward branch and -2^20 + 4 for a backward one |
| `ThumbSimulation.CondBranchClass` | killer/src/main/cpp/Dobby/source/InstructionRelocation/arm/ARMInstructionRelocation.cc:377-383 | The relocator picks exactly the conditional branches of the architecture |
| `ThumbSimulation.CondLabelIsOffset` | killer/src/main/cpp/Dobby/source/InstructionRelocation/arm/ARMInstructionRelocation.cc:385-391 | Its decoder of them is the architecture's |
| `ThumbSimulation.JumpArm` | killer/src/main/cpp/Dobby/source/InstructionRelocation/arm/ARMInstructionRelocation.cc:400-401 | The emitted jump goes where its literal says |
| `ThumbSimulation.SkipArm` | killer/src/main/cpp/Dobby/source/InstructionRelocation/arm/ARMInstructionRelocation.cc:399-399 | The skip for a condition that fails leads to the literal itself |
| `ThumbSimulation.AdrClass` | killer/src/main/cpp/Dobby/source/InstructionRelocation/arm/ARMInstructionRelocation.cc:469-481 | Both directions: an ADR is taken for one if and only if bit 6 of its second halfword is clear, and a MOVW is taken for one if and only if that bit is clear and its four high bits are set |
| `ThumbSimulation.AdrCopied` | killer/src/main/cpp/Dobby/source/InstructionRelocation/arm/ARMInstructionRelocation.cc:470-475 | An ADR with that bit set is copied; both directions: its copy computes the address of the original if and only if both stand in the same word |
| `ThumbSimulation.AdrValueRight` | killer/src/main/cpp/Dobby/source/InstructionRelocation/arm/ARMInstructionRelocation.cc:489-496 | The address computed for ADR is the architecture's plus what rounding takes off; both directions: it is right if and only if the instruction stood on a word boundary |
| `ThumbSimulation.MoveWideTakenForAdr` | killer/src/main/cpp/Dobby/source/InstructionRelocation/arm/ARMInstructionRelocation.cc:469-507 | Both directions: a MOVW is copied if and only if its four high bits are not all set or bit 6 is; otherwise its register gets an address and control lands on the literal |
| `ThumbSimulation.MoveWideExample` | killer/src/main/cpp/Dobby/source/InstructionRelocation/arm/ARMInstructionRelocation.cc:469-481 | `movw r0, #0xF000` is taken for ADR |
| `ThumbSimulation.BranchOffsetInverts` | killer/src/main/cpp/Dobby/source/InstructionRelocation/arm/ARMInstructionRelocation.h:222-246 | Both directions: the branch encoder is inverted by the architecture's decoder if and only if the offset is even and in [-2^24, 2^24) |
| `ThumbSimulation.LabelIsOffset` | killer/src/main/cpp/Dobby/source/InstructionRelocation/arm/ARMInstructionRelocation.cc:407-416 | The relocator's decoder of B and BL is the architecture's, for every encoding |
| `ThumbSimulation.ExchangeLabelIsOffset` | killer/src/main/cpp/Dobby/source/InstructionRelocation/arm/ARMInstructionRelocation.cc:447-456 | So is its decoder of BLX |
| `ThumbSimulation.CallReturns` | killer/src/main/cpp/Dobby/source/InstructionRelocation/arm/ARMInstructionRelocation.cc:438-441 | Returning to LR, one step leads past the literal of a relocated call |
| `ThumbLinking.LinkedLoadReads` | killer/src/main/cpp/Dobby/source/InstructionRelocation/arm/ARMInstructionRelocation.h:19-51 | After binding, in code at a word-aligned address, every linked load is a literal load into its register that reads exactly its label's word |
| `ThumbLinking.FixedLoadReads` | killer/src/main/cpp/Dobby/source/InstructionRelocation/arm/ARMInstructionRelocation.h:323-325 | After one label's word is rewritten, every load linked to it reads the new word and every other load its own label's |
| `ThumbAssembler.FixupIsRebinding` | killer/src/main/cpp/Dobby/source/InstructionRelocation/arm/ARMInstructionRelocation.h:323-336 | Rewriting a bound label's word gives the code that binding it with the new word would have given, whatever was bound after it |
| `ThumbLinking.LoadBackMisses` | killer/src/main/cpp/Dobby/source/InstructionRelocation/arm/ARMInstructionRelocation.h:291-294 | Below 4096 bytes, a load back to a bound label is a literal load into its register that reads one or two halfwords behind the label, never the label |
| `ThumbLinking.LoadBackDecodes` | killer/src/main/cpp/Dobby/source/InstructionRelocation/arm/ARMInstructionRelocation.h:181-189 | At any distance the emitted halfwords keep twelve bits of it, and the next four spill into the register |
| `ThumbLinking.SpillsFrom4096` | killer/src/main/cpp/Dobby/source/InstructionRelocation/arm/ARMInstructionRelocation.h:181-189 | Both directions: the offset is right if and only if the distance is below 4096, the register if and only if it already has the bits that spill |
| `ThumbLinking.LinkedAddress` | killer/src/main/cpp/Dobby/source/InstructionRelocation/arm/ARMInstructionRelocation.h:37-43 | The offset written for a load addresses exactly the label, whether the load stands on a word boundary or half way |
| `ThumbLinking.SmallBufferReaches` | killer/src/main/cpp/Dobby/source/InstructionRelocation/arm/ARMInstructionRelocation.h:37-39 | In a buffer of at most 4 KiB the range check of every load holds |
| `ThumbLinking.ReachesExactly` | killer/src/main/cpp/Dobby/source/InstructionRelocation/arm/ARMInstructionRelocation.h:37-39 | Both directions: the range check holds if and only if some literal load from there reaches the label |
| `ThumbAssembler.PoolStands` | killer/src/main/cpp/Dobby/source/InstructionRelocation/arm/ARMInstructionRelocation.h:327-336 | A bound label's word stands at its place, and later binds leave it there |
| `ThumbAssembler.LoadLinked` | killer/src/main/cpp/Dobby/source/InstructionRelocation/arm/ARMInstructionRelocation.h:19-51 | A load linked when its label was bound stays linked to it through all later binds |
| `ThumbAssembler.BindAllKeeps` | killer/src/main/cpp/Dobby/source/InstructionRelocation/arm/ARMInstructionRelocation.h:327-336 | Binding changes no halfword that no label links |
| `ThumbAssembler.ThumbTurboAssembler.Thumb2RelocateSingleInstr` | killer/src/main/cpp/Dobby/source/InstructionRelocation/arm/ARMInstructionRelocation.cc:365-546 | Emits at a word boundary, after a NOP where needed, exactly the sequence of the specification |
| `ThumbSimulation.CopiedExactly` | killer/src/main/cpp/Dobby/source/InstructionRelocation/arm/ARMInstructionRelocation.cc:376-545 | Both directions, by the decoder of the architecture: an instruction is copied, its halfwords in order, if and only if it is an ADR with bit 6 set, a MOVW without its four high bits all set or with that bit set, or depends on no program counter and is neither an undefined BLX with bit 0 set nor one unallocated word |
| `ThumbSimulation.UndefinedExchangeIsExchange` | killer/src/main/cpp/Dobby/source/InstructionRelocation/arm/ARMInstructionRelocation.cc:447-465 | The undefined BLX becomes what the BLX with bit 0 clear becomes |
| `ThumbSimulation.TakenForAdr` | killer/src/main/cpp/Dobby/source/InstructionRelocation/arm/ARMInstructionRelocation.cc:469-507 | Whatever is taken for ADR becomes what the ADR becomes that has bit 6 of its first halfword clear |
| `ThumbSimulation.LiteralValueAligned` | killer/src/main/cpp/Dobby/source/InstructionRelocation/arm/ARMInstructionRelocation.cc:517-525 | The address for LDR.W is the sum of PC and offset rounded down to a word |
| `ThumbAssembler.ThumbTurboAssembler.AlignThumbNop` | killer/src/main/cpp/Dobby/source/InstructionRelocation/arm/ARMInstructionRelocation.h:301-307 | Pads to a word boundary with at most one NOP |
| `ThumbAssembler.ThumbTurboAssembler.T2Ldr` | killer/src/main/cpp/Dobby/source/InstructionRelocation/arm/ARMInstructionRelocation.h:290-299 | Emits a load back to a bound label, or an unlinked load whose place is recorded; loads to be linked never overlap |
| `ThumbAssembler.ThumbTurboAssembler.AppendRelocLabelEntry` | killer/src/main/cpp/Dobby/source/InstructionRelocation/arm/ARMInstructionRelocation.h:338-343 | Adds an unbound label and touches no code |
| `ThumbAssembler.ThumbTurboAssembler.LinkConfusedInstructions` | killer/src/main/cpp/Dobby/source/InstructionRelocation/arm/ARMInstructionRelocation.h:19-51 | Links every load of the label, or stops if and only if one is out of range |
| `ThumbAssembler.ThumbTurboAssembler.RelocBind` | killer/src/main/cpp/Dobby/source/InstructionRelocation/arm/ARMInstructionRelocation.h:327-336 | Binds every label at the end and appends its word, or stops if and only if some load is out of range |
| `ThumbAssembler.ThumbTurboAssembler.RelocBindFixup` | killer/src/main/cpp/Dobby/source/InstructionRelocation/arm/ARMInstructionRelocation.h:323-325 | Rewrites that label's word and no other halfword |
| `X64Relocator.GenRelocateCodeAndBranch` | killer/src/main/cpp/Dobby/source/InstructionRelocation/x64/X64InstructionRelocation.cc:130-156 | The retry succeeds if and only if every instruction is implemented and every chunk up to the first large enough one can be allocated; it then returns that chunk, the code for it and the rounded origin |
| `X64Relocator.SecondPassSame` | killer/src/main/cpp/Dobby/source/InstructionRelocation/x64/X64InstructionRelocation.cc:34-112 | A pass over the origin rounded by the first pass ends at the same boundary, emits as many bytes, and the same ones to the same place, and meets the same unimplemented instructions |
| `X64Relocator.GenRelocateCodeFixed` | killer/src/main/cpp/Dobby/source/InstructionRelocation/x64/X64InstructionRelocation.cc:32-128 | One pass emits exactly the code of the specification, rounds the origin up to an instruction boundary and says whether the code fits the chunk |
| `X64Relocator.EmitPiece` | killer/src/main/cpp/Dobby/source/InstructionRelocation/x64/X64InstructionRelocation.cc:42-86 | One turn of the loop emits the bytes of the specification or stops |
| `X64Relocator.PieceReads` | killer/src/main/cpp/Dobby/source/InstructionRelocation/x64/X64InstructionRelocation.cc:42-86 | Byte by byte: a rewritten instruction is its new opcode, or what stood in front of its operand, and four bytes that read as the new displacement; any other is copied |
| `X64Relocator.PieceStands` | killer/src/main/cpp/Dobby/source/InstructionRelocation/x64/X64InstructionRelocation.cc:34-101 | Every instruction of the origin has its piece in the code, in order, made for the place where it stands |
| `X64Relocator.JumpBackReads` | killer/src/main/cpp/Dobby/source/InstructionRelocation/x64/X64InstructionRelocation.cc:103-108 | The last fourteen bytes jump to the address stored behind the jump, the first instruction after the rounded origin |
| `X64Relocator.CodeHasLength` | killer/src/main/cpp/Dobby/source/InstructionRelocation/x64/X64InstructionRelocation.cc:114-118 | The code has the counted length wherever it goes |
| `X64Relocator.StopsExactly` | killer/src/main/cpp/Dobby/source/InstructionRelocation/x64/X64InstructionRelocation.cc:77-82 | Both directions: a pass stops if and only if it meets, from boundary to boundary, an opcode 0xE0 to 0xE3 that is not RIP-relative |
| `X64Relocator.AttemptsFor` | killer/src/main/cpp/Dobby/source/InstructionRelocation/x64/X64InstructionRelocation.cc:134-151 | The number of 16-byte steps to the first chunk that fits |
| `X64Relocator.TargetKept` | killer/src/main/cpp/Dobby/source/InstructionRelocation/x64/X64InstructionRelocation.cc:42-76 | Both directions: a relative operand keeps its target if and only if the relocated instruction is as long as the original and the distance fits in the bits kept of it, 8 for a short jump and 32 otherwise |
| `X64Relocator.ShortJumpMoves` | killer/src/main/cpp/Dobby/source/InstructionRelocation/x64/X64InstructionRelocation.cc:42-51 | Every two-byte conditional jump lands four bytes past its target |
| `HookRing.Interceptor.constructor` | killer/src/main/cpp/Dobby/source/Interceptor.h:20-24 | The empty ring is closed through the head |
| `HookRing.Interceptor.AddHookEntry` | killer/src/main/cpp/Dobby/source/Interceptor.cpp:39-43 | Puts the entry in front; next and prev stay mutually inverse and the ring closed |
| `HookRing.Interceptor.FindHookEntryNode` | killer/src/main/cpp/Dobby/source/Interceptor.cpp:15-26 | Ends, with the node of the most recently added matching entry or none |
| `HookRing.Interceptor.FindHookEntry` | killer/src/main/cpp/Dobby/source/Interceptor.cpp:28-35 | The most recently added matching entry, if there is one |
| `HookRing.Interceptor.ListDel` | killer/src/main/cpp/Dobby/source/Interceptor.h:42-51 | Takes exactly that node out and keeps the ring closed |
| `HookRing.Interceptor.RemoveHookEntry` | killer/src/main/cpp/Dobby/source/Interceptor.cpp:45-51 | Removes exactly the most recent matching entry and keeps the order of the others |
| `HookRing.Interceptor.GetHookEntryCount` | killer/src/main/cpp/Dobby/source/Interceptor.cpp:53-61 | The length of the sequence that the ring stands for |
| `HookMemory.RunRestores` | killer/src/main/cpp/Dobby/source/InterceptRouting/InterceptRouting.cpp:12-70 | Over every run of installs and destroys, in any order and with any refused calls, the memory that undoing all live hooks would leave is the original; when no hook is live, memory is the original |
| `HookMemory.BytesOutsideHooksAreOriginal` | killer/src/main/cpp/Dobby/source/dobby.cpp:21-36 | After every such run a byte outside the live hooks is the original byte |
| `HookMemory.DestroyEffect` | killer/src/main/cpp/Dobby/source/dobby.cpp:21-33 | For any entry list: the newest entry for the address is gone, the others keep their order, its saved bytes stand at the address and no other byte changes |
| `HookMemory.DestroyNothing` | killer/src/main/cpp/Dobby/source/dobby.cpp:24-35 | Without an entry nothing changes |
| `HookMemory.HookEffect` | killer/src/main/cpp/Dobby/source/InterceptRouting/RoutingPlugin/FunctionInlineReplace/FunctionInlineReplaceExport.cc:7-42 | A hook is refused, without change, if and only if the address is zero or the newest hook there has the same replacement; otherwise one entry is added in front with the prologue bytes, or none if relocation failed, and only the trampoline's bytes change |
| `HookMemory.DestroyingAllRestores` | killer/src/main/cpp/Dobby/source/dobby.cpp:21-36 | Destroying each live hook once, in any order, leaves no entry and the original memory |
| `HookMemory.RunThenDestroyAll` | killer/src/main/cpp/Dobby/source/dobby.cpp:21-36 | The same after any run from unpatched memory |
| `HookMemory.RestoreRestores` | killer/src/main/cpp/Dobby/source/InterceptRouting/InterceptRouting.cpp:36-39 | Both directions: writing the saved bytes back restores memory if and only if they cover the trampoline, or what they miss was there already |
| `HookMemory.DestroyUndoesHook` | killer/src/main/cpp/Dobby/source/dobby.cpp:21-36 | Both directions: a destroy undoes the install before it if and only if the saved bytes cover the trampoline |
| `HookMemory.HookKeepsPristine` | killer/src/main/cpp/Dobby/source/InterceptRouting/RoutingPlugin/FunctionInlineReplace/FunctionInlineReplaceExport.cc:7-42 | An install that is refused, or saves what it patches, keeps the original memory recoverable, also when hooks at one address are stacked |
| `HookMemory.DestroyKeepsPristine` | killer/src/main/cpp/Dobby/source/dobby.cpp:21-36 | A destroy keeps it recoverable, whichever hook it undoes |
| `HookMemory.UnwindOutOfOrder` | killer/src/main/cpp/Dobby/source/dobby.cpp:21-36 | Undoing the latest hook at one address before hooks at others leaves the same bytes in the end |
| `HookMemory.FailedRelocationExample` | killer/src/main/cpp/Dobby/source/InterceptRouting/InterceptRouting.cpp:27-29 | When no relocated code can be allocated nothing is saved but the code is patched, and destroying the hook leaves the trampoline |
| `HookEngine.CodePatch` | killer/src/main/cpp/Dobby/source/UserMode/ExecMemory/code-patch-tool-posix.cc:10-32 | Writes exactly the given bytes at the address |
| `HookEngine.Dobby.Hook` | killer/src/main/cpp/Dobby/source/InterceptRouting/RoutingPlugin/FunctionInlineReplace/FunctionInlineReplaceExport.cc:7-42 | The whole new state of memory and entries; fails if and only if the address is zero or the newest hook there has the same replacement |
| `HookEngine.Dobby.Destroy` | killer/src/main/cpp/Dobby/source/dobby.cpp:21-36 | The whole new state of memory and entries; fails if and only if there is no entry |
| `MemoryArena.RunStaysTidy` | killer/src/main/cpp/Dobby/source/MemoryAllocator/MemoryArena.cc:11-61 | After every run with sizes from nothing to a page and fresh pages: chunks tile each page up to its cursor, pages do not overlap, each chunk lies in a page of the permission asked for, no two chunks overlap, and the pages record exactly the chunks handed out |
| `MemoryArena.AllocateKeepsTidy` | killer/src/main/cpp/Dobby/source/MemoryAllocator/MemoryArena.cc:11-61 | Both directions: a call keeps the tiling if and only if no page has room and none can be had, or its size is not negative and an old page has room or the size is at most a page |
| `MemoryArena.FailsWhenRefused` | killer/src/main/cpp/Dobby/source/MemoryAllocator/MemoryArena.cc:29-36 | Both directions: the call fails, without change, if and only if no old page has room and none can be had |
| `MemoryArena.AllocatedIsNew` | killer/src/main/cpp/Dobby/source/MemoryAllocator/MemoryArena.cc:48-57 | The chunk overlaps no chunk held before, and those stay held |
| `MemoryArena.AllocateRecords` | killer/src/main/cpp/Dobby/source/MemoryAllocator/MemoryArena.cc:48-57 | The recorded chunks grow by exactly the one handed out |
| `MemoryArena.FirstRoom` | killer/src/main/cpp/Dobby/source/MemoryAllocator/MemoryArena.cc:18-27 | The first page of the permission with strictly more room than asked for |
| `MemoryArena.PageReused` | killer/src/main/cpp/Dobby/source/MemoryAllocator/MemoryArena.cc:18-27 | If a page of the permission has strictly more room, the chunk is cut at the cursor of the first such page and no page is added |
| `MemoryArena.PageAdded` | killer/src/main/cpp/Dobby/source/MemoryAllocator/MemoryArena.cc:29-57 | Otherwise the chunk is cut at the start of the page that the operating system gives, or the call fails |
| `MemoryArena.Arena.AllocateChunk` | killer/src/main/cpp/Dobby/source/MemoryAllocator/MemoryArena.cc:11-61 | The whole new list of pages and the chunk, or no change where no page can be had |
| `MemoryArena.LargeChunkExample` | killer/src/main/cpp/Dobby/source/MemoryAllocator/MemoryArena.cc:30-57 | A request of more than a page gets a chunk that reaches past its page |
| `NearMemoryArena.RunStaysNear` | killer/src/main/cpp/Dobby/source/MemoryAllocator/NearMemoryArena.cc:156-195 | Over every run with sizes from nothing up, every page stays tiled, and every chunk cut from a page starts strictly within its call's range, inside a page of its permission, and stays so |
| `NearMemoryArena.ServeKeeps` | killer/src/main/cpp/Dobby/source/MemoryAllocator/NearMemoryArena.cc:156-195 | The same for one call from any state |
| `NearMemoryArena.PageReused` | killer/src/main/cpp/Dobby/source/MemoryAllocator/NearMemoryArena.cc:165-187 | If a page serves the call, the chunk is cut at the cursor of the first such page without a search |
| `NearMemoryArena.ServesExactly` | killer/src/main/cpp/Dobby/source/MemoryAllocator/NearMemoryArena.cc:168-173 | Both directions: a page serves a call if and only if it has the permission, its cursor lies strictly within the range and it has strictly more room |
| `NearMemoryArena.WithoutPageExactly` | killer/src/main/cpp/Dobby/source/MemoryAllocator/NearMemoryArena.cc:197-212 | A run of zero bytes is used only for calls that are not read-write, and always where there is one; else nothing |
| `NearMemoryArena.SearchEndsCall` | killer/src/main/cpp/Dobby/source/MemoryAllocator/NearMemoryArena.cc:189-212 | A search without a result ends the call with the pages as before |
| `NearMemoryArena.BlanksTried` | killer/src/main/cpp/Dobby/source/MemoryAllocator/NearMemoryArena.cc:54-90 | In a sorted layout the loop tries exactly the blank before the first region of the window and the blank behind each of its regions, in ascending order |
| `NearMemoryArena.LoopAfterEdges` | killer/src/main/cpp/Dobby/source/MemoryAllocator/NearMemoryArena.cc:33-52 | Before the loop the lowest page is asked for once for each of the two edge tests that hold, and nothing else |
| `NearMemoryArena.FirstGrantedFound` | killer/src/main/cpp/Dobby/source/MemoryAllocator/NearMemoryArena.cc:36-88 | The first address that is granted is found |
| `NearMemoryArena.AllRefused` | killer/src/main/cpp/Dobby/source/MemoryAllocator/NearMemoryArena.cc:91-91 | If all are refused nothing is found |
| `NearMemoryArena.WindowExactly` | killer/src/main/cpp/Dobby/source/MemoryAllocator/NearMemoryArena.cc:20-22 | The two ends of the window are the page boundaries next above the range's start and a page below its end |
| `NearMemoryArena.RetriesOnce` | killer/src/main/cpp/Dobby/source/MemoryAllocator/NearMemoryArena.cc:164-195 | Below a page in size and with a range of more than half a page, the call searches at most once: a page found serves it at its start |
| `NearMemoryArena.LargeNeverPaged` | killer/src/main/cpp/Dobby/source/MemoryAllocator/NearMemoryArena.cc:164-195 | From a page in size on no search helps: each page found stays empty and the call goes on until a search fails |
| `NearMemoryArena.LargeNeverStops` | killer/src/main/cpp/Dobby/source/MemoryAllocator/NearMemoryArena.cc:164-195 | While addresses are offered and granted such a call goes on: one search more than there are pages to be had |
| `NearMemoryArena.FoundIsNear` | killer/src/main/cpp/Dobby/source/MemoryAllocator/NearMemoryArena.cc:19-92 | A page found starts strictly within the range if the range exceeds half a page, and lies there as a whole if the range is at least a page |
| `NearMemoryArena.FaultsExactly` | killer/src/main/cpp/Dobby/source/MemoryAllocator/NearMemoryArena.cc:54-79 | Both directions: the search can index outside the layout if and only if the layout is empty or its first or last region lies in the window |
| `NearMemoryArena.TriesAreBlank` | killer/src/main/cpp/Dobby/source/MemoryAllocator/NearMemoryArena.cc:54-90 | In a sorted layout every address tried starts an unused page, except the lowest page of the window |
| `NearMemoryArena.MapsOverExactly` | killer/src/main/cpp/Dobby/source/MemoryAllocator/NearMemoryArena.cc:19-92 | Both directions, from a sorted layout alone: some answers make the search map over a used page if and only if the lowest page of the window is used and either the last region reaches past the window or a region with a gap before it starts at that page |
| `NearMemoryArena.MapsOverLowest` | killer/src/main/cpp/Dobby/source/MemoryAllocator/NearMemoryArena.cc:19-92 | Both directions: some answers make it map over a used page if and only if the lowest page is used and on the list of addresses to be tried |
| `NearMemoryArena.LoopTriesLowest` | killer/src/main/cpp/Dobby/source/MemoryAllocator/NearMemoryArena.cc:54-90 | Both directions: the loop over the regions tries a used lowest page if and only if a region with a gap before it starts there |
| `NearMemoryArena.EveryTryIsFound` | killer/src/main/cpp/Dobby/source/MemoryAllocator/NearMemoryArena.cc:19-92 | Every address on the list is found if those before it are refused |
| `NearMemoryArena.LowestPageFirst` | killer/src/main/cpp/Dobby/source/MemoryAllocator/NearMemoryArena.cc:33-52 | If the last region reaches past the window, or the first starts above its lowest page, that page is taken without looking |
| `NearMemoryArena.MappedOverExample` | killer/src/main/cpp/Dobby/source/MemoryAllocator/NearMemoryArena.cc:43-52 | A sorted layout in which a page in use is mapped over |
| `NearMemoryArena.SearchNearBlankPage` | killer/src/main/cpp/Dobby/source/MemoryAllocator/NearMemoryArena.cc:19-92 | The search returns the first granted of the addresses that the specification lists, or says that it left the layout |
| `NearMemoryArena.SearchRegion` | killer/src/main/cpp/Dobby/source/MemoryAllocator/NearMemoryArena.cc:60-88 | At one region in the window: the left blank, the right blank, and what is left to try |
| `NearMemoryArena.SearchRegions` | killer/src/main/cpp/Dobby/source/MemoryAllocator/NearMemoryArena.cc:54-91 | The same for the loop over the regions |
| `NearMemoryArena.FirstNear` | killer/src/main/cpp/Dobby/source/MemoryAllocator/NearMemoryArena.cc:165-175 | The first page of the permission that is near enough and has strictly more room than asked for |
| `NearMemoryArena.NearArena.PushPage` | killer/src/main/cpp/Dobby/source/MemoryAllocator/NearMemoryArena.cc:137-146 | Appends an empty page |
| `NearMemoryArena.NearArena.AllocateChunk` | killer/src/main/cpp/Dobby/source/MemoryAllocator/NearMemoryArena.cc:156-213 | The call with its retry ends in the state, outcome and number of searches of the specification |
| `PatchRegistry.RunKeepsConsistent` | framework/src/main/java/utopia/android/patch/lang/Patchwork.java:50-93 | Over every run of patch and recover, including failing hooks, each member's set is exactly the patches paired with it and no two live ids stand for one pair, if every member is reached through one object |
| `PatchRegistry.RunFromStartConsistent` | framework/src/main/java/utopia/android/patch/lang/Patchwork.java:50-93 | In particular over every run from the empty registry |
| `PatchRegistry.PatchKeepsConsistent` | framework/src/main/java/utopia/android/patch/lang/Patchwork.java:50-72 | Both directions: a patch call keeps that if and only if the pair is not registered through another object equal to the member |
| `PatchRegistry.RecoverKeepsConsistent` | framework/src/main/java/utopia/android/patch/lang/Patchwork.java:81-93 | A recover call always keeps it |
| `PatchRegistry.AliasBreaks` | framework/src/main/java/utopia/android/patch/lang/Patchwork.java:58-66 | A second object for a registered member is registered again and breaks it |
| `PatchRegistry.AliasExample` | framework/src/main/java/utopia/android/patch/lang/Patchwork.java:50-93 | After recovering the first of two such ids the second is live but its patch is gone |
| `PatchRegistry.RepatchReturnsOldId` | framework/src/main/java/utopia/android/patch/lang/Patchwork.java:58-63 | Patching a live pair again returns its id and changes nothing |
| `PatchRegistry.IdsIncrease` | framework/src/main/java/utopia/android/patch/lang/Patchwork.java:65-66 | Ids are issued in increasing order over every run, so none is used again |
| `PatchRegistry.HookedOnce` | framework/src/main/java/utopia/android/patch/lang/ExternalKernel.java:116-126 | Over every run each member is hooked at most once |
| `PatchRegistry.PatchThenRecover` | framework/src/main/java/utopia/android/patch/lang/Patchwork.java:50-93 | Recovering a fresh patch restores the pairs and the member's set |
| `PatchRegistry.PatchEffect` | framework/src/main/java/utopia/android/patch/lang/Patchwork.java:64-66 | A new pair fails, without change, if and only if the member is not hooked and cannot be; otherwise it gets the next id, the member's set gets the patch, and all else is as before |
| `PatchRegistry.RecoverEffect` | framework/src/main/java/utopia/android/patch/lang/Patchwork.java:81-93 | Recovering reports true if and only if the id is live; the id is then gone, its patch leaves the member's set, and all else is as before |
| `PatchSet.CompareIsTotalPreorder` | framework/src/main/java/utopia/android/patch/lang/Sortable.java:15-38 | compareTo is the order by descending priority, then loader hash, then object hash: total, transitive and antisymmetric in sign; everything comes before null |
| `PatchSet.AddRemoveKeep` | framework/src/main/java/utopia/android/patch/lang/ExternalKernel.java:190-213 | Add and remove keep the set sorted and free of duplicates and change membership of that element only |
| `PatchSet.InsertSorts` | framework/src/main/java/utopia/android/patch/lang/ExternalKernel.java:195-199 | Sorting a sorted array with one element appended sorts it |
| `PatchSet.InsertPlace` | framework/src/main/java/utopia/android/patch/lang/ExternalKernel.java:195-199 | The new element goes behind everything that does not come after it, equals included, and in front of the rest |
| `PatchSet.CopyOnWriteSortedSet.Add` | framework/src/main/java/utopia/android/patch/lang/ExternalKernel.java:190-201 | The new contents are published in a fresh array; nothing handed out before is written |
| `PatchSet.CopyOnWriteSortedSet.Remove` | framework/src/main/java/utopia/android/patch/lang/ExternalKernel.java:203-213 | Likewise for removal |
| `PatchSet.CopyOnWriteSortedSet.Find` | framework/src/main/java/utopia/android/patch/lang/ExternalKernel.java:215-222 | The first index of the element, or -1 if and only if it is absent |
| `PatchSet.CopyOnWriteSortedSet.GetSnapshot` | framework/src/main/java/utopia/android/patch/lang/ExternalKernel.java:224-226 | The published array itself |
| `PatchSet.SortLast` | framework/src/main/java/utopia/android/patch/lang/ExternalKernel.java:198-198 | The stable insertion of the last element in place |
| `PatchKernel.ExternalKernel.AddPatch` | framework/src/main/java/utopia/android/patch/lang/ExternalKernel.java:116-126 | The whole new mapping; fails without change if and only if the member is new and cannot be hooked |
| `PatchKernel.ExternalKernel.RemovePatch` | framework/src/main/java/utopia/android/patch/lang/ExternalKernel.java:128-136 | Removes the patch from that member's set only |
| `PatchKernel.Patchwork.Patch` | framework/src/main/java/utopia/android/patch/lang/Patchwork.java:50-72 | Rejects null; returns the old id without change for a live pair; otherwise the new registry and id, or an error |
| `PatchKernel.Patchwork.RecoverId` | framework/src/main/java/utopia/android/patch/lang/Patchwork.java:81-93 | The new registry, and whether the id was live |
| `HookChain.ReplaceHookedMember` | framework/src/main/java/utopia/android/patch/lang/ExternalKernel.java:140-175 | Each before-hook runs once in order, the original exactly if nothing was set by then, each after-hook once in reverse; each finds what was set last before it; the caller sees what was set last, by an accepted setter call or the original |
| `HookChain.RunEndsWithLast` | framework/src/main/java/utopia/android/patch/lang/ExternalKernel.java:146-174 | The registers at the end of such an execution hold what was set last in it |
| `HookChain.HookSetsLast` | framework/src/main/java/utopia/android/patch/lang/Patch.java:74-111 | A hook leaves the argument of its last accepted setter call, up to a rejection that it does not catch, or what it found |
| `HookChain.Registers.RunHook` | framework/src/main/java/utopia/android/patch/lang/ExternalKernel.java:149-153 | The same for the loop over a hook's setter calls |
| `HookChain.FinalHasOutcome` | framework/src/main/java/utopia/android/patch/lang/ExternalKernel.java:146-174 | For arbitrary hooks exactly one of returned and thrown is set at the end, so the sentinel is never returned |
| `HookChain.HooksKeepOutcome` | framework/src/main/java/utopia/android/patch/lang/Patch.java:74-111 | No hook can leave both set, or take an outcome back to neither |
| `HookChain.OutcomeReplacesOriginal` | framework/src/main/java/utopia/android/patch/lang/ExternalKernel.java:155-161 | An outcome left by any before-hook makes the result independent of the original |
| `HookChain.SilentPatchesTransparent` | framework/src/main/java/utopia/android/patch/lang/ExternalKernel.java:140-175 | Patches that set nothing leave the caller the original's outcome |
| `HookChain.Registers.SetReturned` | framework/src/main/java/utopia/android/patch/lang/Patch.java:74-80 | Sets returned to the argument and clears thrown, or rejects the sentinel without change |
| `HookChain.Registers.SetThrown` | framework/src/main/java/utopia/android/patch/lang/Patch.java:105-111 | Sets thrown to the argument and clears returned, or rejects null without change |
| `FormatEntry.Entry.ToString` | framework/src/main/java/utopia/android/patch/util/logcat/FormatEntry.java:67-98 | Ends on every finite graph, cyclic or not; the stack is as before, also after an exception; the text is the guarded printer's |
| `FormatEntry.Entry.ToStrings` | framework/src/main/java/utopia/android/patch/util/logcat/FormatEntry.java:85-93 | The loop over the parts stops at the first exception and leaves the stack as it was |
| `FormatEntry.AcyclicPrintsPlain` | framework/src/main/java/utopia/android/patch/util/logcat/FormatEntry.java:67-98 | On a graph without cycles the text is that of the structural printer without a guard |
| `FormatEntry.GuardedIsPlain` | framework/src/main/java/utopia/android/patch/util/logcat/FormatEntry.java:67-98 | Wherever the guard does not act the text is that of any printer that satisfies the unguarded equations |
| `FormatEntry.MeetsExactly` | framework/src/main/java/utopia/android/patch/util/logcat/FormatEntry.java:73-75 | Both directions: the guard acts if and only if some path of parts returns to an object equal to an earlier one |
| `FormatEntry.AcyclicDoesNotMeet` | framework/src/main/java/utopia/android/patch/util/logcat/FormatEntry.java:73-75 | Without cycles the guard never acts |
| `FormatEntry.PendingShrinks` | framework/src/main/java/utopia/android/patch/util/logcat/FormatEntry.java:86-90 | Each level of recursion has fewer objects left that are not on the stack |
| `FormatEntry.ChosenIsFirst` | framework/src/main/java/utopia/android/patch/util/logcat/FormatEntry.java:76-81 | The first format that does not decline decides |
| `FormatEntry.ChosenExactly` | framework/src/main/java/utopia/android/patch/util/logcat/FormatEntry.java:76-81 | The first format that does not decline decides; without one nothing does |
| `FormatEntry.FormatOrder` | framework/src/main/java/utopia/android/patch/util/logcat/FormatEntry.java:54-59 | Three leading formats, the added ones, three trailing ones; the very first decides about all that it takes, the very last about what all others decline |
| `FormatEntry.ObjectPrinted` | framework/src/main/java/utopia/android/patch/util/logcat/FormatEntry.java:76-97 | Any object that is not on the stack: the text of the deciding format, or its template filled with the texts of all parts in order, each printed with the object on the stack; an exception anywhere is one for the whole |
| `FormatEntry.MarkPrinted` | framework/src/main/java/utopia/android/patch/util/logcat/FormatEntry.java:73-75 | An object equal to one on the stack prints its class name, or "null", and ".this" |
| `FormatEntry.AddedDecides` | framework/src/main/java/utopia/android/patch/util/logcat/FormatEntry.java:28-59 | A format just added decides about every object that it takes and the three leading formats decline |
| `FormatEntry.RemoveFirstRemoves` | framework/src/main/java/utopia/android/patch/util/logcat/FormatEntry.java:44-52 | Removing leaves no occurrence and no duplicate |
| `FormatEntry.RemoveFirstAt` | framework/src/main/java/utopia/android/patch/util/logcat/FormatEntry.java:44-52 | Exactly the one format is removed and the others keep their order |
| `FormatEntry.Entry.Add` | framework/src/main/java/utopia/android/patch/util/logcat/FormatEntry.java:28-37 | The format comes first, once; null changes nothing; the flushed array follows |
| `FormatEntry.Entry.Remove` | framework/src/main/java/utopia/android/patch/util/logcat/FormatEntry.java:44-52 | The format is gone; null changes nothing; the flushed array follows |
| `FormatEntry.Entry.Flush` | framework/src/main/java/utopia/android/patch/util/logcat/FormatEntry.java:54-59 | Three leading formats, the added ones, three trailing formats |
| `Logcat.Logger.RunAll` | framework/src/main/java/utopia/android/patch/util/logcat/Logcat.java:107-190 | For every forest of nested calls, including calls made while logging and logging that throws: depth and ignore flag return to their values, and the lines printed are those of the reference; while ignoring nothing changes |
| `Logcat.Logger.ReplaceHookedMember` | framework/src/main/java/utopia/android/patch/lang/ExternalKernel.java:146-169 | The same for one call, with the hooked calls of the original and of the hooks of patches in front of the logger and behind it |
| `Logcat.Logger.BeforeExecuted` | framework/src/main/java/utopia/android/patch/util/logcat/Logcat.java:107-155 | One level deeper, at most one line, the flag cleared also after an exception; nothing while ignoring |
| `Logcat.Logger.AfterExecuted` | framework/src/main/java/utopia/android/patch/util/logcat/Logcat.java:159-190 | One level up, at most one line, the record cleared; nothing while ignoring; throws where no depth was set |
| `Logcat.ForestLines` | framework/src/main/java/utopia/android/patch/util/logcat/Logcat.java:107-190 | Character by character, over any forest of calls: lines and events go together in order; each line starts with two spaces for each call entered and not yet left around it, then the class name, or dots exactly after an entry of the same class, and the text, with line ends replaced |
| `Logcat.EventsCounted` | framework/src/main/java/utopia/android/patch/util/logcat/Logcat.java:113-121 | Every event's depth counts the calls entered and not yet left around it, and every call entered is left |
| `Logcat.TwoLinesEach` | framework/src/main/java/utopia/android/patch/util/logcat/Logcat.java:107-190 | If no logging throws, each call outside the logger prints exactly two lines |
| `Logcat.CallLines` | framework/src/main/java/utopia/android/patch/lang/ExternalKernel.java:146-169 | The lines of a call come after those of the patches in front of the logger and before theirs again |
| `Logcat.OwnLines` | framework/src/main/java/utopia/android/patch/util/logcat/Logcat.java:122-130 | A call's own lines are its entry line, those of the calls inside it and its exit line; the class name is replaced by dots exactly after an entry of the same class |
| `Logcat.LinesJoin` | framework/src/main/java/utopia/android/patch/util/logcat/Logcat.java:123-130 | The lines of two stretches of events are those of each, the second starting from the record the first leaves |
| `VariableCache.ReadBack` | killer/src/main/cpp/Dobby/external/external_helper/variable_cache.c:66-118 | Reading a written list puts its reverse in front of the cache, byte by byte, whatever header is left over |
| `VariableCache.TwoRoundTrips` | killer/src/main/cpp/Dobby/external/external_helper/variable_cache.c:66-118 | Two round trips into empty caches restore the list |
| `VariableCache.LookupsSurvive` | killer/src/main/cpp/Dobby/external/external_helper/variable_cache.c:66-118 | Both directions: all lookups survive writing the list and reading it into an empty cache if and only if each key's last binding has the value of its first |
| `VariableCache.DistinctSurvives` | killer/src/main/cpp/Dobby/external/external_helper/variable_cache.c:66-118 | In particular all lookups survive that when no key repeats |
| `VariableCache.LoadingOverrides` | killer/src/main/cpp/Dobby/external/external_helper/variable_cache.c:92-118 | Loading a list without repetition overrides the old bindings of its keys and keeps the others |
| `VariableCache.OverriddenComesBack` | killer/src/main/cpp/Dobby/external/external_helper/variable_cache.c:66-118 | A binding overridden by loading comes back at the next round trip |
| `VariableCache.ReadingKeepsFit` | killer/src/main/cpp/Dobby/external/external_helper/variable_cache.c:100-115 | Whatever file is read without overrunning a buffer, every entry can be written again |
| `VariableCache.BlockRoundTrip` | killer/src/main/cpp/Dobby/external/external_helper/variable_cache.c:76-110 | A written entry is read back and exactly its bytes are consumed |
| `VariableCache.BlockBytes` | killer/src/main/cpp/Dobby/external/external_helper/variable_cache.c:76-84 | Byte by byte: both lengths in four bytes, least significant first, the name with its terminator, the value in eight bytes |
| `VariableCache.SetExactly` | killer/src/main/cpp/Dobby/external/external_helper/variable_cache.c:36-49 | Setting a bound name changes the value of its first entry and nothing else; a new name's entry goes in front |
| `VariableCache.KeyOverrunsExactly` | killer/src/main/cpp/Dobby/external/external_helper/variable_cache.c:101-109 | Both directions: reading a name overruns a buffer if and only if more than 128 bytes are read, or exactly 128 without a zero |
| `VariableCache.ValueReadExactly` | killer/src/main/cpp/Dobby/external/external_helper/variable_cache.c:102-105 | Both directions: reading a value overruns it if and only if more than 8 bytes are read; a short one is filled up with zeros |
| `VariableCache.TrailingBytes` | killer/src/main/cpp/Dobby/external/external_helper/variable_cache.c:99-115 | One to seven bytes at the end of a file add an entry with an empty name and value 0 |
| `Bytes.LittleEndianRoundTrip` | killer/src/main/cpp/Dobby/external/external_helper/variable_cache.c:61-84 | Integers of any width survive |
| `Bytes.LittleEndianDigit` | killer/src/main/cpp/Dobby/external/external_helper/variable_cache.c:61-84 | Byte k of an integer is its digit of 256^k |
| `VariableCache.SetRefines` | killer/src/main/cpp/Dobby/external/external_helper/variable_cache.c:36-49 | Setting is map update, also when keys repeat, and repeats no key |
| `VariableCache.Cache.Find` | killer/src/main/cpp/Dobby/external/external_helper/variable_cache.c:24-34 | The first entry of the name |
| `VariableCache.Cache.Set` | killer/src/main/cpp/Dobby/external/external_helper/variable_cache.c:36-49 | The new list, its meaning as a map, and distinct keys kept |
| `VariableCache.Cache.Get` | killer/src/main/cpp/Dobby/external/external_helper/variable_cache.c:51-57 | The value in the map, or 0 where there is none |
| `VariableCache.Cache.SerializedToFile` | killer/src/main/cpp/Dobby/external/external_helper/variable_cache.c:66-90 | The bytes of every entry in list order |
| `VariableCache.Cache.UnserializedFromFile` | killer/src/main/cpp/Dobby/external/external_helper/variable_cache.c:92-118 | The list after reading, with short and failing reads, or that a buffer was overrun; an unopened file changes nothing |

## Left out

- The A32 relocator and the Thumb-1 branches, which lack sign or immediate expansion as written.
- How Thumb flags are set: a state says which conditions hold.
- The x86 (32-bit) relocator: the same retry argument as x64.
- The code buffer, `LiteMutableBuffer` and `LiteMutableArray`: growing byte and pointer arrays, here sequences; they would only add easy members.
- `search_near_blank_memory_chunk`: what it finds is a parameter of the near arena; disjointness of near pages from other mappings is stated only as far as `MapsOverExactly` goes.
- `DobbyDestroy` on ARM32, where the address is changed between lookup and removal.
- mmap, mprotect, cache clearing, Mach calls, /proc parsing, JNI, dlopen, sockets, log sinks and threads.
- Reading of Mach-O load commands and shared caches, the ELF loaders, the dumpers and the monitors: pointer plumbing and input/output.
- Individual formats (`FormatObject`, `FormatIterable`, `FormatMap`) and the reflection helpers: what a format gives is a parameter.
- Leb128.ReadSleb128: a failure of the model where C++ does not define a shift: a tenth group other than 0 and 1, or an eleventh. For a tenth group of 1 the shifted bit becomes the sign bit, as two's complement compilers have it.
- ThumbAssembler.ThumbTurboAssembler.RelocBind: for labels that are not bound yet; the relocator calls it once, at the end.
- PatchRegistry.RunKeepsConsistent: the id counter is unbounded; the source counts in 64 bits.
- HookEngine.Dobby.Hook: unless the call is refused, the prologue and the trampoline must lie in memory and the prologue in the 64-byte save buffer, which the source does not test.
- NearMemoryArena.NearArena.AllocateChunk: the operating system grants finitely many pages, so the endless retry shows as a count that grows with them.
- VariableCache.Cache.Set: a name must fit its 128-byte field, which the source does not test.
- FormatEntry.Entry.ToString: formats do not change while an object is printed, and the class name in a mark is a parameter.
