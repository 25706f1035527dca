# A model of the binary toolchain and the runtime's object lifetimes

The repository takes two kinds of executables apart and puts them together again: the main DOL and the relocatable
REL modules. Its aim is a byte-for-byte reconstruction. This project models the code that has to be right for that,
states what it promises, and proves it for all inputs.

| files | what they model |
|---|---|
| `RelBranch`, `RelPatch`, `RelScan`, `RelRepair` | resolving R_PPC_REL24 branches in place and deleting their entries from delta-coded tables |
| `RelTable` | the decoder and the encoder of relocation tables |
| `RelLayout`, `RelFormat`, `RelFile`, `RelMeaning` | the layout of a REL file, its bytes, the class that writes and reads it, and what a written module means |
| `RelBytes`, `RelReads` | the bytes of a REL file, word by word, as they are written and read |
| `RelNames`, `RelPipeline`, `RelExtraction`, `RelRebuild` | relocations on their way through ELF objects and back into a module |
| `SliceObject` | the object that is made of a slice, with aliases |
| `RelTargets` | where relocations point, stated on symbols, and what the tables built from them say |
| `RelEncoded`, `RelRebuilt` | what an encoded table is to the writer, and a whole module taken apart, built again and read |
| `Utf8Text`, `ElfStrings`, `ElfCodec`, `ElfFile`, `ElfReader`, `ElfRoundTrip`, `ElfBytes` | ELF objects: UTF-8, string tables, records, writing, reading, and the bytes of both |
| `Lz`, `LzTokens` | the LZ decoder and the meaning of its tokens |
| `Slices`, `SlicePartition`, `SliceSums`, `SliceLoaded` | slice files: filling gaps, partitions, progress counts, and what is loaded |
| `IncludeText`, `Includes` | the include expander: the text and the traversal |
| `Dol`, `DolRoundTrip`, `DolBytes`, `DolBuild` | DOL files and how their 18 slots are filled |
| `Runs` | stretches of functions still to be decompiled |
| `DestructorChain`, `ClassArrays` | the C/C++ runtime: global destructors, array construction |
| `Bits`, `Bytes`, `Chunks`, `RelTypes`, `Wrappers` | alignment, big-endian packing, files written at seek positions, shared data |

Loops and objects that change state in place are methods and classes here, each proved against a function on values;
the properties are lemmas about those functions. Beside them, what a result means is said a second time without those
functions: on the bytes of a file, on symbols, on the input of a loader or on the text. An exception of the Python code
is `None` or `ok == false`.

## What the code does where one might expect otherwise

- Deleting a resolved branch gives its gap to the next entry only if that entry's type is below R_RVL_NONE
  (tools/relfile.py:261). If a filler follows, everything behind it in the section moves down
  (`RelScan.LostGapExample`); `RelScan.DeletionKeepsPositions` says exactly when that happens. A repaired gap of
  0x10000 or more makes the later write fail (tools/relfile.py:40): `RelRepair.OverflowExample`, and exactly when in
  `RelRepair.LeftTableFits`.
- A branch of the own module into a section without data is aimed as if the section stood at the start of the file, and
  its entry is deleted (tools/relfile.py:244-247, 271-273); `RelMeaning.WrittenModuleMeaning` has the exact condition
  and `RelMeaning.BssTargetExample` such a module.
- `Rel.read` takes `fix_size` from offset 8 (tools/relfile.py:163), where a zero is written, so it comes back as 0.
  Sections without data come back as bss, without their executable flag if they were bss; alignments are not stored.
- A module with number 0 that refers to itself lists module 0 twice in its import table (tools/relfile.py:295-298) and
  writes its table twice. It still reads back, because imp_size does not count the second entry (`RelFormat.FileHolds`).
- Alias keys are upper-cased and looked up in lower case (tools/slice_rel.py:60, 99-100), so an alias is found only
  where its numbers have no hex letters (`RelNames.LostAliasExample`).
- Slice sections that share an index also share one object section for aliases, the last (tools/slice_rel.py:74, 87-89),
  while the value is counted from the start of the section that contains the place; `SliceObject.AliasPlace` says when
  the two agree.
- The name substituted for `__destroy_global_chain` prints the module number in decimal (tools/build_rel.py:128-131) and
  is searched as hexadecimal (`RelPipeline.ChainNameOwn`).
- String table offsets count characters while the table is written in UTF-8 (tools/elffile.py:190, 207), so they are
  right exactly as long as all earlier names are ASCII (`ElfStrings.OffsetExample`). This reader counts characters too,
  so that it still finds the names.
- A section other than the first without a name makes an ELF object unreadable: names are found by counting the
  non-empty ones (tools/elffile.py:195, 210-213).
- The data of a NULL-typed section are looked for at offset 0 (tools/elffile.py:477), so they come back only if the file
  begins with them (`ElfRoundTrip.WriteThenRead`, `ElfRoundTrip.NullDataIsLost`).
- The LZ decoder compares its position in the data with the length of the whole file, which is 4 more than the data
  have; so this exit is never taken and data that end early raise an index error (tools/uncompress_lz.py:69).
- An unused DOL section is read as a used, empty one, so that its offset is not 0 when it is written again: the bytes
  are the same exactly if no slot was unused (`DolRoundTrip.RewritingIsIdentical`).
- Sections of a slice file may share an index, as .bss, .sbss and .sbss2 of the DOL do; then one offset belongs to several
  slice sections (`SliceSums.SharedIndexExample`).
- Slices cover each section from end to end even if the input ranges overlap or go backwards; the total of the
  progress count is right even then, because backward pieces count negatively.

## Model

| member | source | states |
|---|---|---|
| `Bits.AlignIsLeastMultiple` | tools/relfile.py:12-13 | `(v + a - 1) & ~(a - 1)`, computed bit by bit, is the least multiple of a power-of-two alignment that is not below the value |
| `RelBranch.MaskMeaning` | tools/relfile.py:251-253 | the sums that stand for the mask expression are what it does to every 32-bit word |
| `RelBranch.PatchedWord` | tools/relfile.py:250-254 | a patched word keeps its six opcode bits and its AA and LK bits |
| `RelBranch.BranchReaches` | tools/relfile.py:248-254 | a relative branch, patched with its distance, takes the processor to its goal (a 32-bit address) if and only if the distance, taken modulo 2^32 as a signed number, is a multiple of 4 in 26 signed bits |
| `RelPatch.PatchesHold` | tools/relfile.py:249-254 | after all patches, over any number of non-overlapping sites, each site holds its own word patched once and every other byte of every section is unchanged |
| `RelPatch.PatchedReaches` | tools/relfile.py:243-254 | a patched word keeps its opcode, AA and LK bits and goes to the address it names, at every load base and wherever sections without data are put, if and only if AA is 0, the section it is aimed at has an offset in the file and the distance fits |
| `RelScan.ScanKeepsOthers` | tools/relfile.py:231-265 | deleting branches never moves a surviving relocation away from where the running position of the scan saw it |
| `RelScan.ScanSeesTable` | tools/relfile.py:231-265 | the scan sees every reference of the own module where the decoder reads it if and only if no needed gap is dropped |
| `RelScan.GapSafeDropsNothing` | tools/relfile.py:256-263 | no needed gap is dropped if and only if, in the table as it was, no run of branches with a positive gap stands directly before an entry of type R_RVL_NONE or above with a reference behind it in its section |
| `RelScan.DeletionKeepsPositions` | tools/relfile.py:256-265 | for every own-module table, surviving relocations keep section, position, type and target and branches are patched at their own position if and only if the table is gap-safe in that sense |
| `RelScan.LostGapExample` | tools/relfile.py:261-262 | two relocations that the encoder accepts for which the condition fails: the second one decodes four bytes too low after the first is resolved |
| `RelScan.ScanExample` | tools/relfile.py:231-265 | one branch deleted, its gap given to the next entry, both references seen at their own positions |
| `RelScan.ScanOtherModule` | tools/relfile.py:243-247 | in a foreign module's table nothing is deleted and every reference is seen at its decoded position |
| `RelScan.SeenBranchesAreNamed` | tools/relfile.py:225-265 | for gap-safe tables, over all modules, the branches patched are exactly the branches the tables name |
| `RelScan.SeenSites` | tools/relfile.py:243-252 | the sections that resolving looks up exist, for every branch it meets, if and only if the tables name existing sections at their branches |
| `RelScan.ResolvedBranchesReach` | tools/relfile.py:225-265 | resolving all branches of a module: exactly the named branches are patched; one of the own module goes to the address it names, one of another module to `_unresolved`, at every base if and only if it is relative, aimed at a section with data, and near enough; bytes outside the branch words are untouched |
| `RelRepair.LeftTableFits` | tools/relfile.py:256-262 | the table that resolving leaves can be written if and only if every entry that is not a branch fits its fields with the gaps of the run of branches directly before it added |
| `RelRepair.LeftTablesFit` | tools/relfile.py:38-40 | the same for all tables of a module: those of other modules must fit as they are |
| `RelRepair.OverflowExample` | tools/relfile.py:261-262 | two relocations that the encoder accepts, with gaps that fit, whose table can no longer be written once the branch is resolved |
| `RelTable.ReadRelocRefs` | tools/slice_rel.py:28-45 | the loop with its running position and section computes the decoding `AllRefs` of all tables |
| `RelTable.ReadRefsConcat` | tools/slice_rel.py:33-45 | decoding a table in two parts, the second from where the first stopped, decodes the whole |
| `RelTable.ConvertToRelRelocations` | tools/build_rel.py:33-68 | succeeds if and only if the relocations are sorted by offset; then it emits the section change and, for each relocation, its fillers and its entry |
| `RelTable.SectionRoundTrip` | tools/build_rel.py:33-68 | decoding the encoding of one section's sorted relocations gives back positions, types, targets and addends, with arbitrarily large gaps |
| `RelTable.TableRoundTrip` | tools/build_rel.py:158-171 | the same for a whole table: any number of sections, closed by STOP |
| `RelTable.EncodedGapsFit` | tools/build_rel.py:51-60 | every emitted gap fits in 16 bits |
| `RelTable.GroupGapsFit` | tools/build_rel.py:157-171 | every gap of a whole encoded table fits in 16 bits |
| `RelTable.EncodeBodySnoc` | tools/build_rel.py:158-161 | extending a module's table by one more section is encoding the longer list of sections |
| `RelTable.ReadRefsMeaning` | tools/slice_rel.py:28-45 | without a running position: the references are the entries of types below 201, each in the section of the last section change before it, at the sum of the gaps since |
| `RelTable.EntriesMeaning` | tools/build_rel.py:51-67 | a relocation becomes the least number of fillers of 0xFFFF and one entry with the rest of the gap, its type, the symbol's section and its value plus the addend |
| `RelTable.EncodedExample` | tools/build_rel.py:33-68 | two relocations 0x20000 apart become five entries |
| `RelLayout.DataTiled` | tools/relfile.py:270-278 | stored sections occupy disjoint ascending ranges behind the section table |
| `RelLayout.ModuleOrderCounts` | tools/relfile.py:292-298 | every module stands in the import table exactly once, except that module 0 stands there twice if and only if the module written is number 0 and refers to itself |
| `RelLayout.ModuleOrderShape` | tools/relfile.py:292-298 | for a nonzero index: foreign modules ascending, then the own module, module 0 last, each key exactly once |
| `RelLayout.ImportOrderShape` | tools/relfile.py:292-298 | for every index: what a reader of the import table gets is each key once, foreign modules ascending, then the own module, module 0 last |
| `RelLayout.TablesTiled` | tools/relfile.py:300-303 | relocation tables start at multiples of 4 behind the import table and occupy disjoint ascending ranges |
| `RelFormat.LayoutTiled` | tools/relfile.py:267-328 | header, section table, section data, import table and relocation tables of a module occupy pairwise disjoint ascending ranges, unless module 0 is listed twice |
| `RelFormat.TwiceNotTiled` | tools/relfile.py:295-303 | where module number 0 refers to itself and its table is not empty, parts of the file are written twice and no such ranges exist |
| `RelFormat.FileHolds` | tools/relfile.py:310-328 | for every module number, all that a reader looks at stands in the written file: what is written twice is the same or beyond imp_size |
| `RelFormat.BetweenPartsZero` | tools/relfile.py:310-328 | every byte of the file that belongs to no part is zero |
| `RelFormat.HeaderRoundTrip` | tools/relfile.py:186-215 | all header fields read back except fix_size, which is read from offset 8 and comes back 0 |
| `RelFormat.SectionsRoundTrip` | tools/relfile.py:75-92 | lengths, data and executable flags of stored sections come back; the others come back as bss |
| `RelFormat.TableRoundTrip` | tools/relfile.py:174-181 | a table with one STOP, at its end, reads back entry by entry |
| `RelFormat.ImportsRoundTrip` | tools/relfile.py:169-181 | all modules' tables read back, each under its number |
| `RelFormat.RelRoundTrip` | tools/relfile.py:135-181 | for every module number, reading a written REL gives back header (fix_size 0), sections and every relocation table |
| `RelFile.Rel.TryRelocateRel24` | tools/relfile.py:225-265 | in place: it fails if and only if a section or the entry behind a deleted branch is missing; else sections are patched for every branch the scan saw, in order, and the tables are those the scan leaves; where the words then go is `RelBytes.BranchWritten` |
| `RelFile.Rel.RelocateTable` | tools/relfile.py:226-265 | one table: the loop with its index, deletions and repaired gaps does what the scan of that table says and touches no other table; it fails exactly where something is missing |
| `RelFile.Rel.PlaceSections` | tools/relfile.py:270-278 | the loop computes the section positions of the layout, for every alignment |
| `RelFile.Rel.PlaceTables` | tools/relfile.py:300-303 | the loop computes the table positions of the layout |
| `RelFile.Rel.Write` | tools/relfile.py:267-328 | resolves, lays out and writes; succeeds if and only if nothing is missing, the positions and header fields fit, and the tables as they were fit with their repaired gaps; then the file is the one of the plan, whose bytes are described by the `RelBytes` rows |
| `RelFile.Rel.Read` | tools/relfile.py:135-181 | fills the object with exactly what the format says the bytes mean, and fails exactly where it says nothing |
| `RelFile.WriteTables` | tools/relfile.py:325-328 | writes every table at its position; fails exactly where a gap, type, section or addend does not fit |
| `Bytes.WriteAtHere` | tools/relfile.py:310-328 | what is written at a seek position stands there |
| `Bytes.WriteAtElsewhere` | tools/relfile.py:310-328 | and leaves every range that ends before it or begins behind it as it was |
| `Bytes.BigEndianExample` | tools/relfile.py:16-17 | the first byte of a packed number is the highest |
| `Chunks.GapsAreZero` | tools/relfile.py:310-328 | after any writes at any seek positions a byte that none of them covers is what it was, or zero behind the old end |
| `RelFile.PlanLaidOut` | tools/relfile.py:267-307 | the plan of `Write` meets the layout that the round trip needs, for every module number |
| `RelMeaning.RecordedIsLoc` | tools/relfile.py:79-85 | the section table of the file records where each stored section's data stand, and 0 for a section without data |
| `RelMeaning.WrittenModuleMeaning` | tools/relfile.py:225-328 | whole life of a module: the written file reads back; each branch word of the file goes, at every load base and every placement of sections without data, to the address that the file's own section table gives for its goal if and only if AA is 0, the goal's section has data and the distance fits (`RelBytes.BranchGoes` says the goal in header fields); and the tables of the file relocate exactly the remaining references where they always were |
| `RelMeaning.BssTargetExample` | tools/relfile.py:243-257 | a branch into a bss section is resolved and its entry deleted, but it does not follow the placement of that section |
| `RelBytes.HeaderWritten` | tools/relfile.py:186-215 | every word and byte of the header of a written file: the fields as given and what the writer fills in, with imp_offset behind the stored sections |
| `RelBytes.SectionWritten` | tools/relfile.py:75-78 | the two words of each section: its place with the executable bit, or 0 for bss, and its length |
| `RelBytes.DataPacked` | tools/relfile.py:270-278 | the places in the section table are the packing of the stored sections: each begins at the first multiple of its alignment behind the one before, and the import table follows the last |
| `RelBytes.DataWritten` | tools/relfile.py:315-320 | every byte of a stored section that no branch word covers stands in the file at the recorded place as it was |
| `RelBytes.BranchWritten` | tools/relfile.py:243-254 | in header fields, references and file bytes: every branch word keeps its opcode and two low bits and holds the distance to `addend` in section `target` if it names the own module, else to `unresolved` in `unresolvedSection`, by the places that the file's section table gives |
| `RelBytes.BranchGoes` | tools/relfile.py:239-254 | that word takes the processor there if and only if AA is 0, that section has data and the distance fits |
| `RelBytes.UnresolvedExample` | tools/build_rel.py:193-198 | with the hard-coded values a branch of module 2 at 1:0x100 against module 1 becomes 0x4BFFFF61 |
| `RelBytes.TablesLeft` | tools/relfile.py:256-262 | the tables of the file are the given ones, the own one without its branches and with its repaired gaps |
| `RelBytes.ImportWritten` | tools/relfile.py:321-328 | every import entry names its module and the place where the eight bytes of each entry of that module's table stand |
| `RelBytes.TablesPacked` | tools/relfile.py:300-303 | each table begins at the first multiple of 4 behind the one before |
| `RelBytes.FixSizeWritten` | tools/relfile.py:305-307 | from version 3 on the last header word is the place of the own module's table |
| `RelReads.ReadMeaning` | tools/relfile.py:135-181 | a file is read as an object if and only if its words say so: header by offset, two words for each section, and for every import the entries up to STOP or the end of the file, no module twice |
| `RelNames.NameRoundTrip` | tools/slice_rel.py:21-22 | searching any text `R_mod_sec_addend` for the relocation-name pattern gives back the three numbers |
| `RelNames.NamesDiffer` | tools/slice_rel.py:21-22 | different targets have different names |
| `RelNames.AliasKeyDenotesTarget` | tools/slice_rel.py:56-60 | the upper-cased key of an alias still denotes the same target |
| `RelNames.AliasFoundIffNoLetters` | tools/slice_rel.py:99-101 | a lookup by the lower-case name meets an upper-cased alias key if and only if the three numbers are written without hex letters |
| `RelNames.LostAliasExample` | alias_db.txt:2 | the alias of R_2_1_f0 is stored under R_2_1_F0 and never found |
| `RelNames.SearchMeaning` | tools/elfconsts.py:189 | the search finds the leftmost place where `R_`, digits, `_`, digits, `_`, digits are spelled, with each run of digits as long as possible, and nothing if and only if nothing is spelled anywhere |
| `RelPipeline.Extractor.ExtractSection` | tools/slice_rel.py:92-108 | one ELF relocation for each reference in the slice section, in order, against the number known for the target's name; the symbol table grows by one undefined symbol for each name that was not known, at its first use, and by nothing else |
| `RelPipeline.Extractor.ExtractSlice` | tools/slice_rel.py:92-111 | the same for every section of a slice, with one shared symbol table, whatever is in it before |
| `RelPipeline.OneSymbolEach` | tools/slice_rel.py:97-105 | from an empty table: one undefined symbol for each name that is referred to, in the order of first use |
| `RelPipeline.ExtractedFields` | tools/slice_rel.py:98-108 | an extracted relocation has the distance from the slice's start, the type and addend 0, against an undefined global symbol that spells module, section and addend in hexadecimal |
| `SliceObject.ExtractObject` | tools/slice_rel.py:48-118 | the whole object: NULL section, one section for each slice section, relocation sections of those that have any, and the symbol table, with aliases first; it fails if and only if a section does not exist or an alias names no place |
| `SliceObject.DataSectionFields` | tools/slice_rel.py:62-74 | a slice section holds the bytes of the module's section between its ends, or for .bss their number, with the slice's alignment |
| `SliceObject.RelaPlaces` | tools/slice_rel.py:110-116 | the relocations of a slice section stand in the order of those that have any, linked to the symbol table at the end and to the first section of that name |
| `SliceObject.EachDenotes` | tools/slice_rel.py:97-108 | aliases lead no relocation astray: each is against the undefined name of its target, or against the symbol of an alias that names the same place |
| `SliceObject.AliasUsed` | tools/slice_rel.py:100-105 | a relocation is against a defined symbol if and only if the name of its target is the key of an alias of a place in the slice |
| `SliceObject.AliasNeedsDigits` | tools/slice_rel.py:99-101 | and as keys are in upper case, only targets whose numbers are printed without letters meet one |
| `SliceObject.AliasPlace` | tools/slice_rel.py:74-90 | the symbol of an alias stands at the place that it names if and only if the last slice section with that index starts where the one that contains the place does |
| `SliceObject.SpecialExamples` | tools/elfconsts.py:213-243 | type and flags of sections by their names |
| `RelPipeline.Classifier.FindSymbol` | tools/build_rel.py:20-30 | with a coherent cache the answer is that of the uncached search, and the cache stays coherent |
| `RelPipeline.ChainNameOwn` | tools/build_rel.py:128-131 | the substitute for __destroy_global_chain prints the module number in decimal and is searched as hexadecimal: it leads to the own module if and only if the number is below 10 |
| `RelPipeline.Classifier.FindTarget` | tools/build_rel.py:119-151 | the destination is the own module for defined symbols, the parsed name for `R_` names, else the first other module that defines the name |
| `RelPipeline.Classifier.Classify` | tools/build_rel.py:119-154 | the dictionary holds for every module exactly the relocations that resolve to it, in their old order; the count is that of the unresolved ones |
| `RelPipeline.Classifier.BuildTables` | tools/build_rel.py:84-171 | fails if and only if some group is unsorted; otherwise the table of each module is the encoding of its groups, with STOP last, and the count is that of all unresolved relocations; what the tables say is `RelTargets.ProcessRelocations` |
| `RelTargets.ProcessRelocations` | tools/build_rel.py:84-171 | stated on symbols: it fails if and only if the relocations of one section that point into one module do not ascend; else each module's table decodes to exactly the meanings of the relocations that point into it, in their order, and the count is that of those that point nowhere |
| `RelTargets.DefinedSymbolSaid` | tools/build_rel.py:123-126 | a relocation against a defined symbol gives a reference in the table of the own module, to the symbol's section and its value plus the addend |
| `RelTargets.UndefinedNameSaid` | tools/build_rel.py:144-151 | one against an undefined name without the `R_` form gives a reference in the table of the least other module whose first symbol of that name is defined, to that symbol |
| `RelTargets.NothingElseSaid` | tools/build_rel.py:157-161 | every reference of a table is the meaning of a relocation |
| `RelTargets.ResolveMeaning` | tools/build_rel.py:119-151 | a relocation is resolved to a place if and only if it points there: a defined symbol to itself in the own module, an undefined name to what it spells or else to the first other module that defines it |
| `RelTargets.SearchMeaning` | tools/build_rel.py:144-149 | the search over modules finds the least that supplies the name, and nothing if and only if none does |
| `RelTargets.SortedMeaning` | tools/build_rel.py:48-49 | the encoder accepts all groups if and only if, in every section, the relocations that point into one module ascend |
| `RelTargets.AllUnresolvedMeaning` | tools/build_rel.py:153-154 | the count of unresolved symbols is the number of relocations that point nowhere |
| `RelRebuild.RebuildKeepsReferences` | tools/build_rel.py:119-171 | slicing a module into one object and rebuilding it: the encoder accepts the relocations if and only if those of one section against one module ascend, and then each module's new table decodes to the references of its old one, section by section in their old order |
| `RelRebuild.TablesAscend` | tools/slice_rel.py:28-45 | in tables that begin with a section change and name each section once they always ascend |
| `RelRebuild.BySectionPermutes` | tools/build_rel.py:84-161 | section by section is a permutation of the references |
| `RelRebuild.BySectionIdentity` | tools/build_rel.py:84-161 | and no change at all for tables that list their sections in ascending order |
| `RelEncoded.EncodedShape` | tools/build_rel.py:157-171 | an encoded table ends with its only STOP, has plain section changes, and an entry behind every branch |
| `RelEncoded.EncodedGapSafe` | tools/build_rel.py:51-60 | resolving the branches of an encoded table loses no needed gap if and only if in no section a run of branches with a positive gap is followed, more than 0xFFFF later, by another relocation |
| `RelEncoded.EncodedRefits` | tools/relfile.py:38-40 | an encoded table can be written after resolving if and only if every relocation that is left fits together with the gaps of the branches since the last one or the last filler |
| `RelRebuilt.BuiltIsRebuilt` | tools/build_rel.py:157-171 | what BuildTables returns are the rebuilt tables |
| `RelRebuilt.RebuiltFileMeaning` | tools/build_rel.py:70-208 | a module that is sliced into one object, encoded again, written and read: the writer finds nothing missing; the file can be written if the numbers outside the tables fit; it reads back; for every module its table decodes to the references of the old table, section by section and without the resolved branches; and every branch of the old tables is linked in the file if and only if it can be |
| `RelExtraction.EachExtractedOnce` | tools/slice_rel.py:92-108 | for slices in ascending ranges, all slice sections together extract each relocation exactly once if and only if exactly one section of the slice file covers the place of each |
| `ElfStrings.Strtab.AddString` | tools/elffile.py:220-227 | the returned offset denotes the string, and offsets returned earlier still denote what they did |
| `ElfStrings.Strtab.GetAtOffset` | tools/elffile.py:215-218 | the dictionary gives for every offset the string that begins there, counted in characters, and the empty string elsewhere |
| `ElfStrings.EmitHolds` | tools/elffile.py:206-208 | every string stands in the emitted bytes, ended by a NUL |
| `ElfStrings.OffsetIsPlace` | tools/elffile.py:220-227 | the offset handed out for a string is where it stands in the emitted bytes if and only if all earlier strings are ASCII |
| `ElfStrings.OffsetExample` | tools/elffile.py:220-227 | behind a name of one character and two bytes the next name gets offset 3 and stands at 4 |
| `ElfStrings.StringsRoundTrip` | tools/elffile.py:192-199 | an emitted string table reads back as the strings added to it if and only if none is empty or contains a NUL, in any script |
| `Utf8Text.DecodedIffEncoded` | tools/elffile.py:195 | the strict decoder accepts exactly the encodings, each as the text it encodes |
| `Utf8Text.EncodedExamples` | tools/elffile.py:207 | one character of each length |
| `ElfCodec.FileHeaderReadsBack` | tools/elffile.py:30-75 | a packed ELF header reads back |
| `ElfCodec.HeaderReadsBack` | tools/elffile.py:95-131 | a packed section header reads back |
| `ElfCodec.SymbolReadsBack` | tools/elffile.py:245-272 | a packed symbol reads back, with binding and type split out of the info byte |
| `ElfCodec.RelaReadsBack` | tools/elffile.py:329-341 | a packed relocation reads back, with symbol index and type split out of the info word and the addend's sign |
| `ElfFile.LastLocal` | tools/elffile.py:297-299 | the index of the last local symbol, counting from 1, or 0 if there is none: that symbol is local and no local one is behind it (sh_info is one more: `ElfBytes.ObjectWritten`) |
| `ElfFile.Elf.AddTables` | tools/elffile.py:456-461 | string tables are appended where no section has their name, and their indices recorded |
| `ElfFile.Elf.Link` | tools/elffile.py:463-471 | every symbol and section gets the offset of its name, in order, and the table sections hold the strings |
| `ElfFile.EmitSections` | tools/elffile.py:473-480 | data, padding and offsets of all sections |
| `ElfFile.PadData` | tools/elffile.py:479-480 | padding to the next multiple of 4 |
| `ElfFile.Elf.ToBytes` | tools/elffile.py:455-492 | the file image of the linked sections; it succeeds if and only if every number fits its field; what the bytes say is `ElfBytes.ObjectWritten` |
| `ElfBytes.ObjectWritten` | tools/elffile.py:455-492 | the bytes of a written object: file header; contents one behind the other, each at the next multiple of 4; and every section header: for a symbol table entsize 16, info one more than the index of the last local symbol, the string table as link and 16 bytes for each symbol and the first; for relocations entsize 12 and 12 bytes each; the other fields as given |
| `ElfBytes.NameStands` | tools/elffile.py:220-227 | among ASCII names, the name of a section or symbol stands in the file where its offset says, ended by a NUL |
| `ElfBytes.ReadTables` | tools/elffile.py:387-396 | whatever file can be read: its section names are the strings of the section that the header points to, and its symbol names those of the first section named .strtab |
| `ElfBytes.ReadSection` | tools/elffile.py:399-423 | whatever file can be read: one section for each header, with the fields of the header and the contents that its type, offset and size give |
| `ElfReader.Read` | tools/elffile.py:387-423 | the loop computes the reading `ReadElf`, with its assertions and index errors |
| `ElfRoundTrip.NamesCount` | tools/elffile.py:210-213 | the table holds as many names as there are sections exactly when no name is empty, and then name i belongs to section i |
| `ElfRoundTrip.SectionReads` | tools/elffile.py:376-385 | header and data of each written section that survives are found through the header table |
| `ElfRoundTrip.EntriesLinked` | tools/elffile.py:303-307 | offsets given to symbols early denote their names in the final table |
| `ElfRoundTrip.WriteThenRead` | tools/elffile.py:399-423 | reading a written object gives the header, names, symbols, relocations and bytes that were written (`ElfBytes.ObjectWritten`) for every section if and only if every section but the first has a name and its type suits what it holds: no data in NOBITS, none in NULL but what the file begins with, no promised size without data; without all names reading fails |
| `ElfRoundTrip.NullDataIsLost` | tools/elffile.py:477 | data of a NULL section that begin with another byte than the file are not read back |
| `ElfRoundTrip.SymtabReads` | tools/elffile.py:425-434 | read_symtab of a written object gives the symbols of its first .symtab with their names if its type is that of a symbol table, and fails otherwise |
| `Lz.ReadPayload` | tools/uncompress_lz.py:34-57 | each of the four spellings of a token is read back as that token |
| `Lz.ReadUnique` | tools/uncompress_lz.py:43-57 | whatever is read spells exactly that way: the three length forms cover 3..16, 17..272 and 273..65808 without gap or overlap, and distances 1..4096 |
| `Lz.FieldsMeaning` | tools/uncompress_lz.py:45-55 | the sums stand for the masks, shifts and ors of the program |
| `Lz.CopyBytes` | tools/uncompress_lz.py:59-60 | the byte loop on the array is the copy run, with its index errors and Python's negative indices |
| `Lz.DecodeGroup` | tools/uncompress_lz.py:30-71 | the inner loop on the array is the decoding of up to eight tokens |
| `Lz.Decompress` | tools/uncompress_lz.py:23-71 | the outer loop ends on every input, and the array then holds what the groups of the data decode to; it fails exactly where they do not decode |
| `Lz.UncompressLZ` | tools/uncompress_lz.py:6-77 | the program computes `Uncompressed` of the file |
| `LzTokens.CopyIsPeriodic` | tools/uncompress_lz.py:57-60 | byte i of a copy of distance d is the byte at distance d before the copy plus i mod d, for any length, and earlier output is unchanged |
| `LzTokens.CopyRunSucceeds` | tools/uncompress_lz.py:57-60 | a copy raises no index error if and only if it ends within the result and starts, counted from the end where negative, in it |
| `LzTokens.GroupsApply` | tools/uncompress_lz.py:29-71 | decoding is applying the tokens that the data spell; the test at line 69 never ends it |
| `LzTokens.UncompressMeaning` | tools/uncompress_lz.py:29-71 | for every file: it decodes if and only if its data spell tokens of exactly the promised size whose copies start in the buffer, and where they start in written output the result is the expansion of the tokens |
| `LzTokens.DecodeEncode` | tools/uncompress_lz.py:29-71 | decoding the byte encoding of any well-formed token list yields its functional expansion |
| `LzTokens.CopyExamples` | tools/uncompress_lz.py:34-57 | one copy of each form, at both ends of the distances |
| `LzTokens.FileExample` | tools/uncompress_lz.py:6-77 | a whole file, with a literal, a copy and one that overlaps itself |
| `Slices.MakeFillerSlice` | tools/slicelib.py:92-103 | a slice of the nonempty gaps, or none; that it has no source is `SliceLoaded.LoadedHolds` |
| `Slices.ParseSliceRanges` | tools/slicelib.py:123-135 | the loop over memory ranges, with its key errors |
| `Slices.LoadSliceFile` | tools/slicelib.py:106-157 | the loop computes `LoadSlices`, whose meaning the `SliceLoaded` rows state |
| `SliceLoaded.LoadSucceeds` | tools/slicelib.py:106-157 | loading succeeds if and only if every range is in a section of the file that is not empty |
| `SliceLoaded.LoadedHolds` | tools/slicelib.py:106-157 | the loaded list holds the input slices in order, with their names, sources, marks and ranges; before, between and behind them stands at most one filler: numbered from 0, without source, of nonempty parts of sections in the order of the file |
| `SliceLoaded.LoadedPlaced` | tools/slicelib.py:113-135 | no section of a loaded slice lies before the beginning of its section in the file, whatever the ranges are |
| `SliceLoaded.ExtractedOfLoaded` | tools/slice_rel.py:133-138 | every filler is extracted, and of the input slices exactly those without a source or marked nonMatching; the others are those that count as compiled |
| `SliceLoaded.CountFile` | progress.py:66-77 | of a file that is loaded: the compiled bytes are the lengths of the ranges, in the sections asked for, of the input slices that have a source and are not marked nonMatching; the total is the sum of the sizes of those sections |
| `SlicePartition.SectionIsChain` | tools/slicelib.py:113-154 | for every nonempty section the pieces of all slices, in list order, join end to end from its offset to its end, whatever the input ranges are |
| `SlicePartition.ForwardIffAscending` | tools/slicelib.py:113-154 | all pieces run forward, and so partition the section, if and only if the input ranges of the section ascend within it |
| `SlicePartition.SlicesRebuildSection` | tools/slicelib.py:113-154 | then the bytes cut out by the pieces, concatenated in slice order, are the section's data |
| `SlicePartition.CutsRebuild` | tools/slice_dol.py:24-25 | cutting data at the pieces of a forward chain and joining the cuts gives the data |
| `SliceSums.ContainedOnce` | tools/slicelib.py:66-67 | for ascending ranges an offset is contained in as many slice sections as sections of the file with that index cover it |
| `SliceSums.ContainedOnceIff` | tools/slicelib.py:66-67 | every covered offset is contained in exactly one slice section if and only if no two sections with the same index overlap |
| `SliceSums.SharedIndexExample` | slices/wiimj2d.json:77-106 | sections that share index and offset: their first offset is contained in three slice sections |
| `SliceSums.CalculateDecompiledBytes` | progress.py:66-77 | the two counters are the sums over all and over compiled slice sections |
| `SliceSums.TotalIsSize` | progress.py:66-77 | the total equals the summed sizes of the sections asked for, for every slice file |
| `SliceSums.ProgressBounded` | progress.py:66-77 | compiled bytes are never negative and never exceed the total when ranges ascend |
| `Includes.Expander.ExpandHeader` | tools/decompctx.py:13-34 | the text and the visited set of the traversal; it ends on every include graph, cyclic ones included; the text is laid out node by node and, but for white space, says the own text of the items and of every emitted header, depth first |
| `Includes.VisitsReachable` | tools/decompctx.py:13-34 | from an empty set exactly the headers reachable by chains of includes are visited |
| `Includes.EmitsOnce` | tools/decompctx.py:17-30 | every newly visited header is emitted exactly once, with its own contents in place of the directive that named it |
| `Includes.EmitsReachableOnce` | tools/decompctx.py:13-34 | from the beginning: the headers emitted are the reachable ones, each once |
| `Includes.EmittedBeforeUse` | tools/decompctx.py:17-30 | what a directive names has been emitted, or was visited before, by the time the text behind the directive follows |
| `Includes.ContentsOnce` | tools/decompctx.py:13-34 | the pieces of that text are, for the text itself and for every header newly visited, exactly the own text of its file, once; none are of another file |
| `Includes.ReachableContentsOnce` | tools/decompctx.py:13-34 | from the beginning: the own text of every reachable header, once |
| `Includes.ResolveMeaning` | tools/decompctx.py:17-21 | a directive names the file in the first directory that has it, and nothing if and only if none has it |
| `IncludeText.RenderMeaning` | tools/decompctx.py:30-32 | a text is the rendering of nodes if and only if it is laid out so: own text as it is, nothing for a directive that is dropped, and for an expanded one the inner text without the white space around it and one newline behind |
| `IncludeText.RenderSays` | tools/decompctx.py:17-34 | with white space removed, the rendering is the own text of all nodes, depth first |
| `IncludeText.SpaceExamples` | tools/decompctx.py:30 | what counts as white space and what does not |
| `IncludeText.StripMeaning` | tools/decompctx.py:30 | stripping takes the white space off both ends and nothing else |
| `Dol.AlignIsRoundUp` | tools/dolfile.py:11-12 | the mask expression rounds up to a multiple of 0x20 |
| `Dol.Dol.Write` | tools/dolfile.py:71-101 | succeeds if and only if there are 18 sections and every number fits, and then the file holds header and padded sections |
| `Dol.Read` | tools/dolfile.py:61-66 | the object read is what the bytes mean |
| `DolBytes.ReadMeaning` | tools/dolfile.py:30-66 | a file is read as a DOL if and only if its bytes say so: for each of 18 slots offset, address and length by position in the header, and data of that length |
| `DolBytes.WritableIff` | tools/dolfile.py:71-88 | a DOL can be written if and only if it has 18 slots whose offset, address and rounded length fit 32 bits unless unused, and so do bss extent and entry point |
| `DolBytes.FileWritten` | tools/dolfile.py:71-101 | the bytes of a written DOL: the three words of every slot, all 0 for an unused one, bss extent and entry point, and the data of each used slot at the next multiple of 0x20, followed by zeros up to the next |
| `DolRoundTrip.SlotsDisjoint` | tools/dolfile.py:78-84 | sections occupy disjoint ranges behind the 0x100 bytes of the header, from and to multiples of 0x20 |
| `DolRoundTrip.WrittenHolds` | tools/dolfile.py:86-101 | header and zero-padded data of every used section stand in the file at their positions |
| `DolRoundTrip.WriteThenRead` | tools/dolfile.py:61-101 | a written DOL reads back as addresses and data extended only by zeros to a multiple of 0x20, with bss extent and entry; unused sections come back empty |
| `DolRoundTrip.RereadingIsStable` | tools/dolfile.py:61-101 | writing and reading what was read changes no section |
| `DolRoundTrip.RewritingIsIdentical` | tools/dolfile.py:61-101 | writing what was read from a written DOL gives the same bytes if and only if no slot was unused |
| `DolBuild.Build` | tools/build_dol.py:12-51 | the slots, bss extent and entry point of the new DOL, and the failing lookups of .bss and .sbss2 |
| `DolBuild.SlotCount` | tools/build_dol.py:15-49 | exactly 18 slots if and only if the data sections fit behind the executable ones and slot 7; at most 7 and 11 always do |
| `DolBuild.SlotContents` | tools/build_dol.py:15-49 | which section stands in each slot, executable ones first |
| `DolBuild.NothingDropped` | tools/build_dol.py:17-35 | every executable and every loadable data section gets a slot, and nothing else does |
| `DolBuild.BuiltReadsBack` | tools/build_dol.py:12-55 | after building, writing and reading, each of them is found with its address and its data, executable ones in the first 7 slots |
| `DolBuild.BssExtentIff` | tools/build_dol.py:34-44 | the recorded bss extent runs from the first .bss to the end of the first .sbss2 if and only if the last allocated .bss stands at the address of the first |
| `DolBuild.BssExtent` | tools/build_dol.py:34-44 | with one allocated .bss that extent begins where .bss does, so that what lies between its start and the end of .sbss2 lies in the extent |
| `DolBuild.BuildExample` | tools/build_dol.py:12-51 | six sections out of order, of which .text and .data get slots 0 and 7 |
| `Runs.BuildRuns` | tools/find_targets.py:69-92 | the loop computes the runs |
| `Runs.RunsSplit` | tools/find_targets.py:69-92 | the runs are nonempty, consist of wanted neighbours with gaps of at most 16, are maximal, and leave no wanted symbol out |
| `Runs.SplitIsUnique` | tools/find_targets.py:69-92 | no other list of runs has these properties |
| `Runs.FlattenKeeps` | tools/find_targets.py:69-92 | together the runs are exactly the uncovered symbols of nonzero size, in order |
| `Runs.RunsExample` | tools/find_targets.py:69-92 | gaps of 16 and 17, a covered symbol and one of size 0 |
| `DestructorChain.Chain.Register` | source/runtime/global_destructor_chain.c:16-22 | the node is put in front of an unchanged chain, and the object is passed through |
| `DestructorChain.Chain.Destroy` | source/runtime/global_destructor_chain.c:27-34 | ends with an empty chain, having made exactly the calls of the chain, also when destructors register objects |
| `DestructorChain.NewerFirst` | source/runtime/global_destructor_chain.c:27-34 | newer objects, and all that their destructors register, are destroyed before older ones |
| `DestructorChain.EachOnce` | source/runtime/global_destructor_chain.c:27-34 | every object ever registered is destroyed exactly once, by its own destructor |
| `DestructorChain.ReverseOrder` | source/runtime/global_destructor_chain.c:27-34 | without such registrations the order is the reverse of registration, each call with its own destructor, object and -1 |
| `DestructorChain.NestedExample` | source/runtime/global_destructor_chain.c:27-34 | objects registered by a destructor are destroyed before the older ones, the later first |
| `ClassArrays.ElementAt` | source/runtime/class_arrays.cpp:34-37 | element i is constructed at first + size * i modulo 2^32 |
| `ClassArrays.EndIsElement` | source/runtime/class_arrays.cpp:72-73 | the end computed with a wrapping product is where stepping ends, so destruction meets the constructed addresses even on overflow |
| `ClassArrays.ElementsApart` | source/runtime/class_arrays.cpp:32-37 | without overflow elements are distinct, do not overlap and lie in the array |
| `ClassArrays.BuildingMeaning` | source/runtime/class_arrays.cpp:51-59 | event by event: constructors get 1 and the addresses in order, destructors of a broken construction get -1 and the same addresses in reverse |
| `ClassArrays.DestroyedIsReverse` | source/runtime/class_arrays.cpp:91-97 | the destroyed addresses are the constructed ones in reverse |
| `ClassArrays.PartialArrayDestructor.Destruct` | include/runtime/class_arrays.hpp:30-38 | an incomplete array loses exactly its constructed elements, last first; a complete one is left alone |
| `ClassArrays.Runtime.ConstructArray` | source/runtime/class_arrays.cpp:51-59 | elements 0..n-1 in order; where constructor call k does not return, exactly the k elements before it are destroyed in reverse |
| `ClassArrays.Runtime.ConstructNewArray` | source/runtime/class_arrays.cpp:19-39 | size and count stand in front of the array; construction as above; null stays null |
| `ClassArrays.Runtime.DestroyArr` | source/runtime/class_arrays.cpp:71-76 | destroys elements n-1..0 |
| `ClassArrays.Runtime.DestroyNewArray` | source/runtime/class_arrays.cpp:85-101 | destroys as many elements as the words in front of the array say, in reverse, and frees the block |
| `ClassArrays.Runtime.NewThenDelete` | source/runtime/class_arrays.cpp:19-101 | new then delete constructs every element once, destroys exactly those in reverse and frees the allocated block |

## Left out

- RelFile.Rel.Write: alignments are not negative; what the object holds after a failed write is left open. A section
  that was read as bss and is patched has no data attribute in Python; here its data are empty.
- RelRebuilt.RebuiltFileMeaning: for a section list with recorded lengths, alignments that are powers of two and bss
  without data, and branches at words of section data that do not overlap; the numbers outside the tables are required
  to fit as laid out.
- RelMeaning.WrittenModuleMeaning: for branches at words of section data that do not overlap, and tables that end with
  their only STOP; where a table is not gap-safe, `RelScan.DeletionKeepsPositions` says what is lost. The numbers outside
  the tables are required to fit as laid out.
- RelScan.DeletionKeepsPositions: for section changes with gap 0, the only ones that the encoder emits; with another
  gap tools/relfile.py:234-237 counts it and tools/slice_rel.py:36-40 does not.
- RelRebuild.RebuildKeepsReferences: a single whole-module object without aliases, linking taken as the identity;
  the linker that joins several objects is not part of this model.
- SliceObject.ExtractObject: aliases are given as key and name; reading the alias file is left out. Ends of a slice
  section are not before the beginning of its section (`SliceLoaded.LoadedPlaced`: no loaded one is).
- RelPipeline.Classifier.BuildTables: takes the relocations of each section as given; which sections are PROGBITS, the
  handling of .comment and .bss and the symbols _prolog, _epilog and _unresolved are left out. Symbol numbers are from
  1 to the number of symbols; 0, which Python takes for the last symbol, is left out.
- RelTargets.ProcessRelocations: relocations have types below 201; the marks from 201 on are no types of an object.
- ElfRoundTrip.WriteThenRead: for names without NUL and tables without empty strings.
- ElfFile.Elf.Link: a string table object and its entry in the section list are one object in Python; here the entry
  is brought up to date after linking.
- ElfFile.Elf.ToBytes: what an object holds after a failed write is left open where Python would leave it half updated.
- Includes.Expander.ExpandHeader: a header is given as text and include directives; finding the directives with the
  pattern, comparing paths that are spelled differently, decoding Shift-JIS and removing pragmas are left out.
- DolBuild.BssExtent: overlaps between bss and data sections inside the extent are not examined.
- ClassArrays.Runtime.DestroyNewArray: constructors and destructors are recorded as calls; what they write to memory
  is left out, so the two words in front of an array stay as they were stored.
- DestructorChain.Chain.Destroy: destructors that register objects are finite trees of registrations, each with a new
  node.
- The path and JSON readers, file access, argument parsing, hashing and terminal output.
- The exit of the program that writes an object file to disk, and the download and build scripts.
- Symbols of DOL slices (tools/slice_dol.py:31-79), a search through symbol lists.
- Floating-point percentages and badges of progress.py, and `align_addr`.
- The ranking and printing of runs in tools/find_targets.py.
- Exception table registration, module prolog and epilog, and the game's own headers.
