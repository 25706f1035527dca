/** What stands where in a written REL file, in terms of the module that is written: the header words, the section
    table, the layout, the import table and the branch words (tools/relfile.py:183-328). */
module RelBytes {
  import opened Bits
  import opened Bytes
  import opened Chunks
  import opened RelBranch
  import opened RelFile
  import opened RelFormat
  import opened RelLayout
  import opened RelMeaning
  import opened RelPatch
  import opened RelRepair
  import opened RelScan
  import opened RelTable
  import opened RelTypes
  import opened Wrappers

  // ----- the module that is written -----

  /** The branches stand in words of section data that do not overlap, and aim at sections that exist. */
  predicate SitesFit(h: Header, sections: seq<Section>, refs: seq<Ref>) {
    && (forall i :: 0 <= i < |refs| ==>
          && InData(sections, refs[i])
          && (if refs[i].mod == h.index then refs[i].target < |sections| else h.unresolvedSection < |sections|))
    && (forall i, j :: 0 <= i < j < |refs| ==> Apart(refs[i], refs[j]))
  }

  /** The tables end with their only STOP, and resolving the own branches loses no gap. */
  predicate TablesSound(h: Header, tables: seq<ModuleTable>) {
    && Distinct(Keys(tables))
    && forall i :: 0 <= i < |tables| ==>
         && Terminated(tables[i].table) && PlainSectionChanges(tables[i].table)
         && (tables[i].mod == h.index ==> GapSafe(tables[i].table))
  }

  /** `p` is what `Rel.Write` decides for a module that it can write. */
  ghost predicate Writes(h: Header, sections: seq<Section>, tables: seq<ModuleTable>, p: Plan) {
    && SectionsValid(sections) && TablesSound(h, tables) && SitesFit(h, sections, Branches(AllRefs(tables)))
    && Preparable(h, sections, tables) && IsPlan(p, h, sections, tables)
    && FieldsFit(p) && TablesWillFit(h.index, tables)
  }

  lemma SitesGood(h: Header, sections: seq<Section>, locs: seq<nat>, refs: seq<Ref>)
    requires SitesFit(h, sections, refs) && |locs| == |sections|
    ensures GoodSites(EnvOf(h, locs), sections, refs)
  {
  }

  /** Then the file follows the layout, and its branch words are patched. */
  lemma WritesMeans(h: Header, sections: seq<Section>, tables: seq<ModuleTable>, p: Plan)
    requires Writes(h, sections, tables, p)
    ensures Writable(p) && LaidOut(p, SectionsStart(h, sections)) && SameFrame(p.sections, sections)
    ensures SameOutside(p.sections, sections, Branches(AllRefs(tables)))
    ensures p.locs == SectionLocs(sections, SectionsStart(h, sections))
    ensures forall i :: 0 <= i < |Branches(AllRefs(tables))| ==>
              var env, ref := EnvOf(h, p.locs), Branches(AllRefs(tables))[i];
              SiteExists(env, ref) && InData(sections, ref) && Patched(env, p.sections, sections, ref)
  {
    var start, refs := SectionsStart(h, sections), Branches(AllRefs(tables));
    var locs := SectionLocs(sections, start);
    var env := EnvOf(h, locs);
    SitesGood(h, sections, locs, refs);
    LeftTablesFit(env, tables);
    SeenBranchesAreNamed(env, tables);
    PatchesHold(env, sections, refs);
    PlanLaidOut(h, sections, tables, p, start);
  }

  // ----- words of the file -----

  /** The big-endian word at `pos`; 0 stands for one behind the end. */
  function FileWord(file: seq<Byte>, pos: nat): U32 {
    if pos + 4 <= |file| then Get32(file, pos) else 0
  }

  /** Where the section table, which the header places, says that section `i` stands. */
  function SectionOffset(file: seq<Byte>, i: nat): nat {
    FileWord(file, FileWord(file, 16) + 8 * i) / 4 * 4
  }

  /** The header, word by word. */
  predicate HeaderStands(file: seq<Byte>, h: Header, count: nat, modules: nat) {
    && FileWord(file, 0) == h.index && FileWord(file, 4) == 0 && FileWord(file, 8) == 0 && FileWord(file, 12) == count
    && FileWord(file, 16) == (if h.version >= 3 then 76 else if h.version >= 2 then 72 else 64)
    && FileWord(file, 20) == h.pathOffset && FileWord(file, 24) == h.pathSize && FileWord(file, 28) == h.version
    && FileWord(file, 32) == h.bssSize
    && FileWord(file, 36) == FileWord(file, 40) + FileWord(file, 44) && FileWord(file, 44) == 8 * modules
    && FileWord(file, 48) == h.prologSection * 0x100_0000 + h.epilogSection * 0x1_0000 + h.unresolvedSection * 256
    && FileWord(file, 52) == h.prolog && FileWord(file, 56) == h.epilog && FileWord(file, 60) == h.unresolved
    && (h.version >= 2 ==> FileWord(file, 64) == h.alignment && FileWord(file, 68) == h.bssAlign)
  }

  lemma HeaderWordAt(file: seq<Byte>, h: Header, count: U32, i: nat, at: nat)
    requires HeaderFits(h) && At(file, 0, PackWords(HeaderWords(h, count))) && i < 12 && at == 4 * i
    ensures FileWord(file, at) == HeaderWords(h, count)[i]
  {
    WordIs(file, 0, HeaderWords(h, count), i, at);
  }

  lemma FirstWords(file: seq<Byte>, h: Header, count: U32)
    requires HeaderFits(h) && At(file, 0, PackWords(HeaderWords(h, count)))
    ensures FileWord(file, 0) == h.index && FileWord(file, 4) == 0 && FileWord(file, 8) == 0
    ensures FileWord(file, 12) == count && FileWord(file, 16) == h.sectionInfoOffset
    ensures FileWord(file, 20) == h.pathOffset && FileWord(file, 24) == h.pathSize && FileWord(file, 28) == h.version
    ensures FileWord(file, 32) == h.bssSize && FileWord(file, 36) == h.relOffset
    ensures FileWord(file, 40) == h.impOffset && FileWord(file, 44) == h.impSize
  {
    HeaderWordAt(file, h, count, 0, 0);
    HeaderWordAt(file, h, count, 1, 4);
    HeaderWordAt(file, h, count, 2, 8);
    HeaderWordAt(file, h, count, 3, 12);
    HeaderWordAt(file, h, count, 4, 16);
    HeaderWordAt(file, h, count, 5, 20);
    HeaderWordAt(file, h, count, 6, 24);
    HeaderWordAt(file, h, count, 7, 28);
    HeaderWordAt(file, h, count, 8, 32);
    HeaderWordAt(file, h, count, 9, 36);
    HeaderWordAt(file, h, count, 10, 40);
    HeaderWordAt(file, h, count, 11, 44);
  }

  lemma LastWords(file: seq<Byte>, h: Header)
    requires HeaderFits(h) && At(file, 48, SectionIds(h)) && At(file, 52, PackWords(EntryOffsets(h)))
    ensures FileWord(file, 48) == h.prologSection * 0x100_0000 + h.epilogSection * 0x1_0000 + h.unresolvedSection * 256
    ensures FileWord(file, 52) == h.prolog && FileWord(file, 56) == h.epilog && FileWord(file, 60) == h.unresolved
  {
    HeaderTailRead(file, h);
    AtIndex(file, 48, SectionIds(h), 3);
  }

  lemma MoreWords(file: seq<Byte>, h: Header, count: U32)
    requires HeaderFits(h) && Holds(file, HeaderChunks(h, count))
    ensures h.version >= 2 ==> FileWord(file, 64) == h.alignment && FileWord(file, 68) == h.bssAlign
    ensures h.version >= 3 ==> FileWord(file, 72) == h.fixSize
  {
    var chunks := HeaderChunks(h, count);
    if h.version >= 2 {
      var ws: seq<U32> := [h.alignment, h.bssAlign];
      assert chunks[1] == Chunk(64, PackWords(ws));
      HoldsIndex(file, chunks, 1);
      WordIs(file, 64, ws, 0, 64);
      WordIs(file, 64, ws, 1, 68);
    }
    if h.version >= 3 {
      var ws: seq<U32> := [h.fixSize];
      assert chunks[2] == Chunk(72, PackWords(ws));
      HoldsIndex(file, chunks, 2);
      WordIs(file, 72, ws, 0, 72);
    }
  }

  lemma HeaderHeld(file: seq<Byte>, h: Header, count: U32)
    requires HeaderFits(h) && Holds(file, HeaderChunks(h, count))
    ensures At(file, 0, PackWords(HeaderWords(h, count)))
    ensures At(file, 48, SectionIds(h)) && At(file, 52, PackWords(EntryOffsets(h)))
  {
    assert HeaderChunks(h, count)[0] == Chunk(0, HeaderBytes(h, count));
    HoldsIndex(file, HeaderChunks(h, count), 0);
    HeaderPieces(file, h, count);
  }

  /** The header of a written module holds the module's own fields; the import table follows the section data and the
      relocation tables follow it. */
  lemma HeaderWritten(h: Header, sections: seq<Section>, tables: seq<ModuleTable>, p: Plan)
    requires Writes(h, sections, tables, p)
    ensures Writable(p) && HeaderStands(FileBytes(p), h, |sections|, |tables|)
    ensures FileWord(FileBytes(p), 40) == SectionsEnd(sections, SectionsStart(h, sections))
    ensures FileWord(FileBytes(p), 16) == p.header.sectionInfoOffset && FileWord(FileBytes(p), 40) == p.header.impOffset
    ensures h.version >= 3 ==> FileWord(FileBytes(p), 72) == p.header.fixSize
  {
    WritesMeans(h, sections, tables, p);
    FrontHolds(p, SectionsStart(h, sections));
    var file := FileBytes(p);
    HeaderHeld(file, p.header, |p.sections|);
    FirstWords(file, p.header, |p.sections|);
    LastWords(file, p.header);
    MoreWords(file, p.header, |p.sections|);
  }

  // ----- sections -----

  /** Section `i` in the section table: its offset, with its executable flag in the lowest bit, and its length. */
  predicate SectionStands(file: seq<Byte>, sec: Section, i: nat) {
    var at := FileWord(file, 16) + 8 * i;
    && FileWord(file, at) == SectionOffset(file, i) + (if sec.executable && !sec.isBss then 1 else 0)
    && FileWord(file, at + 4) == sec.secLen
    && (SectionOffset(file, i) != 0 <==> Stored(sec))
  }

  lemma SectionWritten(h: Header, sections: seq<Section>, tables: seq<ModuleTable>, p: Plan, i: nat)
    requires Writes(h, sections, tables, p) && i < |sections|
    ensures Writable(p) && SectionStands(FileBytes(p), sections[i], i)
    ensures |p.locs| == |sections| && SectionOffset(FileBytes(p), i) == p.locs[i]
  {
    SectionFacts(h, sections, tables, p, i);
    SectionFromInfo(FileBytes(p), p.sections[i], sections[i], p.locs[i], i, p.header.sectionInfoOffset);
  }

  lemma SectionFacts(h: Header, sections: seq<Section>, tables: seq<ModuleTable>, p: Plan, i: nat)
    requires Writes(h, sections, tables, p) && i < |sections|
    ensures Writable(p) && |p.sections| == |p.locs| == |sections|
    ensures p.sections[i] == sections[i].(data := p.sections[i].data)
    ensures FileWord(FileBytes(p), 16) == p.header.sectionInfoOffset
    ensures InfoFits(p.sections[i], p.locs[i]) && (Stored(p.sections[i]) <==> p.locs[i] != 0)
    ensures At(FileBytes(p), p.header.sectionInfoOffset + 8 * i, InfoBytes(p.sections[i], p.locs[i]))
  {
    HeaderWritten(h, sections, tables, p);
    WritesMeans(h, sections, tables, p);
    InfoAt(p, SectionsStart(h, sections), i);
  }

  lemma InfoAt(p: Plan, start: nat, i: nat)
    requires Writable(p) && LaidOut(p, start) && i < |p.sections|
    ensures InfoFits(p.sections[i], p.locs[i]) && (Stored(p.sections[i]) <==> p.locs[i] != 0)
    ensures At(FileBytes(p), p.header.sectionInfoOffset + 8 * i, InfoBytes(p.sections[i], p.locs[i]))
  {
    RecordedIsLoc(p, start, i);
    FrontHolds(p, start);
    InfoFromChunks(FileBytes(p), p.sections, p.locs, p.header.sectionInfoOffset, i);
  }

  lemma InfoFromChunks(file: seq<Byte>, sections: seq<Section>, locs: seq<nat>, info: nat, i: nat)
    requires InfosFit(sections, locs) && i < |sections| && Holds(file, InfoChunks(sections, locs, info))
    ensures InfoFits(sections[i], locs[i]) && At(file, info + 8 * i, InfoBytes(sections[i], locs[i]))
  {
    HoldsIndex(file, InfoChunks(sections, locs, info), i);
  }

  lemma SectionFromInfo(file: seq<Byte>, sec: Section, was: Section, loc: nat, i: nat, info: nat)
    requires InfoFits(sec, loc) && At(file, info + 8 * i, InfoBytes(sec, loc)) && (Stored(sec) <==> loc != 0)
    requires sec == was.(data := sec.data) && FileWord(file, 16) == info
    ensures SectionStands(file, was, i) && SectionOffset(file, i) == loc
  {
    InfoStands(file, sec, was, loc, info + 8 * i);
  }

  lemma InfoStands(file: seq<Byte>, sec: Section, was: Section, loc: nat, at: nat)
    requires InfoFits(sec, loc) && At(file, at, InfoBytes(sec, loc)) && (Stored(sec) <==> loc != 0)
    requires sec == was.(data := sec.data)
    ensures FileWord(file, at) == loc + (if was.executable && !was.isBss then 1 else 0)
    ensures FileWord(file, at) / 4 * 4 == loc && FileWord(file, at + 4) == was.secLen
    ensures loc != 0 <==> Stored(was)
  {
    InfoRead(file, sec, loc, at);
    InfoFlagsRead(sec, loc);
  }

  /** The end of the data before section `i`, by the section table. */
  function DataEnd(file: seq<Byte>, h: Header, sections: seq<Section>, i: nat): nat
    requires i <= |sections|
  {
    if i == 0 then HeaderSize(h.version) + 8 * |sections|
    else if Stored(sections[i - 1]) then SectionOffset(file, i - 1) + sections[i - 1].secLen
    else DataEnd(file, h, sections, i - 1)
  }

  /** The same before a list of places is written down. */
  function PlacedEnd(sections: seq<Section>, locs: seq<nat>, start: nat, i: nat): nat
    requires i <= |sections| == |locs|
  {
    if i == 0 then start
    else if Stored(sections[i - 1]) then locs[i - 1] + sections[i - 1].secLen
    else PlacedEnd(sections, locs, start, i - 1)
  }

  /** Every stored section stands at the least multiple of its alignment behind the data before it. */
  lemma {:induction false} LocsPacked(sections: seq<Section>, locs: seq<nat>, start: nat, k: nat, pos: nat)
    requires SectionsValid(sections) && |locs| == |sections| && k <= |sections|
    requires locs[k..] == SectionLocs(sections[k..], pos) && pos == PlacedEnd(sections, locs, start, k)
    ensures SectionsEnd(sections[k..], pos) == PlacedEnd(sections, locs, start, |sections|)
    ensures forall i :: k <= i < |sections| && Stored(sections[i]) ==>
              var e := PlacedEnd(sections, locs, start, i);
              e <= locs[i] < e + sections[i].alignment && locs[i] % sections[i].alignment == 0
    decreases |sections| - k
  {
    if k < |sections| {
      var sec := sections[k];
      assert SectionValid(sec);
      assert sections[k..][0] == sec && sections[k..][1..] == sections[k + 1..];
      AlignRounds(pos, sec.alignment);
      assert locs[k] == locs[k..][0] && locs[k..][1..] == locs[k + 1..];
      LocsPacked(sections, locs, start, k + 1, if Stored(sec) then locs[k] + sec.secLen else pos);
    }
  }

  lemma {:induction false} SameEnds(file: seq<Byte>, h: Header, sections: seq<Section>, locs: seq<nat>, i: nat)
    requires i <= |sections| == |locs|
    requires forall j :: 0 <= j < |sections| ==> SectionOffset(file, j) == locs[j]
    ensures DataEnd(file, h, sections, i) == PlacedEnd(sections, locs, SectionsStart(h, sections), i)
  {
    if i > 0 { SameEnds(file, h, sections, locs, i - 1); }
  }

  /** Section data follow the section table, each at the least multiple of its alignment behind the data before it, and
      the import table follows the last of them. */
  lemma DataPacked(h: Header, sections: seq<Section>, tables: seq<ModuleTable>, p: Plan)
    requires Writes(h, sections, tables, p)
    ensures Writable(p) && FileWord(FileBytes(p), 40) == DataEnd(FileBytes(p), h, sections, |sections|)
    ensures forall i :: 0 <= i < |sections| && Stored(sections[i]) ==>
              var e, at := DataEnd(FileBytes(p), h, sections, i), SectionOffset(FileBytes(p), i);
              e <= at < e + sections[i].alignment && at % sections[i].alignment == 0
  {
    HeaderWritten(h, sections, tables, p);
    WritesMeans(h, sections, tables, p);
    var file, start := FileBytes(p), SectionsStart(h, sections);
    forall j | 0 <= j < |sections| ensures SectionOffset(file, j) == p.locs[j] {
      SectionWritten(h, sections, tables, p, j);
    }
    assert sections[0..] == sections && p.locs[0..] == p.locs;
    LocsPacked(sections, p.locs, start, 0, start);
    forall i | 0 <= i <= |sections| ensures DataEnd(file, h, sections, i) == PlacedEnd(sections, p.locs, start, i) {
      SameEnds(file, h, sections, p.locs, i);
    }
  }

  // ----- section data and branch words -----

  /** Every byte of a stored section that no branch word covers stands in the file as it was. */
  lemma DataWritten(h: Header, sections: seq<Section>, tables: seq<ModuleTable>, p: Plan, i: nat, k: nat)
    requires Writes(h, sections, tables, p) && i < |sections| && Stored(sections[i]) && k < |sections[i].data|
    requires Outside(Branches(AllRefs(tables)), i, k)
    ensures Writable(p) && SectionOffset(FileBytes(p), i) + k < |FileBytes(p)|
    ensures FileBytes(p)[SectionOffset(FileBytes(p), i) + k] == sections[i].data[k]
  {
    SectionWritten(h, sections, tables, p, i);
    DataFacts(h, sections, tables, p, i, k);
    AtIndex(FileBytes(p), p.locs[i], p.sections[i].data, k);
  }

  lemma DataFacts(h: Header, sections: seq<Section>, tables: seq<ModuleTable>, p: Plan, i: nat, k: nat)
    requires Writes(h, sections, tables, p) && i < |sections| && Stored(sections[i]) && k < |sections[i].data|
    requires Outside(Branches(AllRefs(tables)), i, k)
    ensures Writable(p) && |p.sections| == |p.locs| == |sections| && |p.sections[i].data| == |sections[i].data|
    ensures At(FileBytes(p), p.locs[i], p.sections[i].data) && p.sections[i].data[k] == sections[i].data[k]
  {
    WritesMeans(h, sections, tables, p);
    DataAt(p, SectionsStart(h, sections), i);
  }

  lemma DataAt(p: Plan, start: nat, i: nat)
    requires Writable(p) && LaidOut(p, start) && i < |p.sections| && Stored(p.sections[i])
    ensures At(FileBytes(p), p.locs[i], p.sections[i].data)
  {
    FrontHolds(p, start);
    var chunks := DataChunks(p.sections, p.locs);
    assert SectionValid(p.sections[i]) && chunks[i] == Chunk(p.locs[i], p.sections[i].data);
    HoldsIndex(FileBytes(p), chunks, i);
  }

  /** Where the file has the branch `ref`, and the place that it is aimed at: its target in the own module, and
      `_unresolved`, which the header names, for every other module. A section without data counts as standing at 0. */
  function BranchPlace(file: seq<Byte>, ref: Ref): nat {
    SectionOffset(file, ref.section) + ref.pos
  }

  function AimedSection(h: Header, ref: Ref): nat {
    if ref.mod == h.index then ref.target else h.unresolvedSection
  }

  function AimedPlace(file: seq<Byte>, h: Header, ref: Ref): int {
    if ref.mod == h.index then SectionOffset(file, ref.target) + ref.addend
    else SectionOffset(file, h.unresolvedSection) + h.unresolved
  }

  /** Every branch word of the written file is the old word with the distance of the two places in its 24-bit field. */
  lemma BranchWritten(h: Header, sections: seq<Section>, tables: seq<ModuleTable>, p: Plan, ref: Ref)
    requires Writes(h, sections, tables, p) && ref in Branches(AllRefs(tables))
    ensures Writable(p) && BranchStands(FileBytes(p), h, sections, ref)
  {
    BranchFacts(h, sections, tables, p, ref);
    BranchFromFacts(FileBytes(p), h, p.locs, p.sections, sections, ref);
  }

  /** The branch word is the old word with the distance of the two places in its 24-bit field. */
  predicate BranchStands(file: seq<Byte>, h: Header, sections: seq<Section>, ref: Ref) {
    && InData(sections, ref) && AimedSection(h, ref) < |sections| && BranchPlace(file, ref) + 4 <= |file|
    && FileWord(file, BranchPlace(file, ref))
    == PatchedWord(Get32(sections[ref.section].data, ref.pos),
                   Wrap32(AimedPlace(file, h, ref) - BranchPlace(file, ref)))
  }

  /** What the file and the plan say about the branch. */
  predicate Facts(file: seq<Byte>, h: Header, locs: seq<nat>, patched: seq<Section>, sections: seq<Section>, ref: Ref) {
    && |locs| == |sections| && SameFrame(patched, sections)
    && InData(sections, ref) && AimedSection(h, ref) < |sections|
    && SiteExists(EnvOf(h, locs), ref) && Patched(EnvOf(h, locs), patched, sections, ref)
    && locs[ref.section] + ref.pos + 4 <= |file|
    && Get32(file, locs[ref.section] + ref.pos) == WordAt(patched, ref)
    && SectionOffset(file, ref.section) == locs[ref.section]
    && SectionOffset(file, AimedSection(h, ref)) == locs[AimedSection(h, ref)]
  }

  lemma BranchFacts(h: Header, sections: seq<Section>, tables: seq<ModuleTable>, p: Plan, ref: Ref)
    requires Writes(h, sections, tables, p) && ref in Branches(AllRefs(tables))
    ensures Writable(p) && Facts(FileBytes(p), h, p.locs, p.sections, sections, ref)
  {
    BranchPatched(h, sections, tables, p, ref);
    SectionWritten(h, sections, tables, p, ref.section);
    SectionWritten(h, sections, tables, p, AimedSection(h, ref));
  }

  lemma BranchPatched(h: Header, sections: seq<Section>, tables: seq<ModuleTable>, p: Plan, ref: Ref)
    requires Writes(h, sections, tables, p) && ref in Branches(AllRefs(tables))
    ensures Writable(p) && |p.locs| == |sections| && SameFrame(p.sections, sections)
    ensures InData(sections, ref) && AimedSection(h, ref) < |sections|
    ensures SiteExists(EnvOf(h, p.locs), ref) && Patched(EnvOf(h, p.locs), p.sections, sections, ref)
    ensures p.locs[ref.section] + ref.pos + 4 <= |FileBytes(p)|
    ensures Get32(FileBytes(p), p.locs[ref.section] + ref.pos) == WordAt(p.sections, ref)
  {
    WritesMeans(h, sections, tables, p);
    var refs, env := Branches(AllRefs(tables)), EnvOf(h, p.locs);
    var i :| 0 <= i < |refs| && refs[i] == ref;
    assert SiteExists(env, refs[i]) && InData(sections, refs[i]) && Patched(env, p.sections, sections, refs[i]);
    WordInFile(p, SectionsStart(h, sections), ref);
  }

  lemma BranchFromFacts(file: seq<Byte>, h: Header, locs: seq<nat>, patched: seq<Section>, sections: seq<Section>,
                        ref: Ref)
    requires Facts(file, h, locs, patched, sections, ref)
    ensures BranchStands(file, h, sections, ref)
  {
    assert AimedPlace(file, h, ref) - BranchPlace(file, ref) == Distance(EnvOf(h, locs), ref);
  }

  /** The address of `x` in section `i` of a module that is loaded at `base`; a section without data is at `place`. */
  function LoadedAt(file: seq<Byte>, i: nat, x: int, base: int, place: int): int {
    (if SectionOffset(file, i) != 0 then base + SectionOffset(file, i) else place) + x
  }

  /** The branch word at `at` goes there from every load base and for every placement of sections without data. */
  ghost predicate Goes(file: seq<Byte>, at: nat, i: nat, x: int) {
    forall base, place :: BranchTarget(FileWord(file, at), base + at) == Wrap32(LoadedAt(file, i, x, base, place))
  }

  /** A branch of the own module goes to its target, and one of another module to `h.unresolved` in section
      `h.unresolvedSection`, exactly when it is relative, that section has data, and the distance fits. */
  lemma BranchGoes(h: Header, sections: seq<Section>, tables: seq<ModuleTable>, p: Plan, ref: Ref)
    requires Writes(h, sections, tables, p) && ref in Branches(AllRefs(tables))
    ensures Writable(p) && BranchStands(FileBytes(p), h, sections, ref)
    ensures (if ref.mod == h.index then Goes(FileBytes(p), BranchPlace(FileBytes(p), ref), ref.target, ref.addend)
             else Goes(FileBytes(p), BranchPlace(FileBytes(p), ref), h.unresolvedSection, h.unresolved))
       <==> CanGo(FileBytes(p), h, sections, ref)
  {
    BranchWritten(h, sections, tables, p, ref);
    SectionWritten(h, sections, tables, p, AimedSection(h, ref));
    StandingGoes(FileBytes(p), h, sections, ref);
  }

  /** The branch is relative, the section it is aimed at has data, and the distance fits 26 signed bits. */
  predicate CanGo(file: seq<Byte>, h: Header, sections: seq<Section>, ref: Ref)
    requires InData(sections, ref) && AimedSection(h, ref) < |sections|
  {
    && !IsAbsolute(Get32(sections[ref.section].data, ref.pos)) && Stored(sections[AimedSection(h, ref)])
    && InBranchRange(Nearest(AimedPlace(file, h, ref) - BranchPlace(file, ref)))
  }

  lemma StandingGoes(file: seq<Byte>, h: Header, sections: seq<Section>, ref: Ref)
    requires BranchStands(file, h, sections, ref)
    requires SectionOffset(file, AimedSection(h, ref)) != 0 <==> Stored(sections[AimedSection(h, ref)])
    ensures (if ref.mod == h.index then Goes(file, BranchPlace(file, ref), ref.target, ref.addend)
             else Goes(file, BranchPlace(file, ref), h.unresolvedSection, h.unresolved))
       <==> CanGo(file, h, sections, ref)
  {
    var x: int := if ref.mod == h.index then ref.addend else h.unresolved;
    PatchedGoes(file, BranchPlace(file, ref), AimedSection(h, ref), x, Get32(sections[ref.section].data, ref.pos));
  }

  /** A word patched with the distance to `x` in section `i`. */
  lemma PatchedGoes(file: seq<Byte>, at: nat, i: nat, x: int, word: U32)
    requires FileWord(file, at) == PatchedWord(word, Wrap32(SectionOffset(file, i) + x - at))
    ensures Goes(file, at, i, x)
       <==> !IsAbsolute(word) && SectionOffset(file, i) != 0 && InBranchRange(Nearest(SectionOffset(file, i) + x - at))
  {
    var off := SectionOffset(file, i);
    if off == 0 {
      UnplacedGoes(file, at, i, x);
    } else if IsAbsolute(word) {
      SameLowBits(word, FileWord(file, at));
      AbsoluteGoes(file, at, i, x);
    } else {
      RelativeGoes(file, at, i, x, word, off);
    }
  }

  /** A section without data can be put in two places, and no word follows it to both. */
  lemma UnplacedGoes(file: seq<Byte>, at: nat, i: nat, x: int)
    requires SectionOffset(file, i) == 0
    ensures !Goes(file, at, i, x)
  {
    assert Wrap32(LoadedAt(file, i, x, 0, 0)) != Wrap32(LoadedAt(file, i, x, 0, 1));
    assert BranchTarget(FileWord(file, at), 0 + at) != Wrap32(LoadedAt(file, i, x, 0, 0))
           || BranchTarget(FileWord(file, at), 0 + at) != Wrap32(LoadedAt(file, i, x, 0, 1));
  }

  /** An absolute branch does not follow the load base. */
  lemma AbsoluteGoes(file: seq<Byte>, at: nat, i: nat, x: int)
    requires SectionOffset(file, i) != 0 && IsAbsolute(FileWord(file, at))
    ensures !Goes(file, at, i, x)
  {
    assert Wrap32(LoadedAt(file, i, x, 0, 0)) != Wrap32(LoadedAt(file, i, x, 1, 0));
    assert BranchTarget(FileWord(file, at), 0 + at) != Wrap32(LoadedAt(file, i, x, 0, 0))
           || BranchTarget(FileWord(file, at), 1 + at) != Wrap32(LoadedAt(file, i, x, 1, 0));
  }

  lemma RelativeGoes(file: seq<Byte>, at: nat, i: nat, x: int, word: U32, off: int)
    requires off == SectionOffset(file, i) && off != 0 && !IsAbsolute(word)
    requires FileWord(file, at) == PatchedWord(word, Wrap32(off + x - at))
    ensures Goes(file, at, i, x) <==> InBranchRange(Nearest(off + x - at))
  {
    forall base, place
      ensures BranchTarget(FileWord(file, at), base + at) == Wrap32(LoadedAt(file, i, x, base, place))
         <==> InBranchRange(Nearest(off + x - at))
    {
      DistanceSame(base, at, off + x);
      BranchReaches(word, base + at, base + (off + x));
    }
    if !InBranchRange(Nearest(off + x - at)) {
      assert BranchTarget(FileWord(file, at), 0 + at) != Wrap32(LoadedAt(file, i, x, 0, 0));
    }
  }

  lemma DistanceSame(base: int, at: int, to: int)
    ensures (base + to) - (base + at) == to - at
  {
  }

  /** Module 2 with the hard-coded `_unresolved` at 1:0x60: the branch at 1:0x100 to another module becomes the branch
      back by 0xA0 that tools/build_rel.py and the writer make of 0x48000001. */
  lemma UnresolvedExample(h: Header, sections: seq<Section>, tables: seq<ModuleTable>, p: Plan, ref: Ref)
    requires Writes(h, sections, tables, p) && ref in Branches(AllRefs(tables))
    requires h.index == 2 && h.unresolvedSection == 1 && h.unresolved == 0x60
    requires ref.mod == 1 && ref.section == 1 && ref.pos == 0x100
    requires InData(sections, ref) && WordAt(sections, ref) == 0x4800_0001
    ensures Writable(p) && FileWord(FileBytes(p), SectionOffset(FileBytes(p), 1) + 0x100) == 0x4BFF_FF61
  {
    BranchWritten(h, sections, tables, p, ref);
    BackByA0(FileBytes(p), h, sections, ref);
  }

  lemma BackByA0(file: seq<Byte>, h: Header, sections: seq<Section>, ref: Ref)
    requires BranchStands(file, h, sections, ref)
    requires h.index == 2 && h.unresolvedSection == 1 && h.unresolved == 0x60
    requires ref.mod == 1 && ref.section == 1 && ref.pos == 0x100 && WordAt(sections, ref) == 0x4800_0001
    ensures FileWord(file, SectionOffset(file, 1) + 0x100) == 0x4BFF_FF61
  {
    assert AimedPlace(file, h, ref) - BranchPlace(file, ref) == 0 - 0xA0;
    assert PatchedWord(0x4800_0001, Wrap32(0 - 0xA0)) == 0x4BFF_FF61;
  }

  // ----- the import table and the relocation tables -----

  /** Import entry `i`: a module number and the place of its relocation table. */
  function ImportModule(file: seq<Byte>, i: nat): U32 {
    FileWord(file, FileWord(file, 40) + 8 * i)
  }

  function ImportPlace(file: seq<Byte>, i: nat): U32 {
    FileWord(file, FileWord(file, 40) + 8 * i + 4)
  }

  /** Entry `r` stands at `at`: gap, type, section and addend, big-endian. */
  predicate EntryStandsAt(file: seq<Byte>, at: nat, r: Reloc) {
    && at + 8 <= |file|
    && file[at] as int * 256 + file[at + 1] as int == r.offset && file[at + 2] == r.kind && file[at + 3] == r.section
    && FileWord(file, at + 4) == r.addend
  }

  predicate TableStandsAt(file: seq<Byte>, at: nat, table: seq<Reloc>) {
    forall j :: 0 <= j < |table| ==> EntryStandsAt(file, at + 8 * j, table[j])
  }

  lemma {:induction false} TableHeld(file: seq<Byte>, table: seq<Reloc>, at: nat)
    requires TableFits(table) && Holds(file, EntryChunks(table, at))
    ensures TableStandsAt(file, at, table)
  {
    forall j | 0 <= j < |table| ensures EntryStandsAt(file, at + 8 * j, table[j]) {
      HoldsIndex(file, EntryChunks(table, at), j);
      EntryHeld(file, table[j], at + 8 * j);
    }
  }

  lemma EntryHeld(file: seq<Byte>, r: Reloc, at: nat)
    requires RelocFits(r) && At(file, at, PackReloc(r))
    ensures EntryStandsAt(file, at, r)
  {
    var a, b, c := Pack16(r.offset), [r.kind, r.section], Pack32(r.addend);
    assert PackReloc(r) == [] + a + (b + c) && PackReloc(r) == (a + b) + c + [];
    AtPart(file, at, [], a, b + c);
    AtPart(file, at, a, b, c);
    AtPart(file, at, a + b, c, []);
    Get16At(file, at, r.offset);
    Get32At(file, at + 4, r.addend);
    AtIndex(file, at + 2, b, 0);
    AtIndex(file, at + 2, b, 1);
  }

  /** The import entries and tables stand where they were placed. */
  predicate ImportStands(file: seq<Byte>, m: nat, table: seq<Reloc>, loc: nat, at: nat) {
    FileWord(file, at) == m && FileWord(file, at + 4) == loc && TableStandsAt(file, loc, table)
  }

  lemma {:induction false} ImportHeld(file: seq<Byte>, order: seq<nat>, tables: seq<ModuleTable>, locs: seq<nat>,
                                      pos: nat, i: nat, at: nat)
    requires PartsStand(file, order, tables, locs, pos) && i < |order| && at == pos + 8 * i
    ensures |locs| == |order| && ImportStands(file, order[i], TableOf(tables, order[i]), locs[i], at)
    decreases i
  {
    FirstStands(file, order, tables, locs, pos);
    if i == 0 {
      FirstHeld(file, order, tables, locs, pos);
    } else {
      ImportHeld(file, order[1..], tables, locs[1..], pos + 8, i - 1, at);
    }
  }

  lemma FirstHeld(file: seq<Byte>, order: seq<nat>, tables: seq<ModuleTable>, locs: seq<nat>, pos: nat)
    requires PartsStand(file, order, tables, locs, pos) && order != [] && |locs| == |order|
    ensures ImportStands(file, order[0], TableOf(tables, order[0]), locs[0], pos)
  {
    assert order[0] in order;
    FitTail(order, tables, locs);
    ImportRead(file, order, locs, pos);
    var table := TableOf(tables, order[0]);
    HoldsConcat(file, EntryChunks(table, locs[0]), TableChunks(order[1..], tables, locs[1..]));
    TableHeld(file, table, locs[0]);
  }

  lemma PartsHeld(p: Plan, start: nat)
    requires Writable(p) && LaidOut(p, start) && AllTerminated(p.order, p.tables)
    ensures ReadOrder(p) == Second(p).order && |ReadOrder(p)| == |p.tables|
    ensures PartsStand(FileBytes(p), ReadOrder(p), p.tables, Second(p).locs, p.header.impOffset)
  {
    FileHolds(p, start);
    FrontHolds(p, start);
    ModuleOrderReads(Keys(p.tables), p.header.index);
    assert forall m :: m in ReadOrder(p) ==> m in p.order;
  }

  /** Import entry `i` names a module and the place where the entries of the table left for it stand. */
  lemma ImportWritten(h: Header, sections: seq<Section>, tables: seq<ModuleTable>, p: Plan, i: nat)
    requires Writes(h, sections, tables, p) && i < |tables|
    ensures Writable(p) && |ReadOrder(p)| == |tables| == |Second(p).locs|
    ensures ImportModule(FileBytes(p), i) == ReadOrder(p)[i] && ImportPlace(FileBytes(p), i) == Second(p).locs[i]
    ensures TableStandsAt(FileBytes(p), ImportPlace(FileBytes(p), i), TableOf(p.tables, ReadOrder(p)[i]))
  {
    ImportFacts(h, sections, tables, p);
    ImportAt(FileBytes(p), ReadOrder(p), p.tables, Second(p).locs, i);
  }

  lemma ImportFacts(h: Header, sections: seq<Section>, tables: seq<ModuleTable>, p: Plan)
    requires Writes(h, sections, tables, p)
    ensures Writable(p) && |ReadOrder(p)| == |tables| == |Second(p).locs|
    ensures PartsStand(FileBytes(p), ReadOrder(p), p.tables, Second(p).locs, FileWord(FileBytes(p), 40))
  {
    HeaderWritten(h, sections, tables, p);
    WritesMeans(h, sections, tables, p);
    TablesTerminated(h, sections, tables, p);
    PartsHeld(p, SectionsStart(h, sections));
  }

  lemma ImportAt(file: seq<Byte>, order: seq<nat>, tables: seq<ModuleTable>, locs: seq<nat>, i: nat)
    requires PartsStand(file, order, tables, locs, FileWord(file, 40)) && i < |order| == |locs|
    ensures ImportModule(file, i) == order[i] && ImportPlace(file, i) == locs[i]
    ensures TableStandsAt(file, ImportPlace(file, i), TableOf(tables, order[i]))
  {
    ImportHeld(file, order, tables, locs, FileWord(file, 40), i, FileWord(file, 40) + 8 * i);
  }

  lemma TablesTerminated(h: Header, sections: seq<Section>, tables: seq<ModuleTable>, p: Plan)
    requires Writes(h, sections, tables, p)
    ensures AllTerminated(p.order, p.tables)
  {
    OrderMembers(Keys(tables), h.index);
    LeftTerminated(EnvOf(h, SectionLocs(sections, SectionsStart(h, sections))), tables, p.order);
  }

  /** From version 3 on the header's last word is the place of the own module's table. */
  lemma FixSizeWritten(h: Header, sections: seq<Section>, tables: seq<ModuleTable>, p: Plan, i: nat)
    requires Writes(h, sections, tables, p) && h.version >= 3 && i < |tables|
    requires Writable(p) && ImportModule(FileBytes(p), i) == h.index
    ensures FileWord(FileBytes(p), 72) == ImportPlace(FileBytes(p), i)
  {
    HeaderWritten(h, sections, tables, p);
    ImportWritten(h, sections, tables, p, i);
    PlaceOf(h, sections, tables, p, i);
  }

  lemma PlaceOf(h: Header, sections: seq<Section>, tables: seq<ModuleTable>, p: Plan, i: nat)
    requires Writes(h, sections, tables, p) && Writable(p) && h.version >= 3
    requires i < |ReadOrder(p)| == |tables| && ReadOrder(p)[i] == h.index
    ensures i < |Second(p).locs| && Second(p).locs[i] == p.header.fixSize
  {
    WritesMeans(h, sections, tables, p);
    FileHolds(p, SectionsStart(h, sections));
    assert p.order[i] == h.index && p.tableLocs[i] == p.header.fixSize;
  }

  /** The end of the table before import entry `i`. */
  function TableEnd(file: seq<Byte>, tables: seq<ModuleTable>, i: nat): nat {
    if i == 0 then FileWord(file, 36)
    else ImportPlace(file, i - 1) + 8 * |TableOf(tables, ImportModule(file, i - 1))|
  }

  lemma {:induction false} PlacesPacked(order: seq<nat>, tables: seq<ModuleTable>, pos: nat, i: nat)
    requires i < |order|
    ensures var locs := TableLocs(order, tables, pos);
            var e := if i == 0 then pos else locs[i - 1] + 8 * |TableOf(tables, order[i - 1])|;
            e <= locs[i] < e + 4 && locs[i] % 4 == 0
    decreases |order|
  {
    Align4(pos);
    if i > 0 {
      var p := Align(pos, 4);
      PlacesPacked(order[1..], tables, p + |TableOf(tables, order[0])| * RELOC_SIZE, i - 1);
    }
  }

  /** The tables follow the import table, each at the least multiple of four behind the one before it, unless module 0
      is listed twice. */
  lemma TablesPacked(h: Header, sections: seq<Section>, tables: seq<ModuleTable>, p: Plan, i: nat)
    requires Writes(h, sections, tables, p) && i < |tables| && !(h.index == 0 && 0 in Keys(tables))
    ensures Writable(p)
    ensures var e, at := TableEnd(FileBytes(p), p.tables, i), ImportPlace(FileBytes(p), i);
            e <= at < e + 4 && at % 4 == 0
  {
    PlacesFacts(h, sections, tables, p);
    forall j | 0 <= j <= i ensures ListedAt(FileBytes(p), p.order, p.tables, p.header.relOffset, j) {
      PlaceFact(h, sections, tables, p, j);
    }
    ListedPacked(FileBytes(p), p.order, p.tables, p.header.relOffset, i);
  }

  /** Import entry `j` is that of the order's module `j`, with the place of its table behind `pos`. */
  predicate ListedAt(file: seq<Byte>, order: seq<nat>, tables: seq<ModuleTable>, pos: nat, j: nat) {
    j < |order| && ImportModule(file, j) == order[j] && ImportPlace(file, j) == TableLocs(order, tables, pos)[j]
  }

  lemma ListedPacked(file: seq<Byte>, order: seq<nat>, tables: seq<ModuleTable>, pos: nat, i: nat)
    requires FileWord(file, 36) == pos && forall j :: 0 <= j <= i ==> ListedAt(file, order, tables, pos, j)
    ensures var e, at := TableEnd(file, tables, i), ImportPlace(file, i);
            e <= at < e + 4 && at % 4 == 0
  {
    PlacesPacked(order, tables, pos, i);
    assert ListedAt(file, order, tables, pos, i);
    if i > 0 { assert ListedAt(file, order, tables, pos, i - 1); }
  }

  lemma PlacesFacts(h: Header, sections: seq<Section>, tables: seq<ModuleTable>, p: Plan)
    requires Writes(h, sections, tables, p) && !(h.index == 0 && 0 in Keys(tables))
    ensures Writable(p) && FileWord(FileBytes(p), 36) == p.header.relOffset && |p.order| == |tables|
  {
    HeaderWritten(h, sections, tables, p);
    WritesMeans(h, sections, tables, p);
    PlacesOnce(p, SectionsStart(h, sections));
  }

  lemma PlaceFact(h: Header, sections: seq<Section>, tables: seq<ModuleTable>, p: Plan, i: nat)
    requires Writes(h, sections, tables, p) && i < |tables| && !(h.index == 0 && 0 in Keys(tables))
    ensures Writable(p) && |p.order| == |tables| && ImportModule(FileBytes(p), i) == p.order[i]
    ensures ImportPlace(FileBytes(p), i) == TableLocs(p.order, p.tables, p.header.relOffset)[i]
  {
    WritesMeans(h, sections, tables, p);
    PlacesOnce(p, SectionsStart(h, sections));
    ImportWritten(h, sections, tables, p, i);
  }

  /** What is written for another module is its table, and for the own one the entries that are left, with the gaps of
      the branches before them. */
  lemma TablesLeft(h: Header, sections: seq<Section>, tables: seq<ModuleTable>, p: Plan, m: nat)
    requires Writes(h, sections, tables, p) && m in Keys(tables)
    ensures TableOf(p.tables, m)
         == if m == h.index then Survivors(TableOf(tables, m), 0) else TableOf(tables, m)
  {
    var env := EnvOf(h, SectionLocs(sections, SectionsStart(h, sections)));
    LeftTableOf(env, tables, m);
    if m == h.index {
      ScanLeavesSurvivors(env, TableOf(tables, m), 0, 0);
    } else {
      ForeignTableStays(env, m, TableOf(tables, m), 0, 0);
    }
  }
}
