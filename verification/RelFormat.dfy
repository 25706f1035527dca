/** The bytes of a REL file: the chunks a written module consists of, the parser, and their round trip
    (tools/relfile.py). */
module RelFormat {
  import opened Bits
  import opened Bytes
  import opened Chunks
  import opened RelLayout
  import opened RelTypes
  import opened Wrappers

  // ----- writing -----

  predicate Fits32(n: int) {
    0 <= n < 0x1_0000_0000
  }

  predicate HeaderFits(h: Header) {
    && Fits32(h.index) && Fits32(h.version) && Fits32(h.sectionInfoOffset) && Fits32(h.pathOffset)
    && Fits32(h.pathSize) && Fits32(h.bssSize) && Fits32(h.relOffset) && Fits32(h.impOffset) && Fits32(h.impSize)
    && h.prologSection < 256 && h.epilogSection < 256 && h.unresolvedSection < 256
    && Fits32(h.prolog) && Fits32(h.epilog) && Fits32(h.unresolved)
    && (h.version >= 2 ==> Fits32(h.alignment) && Fits32(h.bssAlign))
    && (h.version >= 3 ==> Fits32(h.fixSize))
  }

  function HeaderWords(h: Header, count: U32): seq<U32>
    requires HeaderFits(h)
  {
    [h.index, 0, 0, count, h.sectionInfoOffset, h.pathOffset, h.pathSize, h.version,
     h.bssSize, h.relOffset, h.impOffset, h.impSize]
  }

  function HeaderBytes(h: Header, count: U32): (s: seq<Byte>)
    requires HeaderFits(h)
    ensures |s| == HEADER_SIZE
  {
    PackWords(HeaderWords(h, count)) + [h.prologSection, h.epilogSection, h.unresolvedSection, 0]
      + PackWords([h.prolog, h.epilog, h.unresolved])
  }

  function HeaderChunks(h: Header, count: U32): seq<Chunk>
    requires HeaderFits(h)
  {
    [Chunk(0, HeaderBytes(h, count))]
      + (if h.version >= 2 then [Chunk(HEADER_SIZE, PackWords([h.alignment, h.bssAlign]))] else [])
      + (if h.version >= 3 then [Chunk(HEADER_SIZE + 8, PackWords([h.fixSize]))] else [])
  }

  predicate InfoFits(sec: Section, loc: nat) {
    loc % 4 == 0 && Fits32(loc) && Fits32(sec.secLen)
  }

  /** `data_offs | executable`; the offset is a multiple of four. */
  function InfoFlags(sec: Section, loc: nat): U32
    requires InfoFits(sec, loc)
  {
    if sec.isBss then 0 else loc + (if sec.executable then 1 else 0)
  }

  function InfoBytes(sec: Section, loc: nat): (s: seq<Byte>)
    requires InfoFits(sec, loc)
    ensures |s| == SECTION_INFO_SIZE
  {
    PackWords([InfoFlags(sec, loc), sec.secLen])
  }

  predicate InfosFit(sections: seq<Section>, locs: seq<nat>) {
    |locs| == |sections| && forall i :: 0 <= i < |sections| ==> InfoFits(sections[i], locs[i])
  }

  function InfoChunks(sections: seq<Section>, locs: seq<nat>, base: nat): (r: seq<Chunk>)
    requires InfosFit(sections, locs)
    ensures |r| == |sections|
  {
    seq(|sections|, i requires 0 <= i < |sections| =>
      Chunk(base + SECTION_INFO_SIZE * i, InfoBytes(sections[i], locs[i])))
  }

  predicate ImportFits(mod: nat, loc: nat) {
    Fits32(mod) && Fits32(loc)
  }

  predicate ImportsFit(order: seq<nat>, locs: seq<nat>) {
    |locs| == |order| && forall i :: 0 <= i < |order| ==> ImportFits(order[i], locs[i])
  }

  function ImportBytes(mod: nat, loc: nat): (s: seq<Byte>)
    requires ImportFits(mod, loc)
    ensures |s| == IMPORT_SIZE
  {
    PackWords([mod, loc])
  }

  function ImportChunks(order: seq<nat>, locs: seq<nat>, base: nat): (r: seq<Chunk>)
    requires ImportsFit(order, locs)
    ensures |r| == |order|
  {
    seq(|order|, i requires 0 <= i < |order| => Chunk(base + IMPORT_SIZE * i, ImportBytes(order[i], locs[i])))
  }

  /** Everything `Rel.write` has decided when it begins to write. */
  datatype Plan = Plan(header: Header, sections: seq<Section>, tables: seq<ModuleTable>,
                       locs: seq<nat>, order: seq<nat>, tableLocs: seq<nat>)

  /** Every number outside the relocation tables fits its field. */
  predicate FieldsFit(p: Plan) {
    && HeaderFits(p.header) && Fits32(|p.sections|)
    && InfosFit(p.sections, p.locs)
    && ImportsFit(p.order, p.tableLocs)
  }

  predicate Writable(p: Plan) {
    FieldsFit(p) && TablesFit(p.order, p.tables)
  }

  function PlanChunks(p: Plan): seq<Chunk>
    requires Writable(p)
  {
    HeaderChunks(p.header, |p.sections|)
      + InfoChunks(p.sections, p.locs, p.header.sectionInfoOffset)
      + DataChunks(p.sections, p.locs)
      + ImportChunks(p.order, p.tableLocs, p.header.impOffset)
      + TableChunks(p.order, p.tables, p.tableLocs)
  }

  // ----- layout -----

  /** The plan follows the layout of `Rel.write`, section data from `start` on. */
  predicate LaidOut(p: Plan, start: nat) {
    && SectionsValid(p.sections)
    && start == SectionsStart(p.header, p.sections)
    && p.header.sectionInfoOffset == HeaderSize(p.header.version)
    && p.locs == SectionLocs(p.sections, start)
    && p.header.impOffset == SectionsEnd(p.sections, start)
    && p.header.impSize == IMPORT_SIZE * |p.tables|
    && p.header.relOffset == p.header.impOffset + p.header.impSize
    && Distinct(Keys(p.tables))
    && p.order == ModuleOrder(Keys(p.tables), p.header.index)
    && p.tableLocs == TablePlaces(p.order, p.tables, p.header.relOffset)
  }

  /** The modules that a reader of the written file gets, and the places of their tables. */
  function ReadOrder(p: Plan): seq<nat> {
    ImportOrder(Keys(p.tables), p.header.index)
  }

  predicate Twice(p: Plan) {
    ListedTwice(Keys(p.tables), p.header.index)
  }

  lemma {:induction false} InfosTiled(sections: seq<Section>, locs: seq<nat>, base: nat)
    requires InfosFit(sections, locs)
    ensures Tiled(InfoChunks(sections, locs, base), base, base + SECTION_INFO_SIZE * |sections|)
    decreases |sections|
  {
    if sections != [] {
      InfosTiled(sections[1..], locs[1..], base + SECTION_INFO_SIZE);
      InfoChunksTail(sections, locs, base);
    }
  }

  lemma InfoChunksTail(sections: seq<Section>, locs: seq<nat>, base: nat)
    requires sections != [] && InfosFit(sections, locs) && InfosFit(sections[1..], locs[1..])
    ensures InfoChunks(sections, locs, base)[1..] == InfoChunks(sections[1..], locs[1..], base + SECTION_INFO_SIZE)
  {
  }

  lemma DataChunksTail(sections: seq<Section>, locs: seq<nat>)
    requires sections != [] && |locs| == |sections|
    ensures DataChunks(sections, locs)[1..] == DataChunks(sections[1..], locs[1..])
  {
  }

  lemma {:induction false} ImportsTiled(order: seq<nat>, locs: seq<nat>, base: nat)
    requires ImportsFit(order, locs)
    ensures Tiled(ImportChunks(order, locs, base), base, base + IMPORT_SIZE * |order|)
    decreases |order|
  {
    if order != [] {
      ImportsTiled(order[1..], locs[1..], base + IMPORT_SIZE);
      ImportChunksTail(order, locs, base);
    }
  }

  lemma ImportChunksTail(order: seq<nat>, locs: seq<nat>, base: nat)
    requires order != [] && ImportsFit(order, locs) && ImportsFit(order[1..], locs[1..])
    ensures ImportChunks(order, locs, base)[1..] == ImportChunks(order[1..], locs[1..], base + IMPORT_SIZE)
  {
  }

  lemma HeaderTiled(h: Header, count: U32)
    requires HeaderFits(h)
    ensures Tiled(HeaderChunks(h, count), 0, HeaderSize(h.version))
  {
    var a := [Chunk(0, HeaderBytes(h, count))];
    var b := if h.version >= 2 then [Chunk(HEADER_SIZE, PackWords([h.alignment, h.bssAlign]))] else [];
    var c := if h.version >= 3 then [Chunk(HEADER_SIZE + 8, PackWords([h.fixSize]))] else [];
    var m := if h.version >= 2 then HEADER_SIZE + 8 else HEADER_SIZE;
    assert a[1..] == [] && Tiled(a, 0, HEADER_SIZE);
    assert b != [] ==> b[1..] == [];
    assert c != [] ==> c[1..] == [];
    TiledConcat(a, b, 0, HEADER_SIZE, m);
    TiledConcat(a + b, c, 0, m, HeaderSize(h.version));
  }

  function FileEnd(p: Plan): nat {
    TablesEnd(p.order, p.tables, p.header.relOffset)
  }

  /** Everything up to the relocation tables, as far as a reader looks at it. */
  function FrontChunks(p: Plan, order: seq<nat>, locs: seq<nat>): seq<Chunk>
    requires HeaderFits(p.header) && Fits32(|p.sections|) && InfosFit(p.sections, p.locs) && ImportsFit(order, locs)
  {
    HeaderChunks(p.header, |p.sections|)
      + InfoChunks(p.sections, p.locs, p.header.sectionInfoOffset)
      + DataChunks(p.sections, p.locs)
      + ImportChunks(order, locs, p.header.impOffset)
  }

  lemma FrontTiled(p: Plan, start: nat, order: seq<nat>, locs: seq<nat>)
    requires Writable(p) && LaidOut(p, start) && ImportsFit(order, locs) && |order| == |p.tables|
    ensures Tiled(FrontChunks(p, order, locs), 0, p.header.relOffset)
  {
    SectionPartsTiled(p, start);
    FrontPartsTiled(p, start, order, locs);
  }

  lemma FrontPartsTiled(p: Plan, start: nat, order: seq<nat>, locs: seq<nat>)
    requires FieldsFit(p) && ImportsFit(order, locs)
    requires p.header.sectionInfoOffset == HeaderSize(p.header.version)
    requires p.header.relOffset == p.header.impOffset + IMPORT_SIZE * |order|
    requires Tiled(InfoChunks(p.sections, p.locs, p.header.sectionInfoOffset), p.header.sectionInfoOffset, start)
    requires Tiled(DataChunks(p.sections, p.locs), start, p.header.impOffset)
    ensures Tiled(FrontChunks(p, order, locs), 0, p.header.relOffset)
  {
    var h := p.header;
    HeaderTiled(h, |p.sections|);
    ImportsTiled(order, locs, h.impOffset);
    FourTiled(HeaderChunks(h, |p.sections|), InfoChunks(p.sections, p.locs, h.sectionInfoOffset),
              DataChunks(p.sections, p.locs), ImportChunks(order, locs, h.impOffset),
              h.sectionInfoOffset, start, h.impOffset, h.relOffset);
  }

  lemma InfosUpTo(sections: seq<Section>, locs: seq<nat>, base: nat, end: nat)
    requires InfosFit(sections, locs) && end == base + SECTION_INFO_SIZE * |sections|
    ensures Tiled(InfoChunks(sections, locs, base), base, end)
  {
    InfosTiled(sections, locs, base);
  }

  lemma SectionPartsTiled(p: Plan, start: nat)
    requires Writable(p) && LaidOut(p, start)
    ensures Tiled(InfoChunks(p.sections, p.locs, p.header.sectionInfoOffset), p.header.sectionInfoOffset, start)
    ensures Tiled(DataChunks(p.sections, p.locs), start, p.header.impOffset)
  {
    InfosUpTo(p.sections, p.locs, p.header.sectionInfoOffset, start);
    DataTiled(p.sections, start);
  }

  lemma FourTiled(a: seq<Chunk>, b: seq<Chunk>, c: seq<Chunk>, d: seq<Chunk>, l1: nat, l2: nat, l3: nat, l4: nat)
    requires Tiled(a, 0, l1) && Tiled(b, l1, l2) && Tiled(c, l2, l3) && Tiled(d, l3, l4)
    ensures Tiled(a + b + c + d, 0, l4)
  {
    TiledConcat(a, b, 0, l1, l2);
    TiledConcat(a + b, c, 0, l2, l3);
    TiledConcat(a + b + c, d, 0, l3, l4);
  }

  lemma PlacesOnce(p: Plan, start: nat)
    requires LaidOut(p, start) && !Twice(p)
    ensures p.order == ReadOrder(p) && |p.order| == |p.tables| && Distinct(p.order)
    ensures p.tableLocs == TableLocs(p.order, p.tables, p.header.relOffset)
  {
    ModuleOrderReads(Keys(p.tables), p.header.index);
    ImportOrderSet(Keys(p.tables), p.header.index);
    ImportOrderDistinct(Keys(p.tables), p.header.index);
    PlacedDistinct(p.order, TableLocs(p.order, p.tables, p.header.relOffset));
  }

  /** Header, section table, section data, import table and relocation tables occupy disjoint ascending
      ranges of the file, for any sections and modules, where no module is listed twice. */
  lemma LayoutTiled(p: Plan, start: nat)
    requires Writable(p) && LaidOut(p, start) && !Twice(p)
    ensures Tiled(PlanChunks(p), 0, FileEnd(p))
  {
    PlacesOnce(p, start);
    FrontTiled(p, start, p.order, p.tableLocs);
    TablesTiled(p.order, p.tables, p.header.relOffset);
    TiledConcat(FrontChunks(p, p.order, p.tableLocs), TableChunks(p.order, p.tables, p.tableLocs),
                0, p.header.relOffset, FileEnd(p));
  }

  // ----- a module 0 that is listed twice -----

  /** What `write` does at a module listed twice: its import entry and its table are written a second time. */
  datatype Again = Again(order: seq<nat>, locs: seq<nat>, entry: seq<Chunk>, table: seq<Chunk>)

  function Second(p: Plan): Again
    requires Writable(p)
  {
    var n := |p.order|;
    if Twice(p) && n > 0 then
      assert p.order[n - 1] in p.order && ImportFits(p.order[n - 1], p.tableLocs[n - 1]);
      Again(p.order[..n - 1], p.tableLocs[..n - 1],
            [Chunk(p.header.impOffset + IMPORT_SIZE * (n - 1), ImportBytes(p.order[n - 1], p.tableLocs[n - 1]))],
            EntryChunks(TableOf(p.tables, p.order[n - 1]), p.tableLocs[n - 1]))
    else Again(p.order, p.tableLocs, [], [])
  }

  lemma SecondFits(p: Plan)
    requires Writable(p)
    ensures ImportsFit(Second(p).order, Second(p).locs) && TablesFit(Second(p).order, p.tables)
    ensures PlanChunks(p) == FrontChunks(p, Second(p).order, Second(p).locs) + Second(p).entry
                             + TableChunks(Second(p).order, p.tables, Second(p).locs) + Second(p).table
  {
    if Twice(p) && |p.order| > 0 {
      SecondAgain(p, p.order[..|p.order| - 1], p.tableLocs[..|p.order| - 1]);
    } else {
      SecondNone(p);
    }
  }

  lemma SecondNone(p: Plan)
    requires Writable(p)
    ensures PlanChunks(p)
         == FrontChunks(p, p.order, p.tableLocs) + [] + TableChunks(p.order, p.tables, p.tableLocs) + []
  {
    NothingMore(FrontChunks(p, p.order, p.tableLocs), TableChunks(p.order, p.tables, p.tableLocs));
  }

  lemma NothingMore<T>(a: seq<T>, b: seq<T>)
    ensures a + [] + b + [] == a + b
  {
  }

  lemma SecondAgain(p: Plan, order: seq<nat>, locs: seq<nat>)
    requires Writable(p) && p.order != [] && order == p.order[..|p.order| - 1] && locs == p.tableLocs[..|p.order| - 1]
    ensures ImportsFit(order, locs) && TablesFit(order, p.tables)
    ensures var n := |p.order| - 1;
            var m, loc := p.order[n], p.tableLocs[n];
            && ImportFits(m, loc) && TableFits(TableOf(p.tables, m))
            && PlanChunks(p)
            == FrontChunks(p, order, locs) + [Chunk(p.header.impOffset + IMPORT_SIZE * n, ImportBytes(m, loc))]
               + TableChunks(order, p.tables, locs) + EntryChunks(TableOf(p.tables, m), loc)
  {
    var n := |p.order| - 1;
    var m, loc, h := p.order[n], p.tableLocs[n], p.header;
    SecondTwice(p, order, m, locs, loc);
    var front := HeaderChunks(h, |p.sections|) + InfoChunks(p.sections, p.locs, h.sectionInfoOffset)
                 + DataChunks(p.sections, p.locs);
    Regroup(front, ImportChunks(order, locs, h.impOffset),
            [Chunk(h.impOffset + IMPORT_SIZE * n, ImportBytes(m, loc))],
            TableChunks(order, p.tables, locs), EntryChunks(TableOf(p.tables, m), loc));
  }

  lemma SecondTwice(p: Plan, order: seq<nat>, m: nat, locs: seq<nat>, loc: nat)
    requires Writable(p) && p.order != [] && order == p.order[..|p.order| - 1] && m == p.order[|p.order| - 1]
    requires locs == p.tableLocs[..|p.order| - 1] && loc == p.tableLocs[|p.order| - 1]
    ensures ImportsFit(order, locs) && ImportFits(m, loc)
    ensures TablesFit(order, p.tables) && TableFits(TableOf(p.tables, m))
    ensures ImportChunks(p.order, p.tableLocs, p.header.impOffset)
         == ImportChunks(order, locs, p.header.impOffset)
            + [Chunk(p.header.impOffset + IMPORT_SIZE * |order|, ImportBytes(m, loc))]
    ensures TableChunks(p.order, p.tables, p.tableLocs)
         == TableChunks(order, p.tables, locs) + EntryChunks(TableOf(p.tables, m), loc)
  {
    ImportsSnoc(order, m, locs, loc, p.header.impOffset, p.order, p.tableLocs);
    assert p.order == order + [m] && p.tableLocs == locs + [loc];
    TableChunksSnoc(order, m, p.tables, locs, loc);
  }

  lemma ImportsSnoc(order: seq<nat>, m: nat, locs: seq<nat>, loc: nat, base: nat, order': seq<nat>, locs': seq<nat>)
    requires order' != [] && |locs'| == |order'| && order == order'[..|order'| - 1] && m == order'[|order'| - 1]
    requires locs == locs'[..|order'| - 1] && loc == locs'[|order'| - 1] && ImportsFit(order', locs')
    ensures ImportsFit(order, locs) && ImportFits(m, loc)
    ensures ImportChunks(order', locs', base)
         == ImportChunks(order, locs, base) + [Chunk(base + IMPORT_SIZE * |order|, ImportBytes(m, loc))]
  {
  }

  lemma Regroup<T>(a: seq<T>, b: seq<T>, c: seq<T>, d: seq<T>, e: seq<T>)
    ensures a + (b + c) + (d + e) == a + b + c + d + e
  {
  }

  /** The tables a reader gets stand in disjoint ranges, also if one of them is written twice. */
  lemma ReadTablesTiled(p: Plan, start: nat)
    requires Writable(p) && LaidOut(p, start) && Twice(p)
    ensures Second(p).order == ReadOrder(p) && |ReadOrder(p)| == |p.tables| && TablesFit(ReadOrder(p), p.tables)
    ensures Tiled(TableChunks(ReadOrder(p), p.tables, Second(p).locs), p.header.relOffset, FileEnd(p))
    ensures exists before :: TableChunks(ReadOrder(p), p.tables, Second(p).locs) == before + Second(p).table
  {
    var pos, front := p.header.relOffset, Sorted(Foreign(Keys(p.tables), 0));
    OrderTwice(p, front);
    PlacesTwice(front, 0, p.tables, pos);
    SecondFits(p);
    var firsts, q := TableLocs(front, p.tables, pos), Align(TablesEnd(front + [0], p.tables, pos), 4);
    SecondIs(p, front, firsts, q);
    LastTableTiled(p, front, q);
  }

  lemma OrderTwice(p: Plan, front: seq<nat>)
    requires Twice(p) && front == Sorted(Foreign(Keys(p.tables), 0))
    requires Distinct(Keys(p.tables)) && p.order == ModuleOrder(Keys(p.tables), p.header.index)
    ensures p.order == front + [0] + [0] && ReadOrder(p) == front + [0] && |ReadOrder(p)| == |p.tables|
    ensures Distinct(front) && 0 !in front
  {
    ModuleOrderReads(Keys(p.tables), 0);
    ImportOrderSet(Keys(p.tables), 0);
    ImportOrderDistinct(Keys(p.tables), 0);
    forall i, j | 0 <= i < j < |front| ensures front[i] != front[j] {
      assert ReadOrder(p)[i] == front[i] && ReadOrder(p)[j] == front[j];
    }
    forall i | 0 <= i < |front| ensures front[i] != 0 {
      assert ReadOrder(p)[i] == front[i] && ReadOrder(p)[|front|] == 0;
    }
  }

  lemma SecondIs(p: Plan, front: seq<nat>, firsts: seq<nat>, q: nat)
    requires Writable(p) && Twice(p) && |front| == |firsts|
    requires p.order == front + [0] + [0] && p.tableLocs == firsts + [q] + [q]
    ensures Second(p).order == front + [0] && Second(p).locs == firsts + [q]
    ensures Second(p).table == EntryChunks(TableOf(p.tables, 0), q)
  {
    assert p.order[..|p.order| - 1] == front + [0] && p.tableLocs[..|p.order| - 1] == firsts + [q];
  }

  lemma LastTableTiled(p: Plan, front: seq<nat>, q: nat)
    requires TablesFit(front + [0], p.tables) && p.order == front + [0] + [0]
    requires q == Align(TablesEnd(front + [0], p.tables, p.header.relOffset), 4)
    ensures TablesFit(front, p.tables) && TableFits(TableOf(p.tables, 0))
    ensures var pos := p.header.relOffset;
            var firsts := TableChunks(front, p.tables, TableLocs(front, p.tables, pos));
            var chunks := TableChunks(front + [0], p.tables, TableLocs(front, p.tables, pos) + [q]);
            && chunks == firsts + EntryChunks(TableOf(p.tables, 0), q)
            && Tiled(chunks, pos, FileEnd(p))
  {
    var pos := p.header.relOffset;
    var locs, table := TableLocs(front, p.tables, pos), TableOf(p.tables, 0);
    TableChunksSnoc(front, 0, p.tables, locs, q);
    TablesTiled(front, p.tables, pos);
    EntriesTiled(table, q);
    TableLocsSnoc(front, 0, p.tables, pos);
    TableLocsSnoc(front + [0], 0, p.tables, pos);
    var mid := TablesEnd(front, p.tables, pos);
    Align4(mid);
    Align4(TablesEnd(front + [0], p.tables, pos));
    TiledThen(TableChunks(front, p.tables, locs), EntryChunks(table, q), pos, mid, q, FileEnd(p));
  }

  lemma TiledThen(a: seq<Chunk>, b: seq<Chunk>, lo: nat, mid: nat, q: nat, hi: nat)
    requires Tiled(a, lo, mid) && mid <= q && Tiled(b, q, hi)
    ensures Tiled(a + b, lo, hi)
  {
    TiledWiden(b, q, mid, hi, hi);
    TiledConcat(a, b, lo, mid, hi);
  }

  /** Then parts of the file are written twice, so that no order of ranges covers all that is written. */
  lemma TwiceNotTiled(p: Plan, start: nat, lo: nat, hi: nat)
    requires Writable(p) && LaidOut(p, start) && Twice(p) && TableOf(p.tables, 0) != []
    ensures !Tiled(PlanChunks(p), lo, hi)
  {
    ReadTablesTiled(p, start);
    SecondFits(p);
    var a := Second(p);
    var tables, front := TableChunks(a.order, p.tables, a.locs), FrontChunks(p, a.order, a.locs) + a.entry;
    var before :| tables == before + a.table;
    assert p.order[|p.order| - 1] == 0 by { ModuleOrderReads(Keys(p.tables), 0); }
    assert a.table == EntryChunks(TableOf(p.tables, 0), p.tableLocs[|p.order| - 1]);
    var c := a.table[0];
    assert c in a.table && c in tables && c in front + tables && c.bytes != [];
    if Tiled(PlanChunks(p), lo, hi) {
      TiledApart(front + tables, a.table, lo, hi);
    }
  }

  // ----- reading -----

  /** What `Rel.read` fills in. A section that is read has no alignment; 0 stands for that. */
  datatype Image = Image(header: Header, sections: seq<Section>, tables: seq<ModuleTable>)

  /** The header; alignments the version does not store keep the constructor's values. */
  function ParseHeader(bytes: seq<Byte>, alignment: nat, bssAlign: nat): Option<(Header, nat)> {
    if |bytes| < HEADER_SIZE then None
    else
      var version := Get32(bytes, 28);
      if version >= 2 && |bytes| < HEADER_SIZE + 8 then None
      else
        Some((Header(
                Get32(bytes, 0), version, Get32(bytes, 16), Get32(bytes, 20), Get32(bytes, 24), Get32(bytes, 32),
                Get32(bytes, 36), Get32(bytes, 40), Get32(bytes, 44),
                bytes[48], bytes[49], bytes[50], Get32(bytes, 52), Get32(bytes, 56), Get32(bytes, 60),
                if version >= 2 then Get32(bytes, HEADER_SIZE) else alignment,
                if version >= 2 then Get32(bytes, HEADER_SIZE + 4) else bssAlign,
                // The offset that is passed is the size of the second header struct
                if version >= 3 then Get32(bytes, 8) else 0),
              Get32(bytes, 12)))
  }

  /** `RelSection._read` */
  function ParseSection(bytes: seq<Byte>, pos: nat): Section
    requires pos + SECTION_INFO_SIZE <= |bytes|
  {
    var flags, len := Get32(bytes, pos), Get32(bytes, pos + 4);
    var offs := flags / 4 * 4;
    if offs != 0 then Section(flags % 2 == 1, false, len, Clip(bytes, offs, offs + len), 0)
    else Section(flags % 2 == 1, true, len, [], 0)
  }

  function ParseSections(bytes: seq<Byte>, pos: nat, count: nat): Option<seq<Section>>
    decreases count
  {
    if count == 0 then Some([])
    else if |bytes| < pos + SECTION_INFO_SIZE then None
    else
      match ParseSections(bytes, pos + SECTION_INFO_SIZE, count - 1)
      case None => None
      case Some(rest) => Some([ParseSection(bytes, pos)] + rest)
  }

  function ParseReloc(bytes: seq<Byte>, pos: nat): Option<Reloc> {
    if |bytes| < pos + RELOC_SIZE || !KnownType(bytes[pos + 2]) then None
    else Some(Reloc(Get16(bytes, pos), bytes[pos + 2], bytes[pos + 3], Get32(bytes, pos + 4)))
  }

  /** A relocation table: entries up to a STOP entry or the end of the file. */
  function ParseTable(bytes: seq<Byte>, pos: nat): Option<seq<Reloc>>
    decreases |bytes| - pos
  {
    if pos >= |bytes| then Some([])
    else
      match ParseReloc(bytes, pos)
      case None => None
      case Some(r) =>
        if r.kind == R_RVL_STOP then Some([r])
        else
          match ParseTable(bytes, pos + RELOC_SIZE)
          case None => None
          case Some(rest) => Some([r] + rest)
  }

  /** The import table from entry position `pos` on, behind the modules already `seen`. */
  function ParseImports(bytes: seq<Byte>, pos: nat, count: nat, seen: set<nat>): Option<seq<ModuleTable>>
    decreases count
  {
    if count == 0 then Some([])
    else if |bytes| < pos + IMPORT_SIZE then None
    else
      var mod := Get32(bytes, pos);
      if mod in seen then None
      else
        match ParseTable(bytes, Get32(bytes, pos + 4))
        case None => None
        case Some(table) =>
          match ParseImports(bytes, pos + IMPORT_SIZE, count - 1, seen + {mod})
          case None => None
          case Some(rest) => Some([ModuleTable(mod, table)] + rest)
  }

  /** `Rel.read`; `None` stands for an exception of the reader. */
  function ParseRel(bytes: seq<Byte>, alignment: nat, bssAlign: nat): Option<Image> {
    match ParseHeader(bytes, alignment, bssAlign)
    case None => None
    case Some((h, count)) =>
      match ParseSections(bytes, h.sectionInfoOffset, count)
      case None => None
      case Some(sections) =>
        match ParseImports(bytes, h.impOffset, (h.impSize + IMPORT_SIZE - 1) / IMPORT_SIZE, {})
        case None => None
        case Some(tables) => Some(Image(h, sections, tables))
  }

  // ----- round trip -----

  /** A section as it comes back: an empty section is taken for bss, a bss section loses its flag, and the
      alignment is not stored. */
  function ReadBack(sec: Section): Section {
    if Stored(sec) then sec.(alignment := 0)
    else Section(sec.executable && !sec.isBss, true, sec.secLen, [], 0)
  }

  function ReadBackAll(sections: seq<Section>): (r: seq<Section>)
    ensures |r| == |sections|
  {
    seq(|sections|, i requires 0 <= i < |sections| => ReadBack(sections[i]))
  }

  /** One STOP entry, which is last, behind entries of known types. */
  predicate Terminated(table: seq<Reloc>) {
    && table != []
    && (forall i :: 0 <= i < |table| ==> KnownType(table[i].kind))
    && (forall i :: 0 <= i < |table| ==> (table[i].kind == R_RVL_STOP <==> i == |table| - 1))
  }

  /** The header as it comes back: `fix_size` is read from a place that always holds 0. */
  function HeaderBack(h: Header, alignment: nat, bssAlign: nat): Header {
    h.(fixSize := 0,
       alignment := if h.version >= 2 then h.alignment else alignment,
       bssAlign := if h.version >= 2 then h.bssAlign else bssAlign)
  }

  lemma HeaderRoundTrip(file: seq<Byte>, h: Header, count: U32, alignment: nat, bssAlign: nat)
    requires HeaderFits(h) && Holds(file, HeaderChunks(h, count))
    ensures ParseHeader(file, alignment, bssAlign) == Some((HeaderBack(h, alignment, bssAlign), count))
  {
    var chunks := HeaderChunks(h, count);
    assert chunks[0] == Chunk(0, HeaderBytes(h, count));
    HeaderPieces(file, h, count);
    HeaderWordsRead(file, h, count);
    HeaderTailRead(file, h);
    if h.version >= 2 {
      assert chunks[1..][0] == Chunk(HEADER_SIZE, PackWords([h.alignment, h.bssAlign]));
      var al: seq<U32> := [h.alignment, h.bssAlign];
      GetWordAt(file, HEADER_SIZE, al, 0);
      GetWordAt(file, HEADER_SIZE, al, 1);
    }
    HeaderRead(file, h, count, alignment, bssAlign);
  }

  function SectionIds(h: Header): seq<Byte>
    requires HeaderFits(h)
  {
    [h.prologSection, h.epilogSection, h.unresolvedSection, 0]
  }

  function EntryOffsets(h: Header): seq<U32>
    requires HeaderFits(h)
  {
    [h.prolog, h.epilog, h.unresolved]
  }

  lemma HeaderPieces(file: seq<Byte>, h: Header, count: U32)
    requires HeaderFits(h) && At(file, 0, HeaderBytes(h, count))
    ensures At(file, 0, PackWords(HeaderWords(h, count)))
    ensures At(file, 48, SectionIds(h)) && At(file, 52, PackWords(EntryOffsets(h)))
  {
    var ws, bs, es := PackWords(HeaderWords(h, count)), SectionIds(h), PackWords(EntryOffsets(h));
    assert HeaderBytes(h, count) == [] + ws + (bs + es);
    AtPart(file, 0, [], ws, bs + es);
    AtPart(file, 0, ws, bs, es);
    assert HeaderBytes(h, count) == (ws + bs) + es + [];
    AtPart(file, 0, ws + bs, es, []);
  }

  lemma HeaderTailRead(file: seq<Byte>, h: Header)
    requires HeaderFits(h) && At(file, 48, SectionIds(h)) && At(file, 52, PackWords(EntryOffsets(h)))
    ensures |file| >= HEADER_SIZE
    ensures file[48] == h.prologSection && file[49] == h.epilogSection && file[50] == h.unresolvedSection
    ensures Get32(file, 52) == h.prolog && Get32(file, 56) == h.epilog && Get32(file, 60) == h.unresolved
  {
    AtIndex(file, 48, SectionIds(h), 0);
    AtIndex(file, 48, SectionIds(h), 1);
    AtIndex(file, 48, SectionIds(h), 2);
    GetWordAt(file, 52, EntryOffsets(h), 0);
    GetWordAt(file, 52, EntryOffsets(h), 1);
    GetWordAt(file, 52, EntryOffsets(h), 2);
  }

  lemma HeaderRead(file: seq<Byte>, h: Header, count: U32, alignment: nat, bssAlign: nat)
    requires HeaderFits(h) && |file| >= HEADER_SIZE
    requires forall i :: 0 <= i < 12 ==> 4 * i + 4 <= |file| && Get32(file, 4 * i) == HeaderWords(h, count)[i]
    requires file[48] == h.prologSection && file[49] == h.epilogSection && file[50] == h.unresolvedSection
    requires Get32(file, 52) == h.prolog && Get32(file, 56) == h.epilog && Get32(file, 60) == h.unresolved
    requires h.version >= 2 ==> |file| >= HEADER_SIZE + 8
    requires h.version >= 2 ==> Get32(file, HEADER_SIZE) == h.alignment && Get32(file, HEADER_SIZE + 4) == h.bssAlign
    ensures ParseHeader(file, alignment, bssAlign) == Some((HeaderBack(h, alignment, bssAlign), count))
  {
    var ws := HeaderWords(h, count);
    assert Get32(file, 4 * 0) == ws[0] && Get32(file, 4 * 2) == ws[2] && Get32(file, 4 * 3) == ws[3];
    assert Get32(file, 4 * 4) == ws[4] && Get32(file, 4 * 5) == ws[5] && Get32(file, 4 * 6) == ws[6];
    assert Get32(file, 4 * 7) == ws[7] && Get32(file, 4 * 8) == ws[8] && Get32(file, 4 * 9) == ws[9];
    assert Get32(file, 4 * 10) == ws[10] && Get32(file, 4 * 11) == ws[11];
  }

  lemma HeaderWordsRead(file: seq<Byte>, h: Header, count: U32)
    requires HeaderFits(h) && At(file, 0, PackWords(HeaderWords(h, count)))
    ensures forall i :: 0 <= i < 12 ==> 4 * i + 4 <= |file| && Get32(file, 4 * i) == HeaderWords(h, count)[i]
  {
    forall i | 0 <= i < 12 ensures 4 * i + 4 <= |file| && Get32(file, 4 * i) == HeaderWords(h, count)[i] {
      GetWordAt(file, 0, HeaderWords(h, count), i);
    }
  }

  lemma {:induction false} SectionsRoundTrip(file: seq<Byte>, sections: seq<Section>, locs: seq<nat>, base: nat)
    requires SectionsValid(sections) && InfosFit(sections, locs)
    requires Holds(file, InfoChunks(sections, locs, base)) && Holds(file, DataChunks(sections, locs))
    requires forall i :: 0 <= i < |sections| ==> (Stored(sections[i]) <==> locs[i] != 0)
    ensures ParseSections(file, base, |sections|) == Some(ReadBackAll(sections))
    decreases |sections|
  {
    if sections != [] {
      var infos, data := InfoChunks(sections, locs, base), DataChunks(sections, locs);
      InfoChunksTail(sections, locs, base);
      DataChunksTail(sections, locs);
      SectionsRoundTrip(file, sections[1..], locs[1..], base + SECTION_INFO_SIZE);
      assert SectionValid(sections[0]) && InfoFits(sections[0], locs[0]);
      assert infos[0] == Chunk(base, InfoBytes(sections[0], locs[0]));
      assert data[0] == DataChunk(sections[0], locs[0]);
      SectionRoundTrip(file, sections[0], locs[0], base);
      ReadBackHead(sections);
      ParseSectionsStep(file, base, |sections|, ReadBackAll(sections[1..]));
    }
  }

  lemma ReadBackHead(sections: seq<Section>)
    requires sections != []
    ensures ReadBackAll(sections) == [ReadBack(sections[0])] + ReadBackAll(sections[1..])
  {
  }

  lemma ParseSectionsStep(file: seq<Byte>, pos: nat, count: nat, rest: seq<Section>)
    requires count > 0 && pos + SECTION_INFO_SIZE <= |file|
    requires ParseSections(file, pos + SECTION_INFO_SIZE, count - 1) == Some(rest)
    ensures ParseSections(file, pos, count) == Some([ParseSection(file, pos)] + rest)
  {
  }

  lemma SectionRoundTrip(file: seq<Byte>, sec: Section, loc: nat, pos: nat)
    requires SectionValid(sec) && InfoFits(sec, loc) && At(file, pos, InfoBytes(sec, loc))
    requires if Stored(sec) then loc != 0 && At(file, loc, sec.data) else loc == 0
    ensures ParseSection(file, pos) == ReadBack(sec)
  {
    InfoRead(file, sec, loc, pos);
    InfoFlagsRead(sec, loc);
    if Stored(sec) {
      assert Clip(file, loc, loc + sec.secLen) == sec.data;
    }
  }

  lemma InfoRead(file: seq<Byte>, sec: Section, loc: nat, pos: nat)
    requires InfoFits(sec, loc) && At(file, pos, InfoBytes(sec, loc))
    ensures pos + SECTION_INFO_SIZE <= |file|
    ensures Get32(file, pos) == InfoFlags(sec, loc) && Get32(file, pos + 4) == sec.secLen
  {
    var ws: seq<U32> := [InfoFlags(sec, loc), sec.secLen];
    WordIs(file, pos, ws, 0, pos);
    WordIs(file, pos, ws, 1, pos + 4);
  }

  lemma InfoFlagsRead(sec: Section, loc: nat)
    requires InfoFits(sec, loc)
    ensures InfoFlags(sec, loc) / 4 * 4 == (if sec.isBss then 0 else loc)
    ensures InfoFlags(sec, loc) % 2 == 1 <==> sec.executable && !sec.isBss
  {
  }

  lemma RelocRoundTrip(file: seq<Byte>, r: Reloc, pos: nat)
    requires RelocFits(r) && KnownType(r.kind) && At(file, pos, PackReloc(r))
    ensures ParseReloc(file, pos) == Some(r)
  {
    var a, b, c := Pack16(r.offset), [r.kind, r.section], Pack32(r.addend);
    assert PackReloc(r) == [] + a + (b + c) && PackReloc(r) == (a + b) + c + [];
    AtPart(file, pos, [], a, b + c);
    AtPart(file, pos, a, b, c);
    AtPart(file, pos, a + b, c, []);
    Get16At(file, pos, r.offset);
    Get32At(file, pos + 4, r.addend);
    AtIndex(file, pos + 2, b, 0);
    AtIndex(file, pos + 2, b, 1);
  }

  lemma TerminatedTail(table: seq<Reloc>)
    requires Terminated(table) && |table| > 1
    ensures Terminated(table[1..])
  {
  }

  lemma {:induction false} TableRoundTrip(file: seq<Byte>, table: seq<Reloc>, loc: nat)
    requires TableFits(table) && Terminated(table) && Holds(file, EntryChunks(table, loc))
    ensures ParseTable(file, loc) == Some(table)
    decreases |table|
  {
    EntryChunksRest(table, loc);
    RelocRoundTrip(file, table[0], loc);
    assert table == [table[0]] + table[1..];
    if |table| > 1 {
      TerminatedTail(table);
      TableRoundTrip(file, table[1..], loc + RELOC_SIZE);
      ParseTableStep(file, loc, table[0], table[1..]);
    } else {
      assert table[0].kind == R_RVL_STOP && table[1..] == [];
      assert table == [table[0]];
    }
  }

  lemma EntryChunksRest(table: seq<Reloc>, loc: nat)
    requires table != [] && TableFits(table)
    ensures EntryChunks(table, loc)[0] == Chunk(loc, PackReloc(table[0]))
    ensures EntryChunks(table, loc)[1..] == EntryChunks(table[1..], loc + RELOC_SIZE)
  {
  }

  lemma ParseTableStep(file: seq<Byte>, loc: nat, r: Reloc, rest: seq<Reloc>)
    requires loc < |file| && ParseReloc(file, loc) == Some(r) && r.kind != R_RVL_STOP
    requires ParseTable(file, loc + RELOC_SIZE) == Some(rest)
    ensures ParseTable(file, loc) == Some([r] + rest)
  {
  }

  /** The tables in the order of the import table. */
  function InOrder(order: seq<nat>, tables: seq<ModuleTable>): (r: seq<ModuleTable>)
    ensures |r| == |order|
  {
    seq(|order|, i requires 0 <= i < |order| => ModuleTable(order[i], TableOf(tables, order[i])))
  }

  predicate AllTerminated(order: seq<nat>, tables: seq<ModuleTable>) {
    forall m :: m in order ==> Terminated(TableOf(tables, m))
  }

  /** The import entry at `at` names module `m` and a table that is read as that of the module. */
  predicate EntryReads(file: seq<Byte>, m: nat, tables: seq<ModuleTable>, at: nat) {
    && at + IMPORT_SIZE <= |file| && Get32(file, at) == m
    && ParseTable(file, Get32(file, at + 4)) == Some(TableOf(tables, m))
  }

  lemma {:induction false} EntryStands(file: seq<Byte>, order: seq<nat>, tables: seq<ModuleTable>, locs: seq<nat>,
                                       pos: nat, i: nat, at: nat)
    requires PartsStand(file, order, tables, locs, pos) && i < |order| && at == pos + IMPORT_SIZE * i
    ensures EntryReads(file, order[i], tables, at)
    decreases i
  {
    FirstStands(file, order, tables, locs, pos);
    if i > 0 {
      EntryStands(file, order[1..], tables, locs[1..], pos + IMPORT_SIZE, i - 1, at);
    }
  }

  /** The import entries and the tables of `order` stand in the file. */
  predicate PartsStand(file: seq<Byte>, order: seq<nat>, tables: seq<ModuleTable>, locs: seq<nat>, pos: nat) {
    && ImportsFit(order, locs) && TablesFit(order, tables) && AllTerminated(order, tables)
    && Holds(file, ImportChunks(order, locs, pos)) && Holds(file, TableChunks(order, tables, locs))
  }

  lemma FirstStands(file: seq<Byte>, order: seq<nat>, tables: seq<ModuleTable>, locs: seq<nat>, pos: nat)
    requires PartsStand(file, order, tables, locs, pos) && order != []
    ensures EntryReads(file, order[0], tables, pos) && |locs| == |order|
    ensures PartsStand(file, order[1..], tables, locs[1..], pos + IMPORT_SIZE)
  {
    FitTail(order, tables, locs);
    ImportEntryRead(file, order, tables, locs, pos);
  }

  lemma FitTail(order: seq<nat>, tables: seq<ModuleTable>, locs: seq<nat>)
    requires order != [] && ImportsFit(order, locs) && TablesFit(order, tables) && AllTerminated(order, tables)
    ensures ImportsFit(order[1..], locs[1..]) && TablesFit(order[1..], tables) && AllTerminated(order[1..], tables)
  {
    assert forall m :: m in order[1..] ==> m in order;
  }

  lemma {:induction false} EntriesParse(file: seq<Byte>, order: seq<nat>, tables: seq<ModuleTable>, pos: nat,
                                        seen: set<nat>)
    requires Distinct(order) && forall m :: m in order ==> m !in seen
    requires forall i :: 0 <= i < |order| ==> EntryReads(file, order[i], tables, pos + IMPORT_SIZE * i)
    ensures ParseImports(file, pos, |order|, seen) == Some(InOrder(order, tables))
    decreases |order|
  {
    if order != [] {
      var rest, next := order[1..], pos + IMPORT_SIZE;
      assert EntryReads(file, order[0], tables, pos + IMPORT_SIZE * 0);
      forall i | 0 <= i < |rest| ensures EntryReads(file, rest[i], tables, next + IMPORT_SIZE * i) {
        assert EntryReads(file, order[i + 1], tables, pos + IMPORT_SIZE * (i + 1));
      }
      SeenTail(order, seen);
      EntriesParse(file, rest, tables, next, seen + {order[0]});
      ParseImportsStep(file, pos, |order|, seen, TableOf(tables, order[0]), InOrder(rest, tables));
      InOrderHead(order, tables);
    }
  }

  lemma SeenTail(order: seq<nat>, seen: set<nat>)
    requires order != [] && Distinct(order) && forall m :: m in order ==> m !in seen
    ensures order[0] !in seen && Distinct(order[1..]) && forall m :: m in order[1..] ==> m !in seen + {order[0]}
  {
    assert forall m :: m in order[1..] ==> m in order;
  }

  lemma ImportsRoundTrip(file: seq<Byte>, order: seq<nat>, tables: seq<ModuleTable>, locs: seq<nat>, pos: nat,
                         seen: set<nat>)
    requires ImportsFit(order, locs) && TablesFit(order, tables) && AllTerminated(order, tables)
    requires Distinct(order) && forall m :: m in order ==> m !in seen
    requires Holds(file, ImportChunks(order, locs, pos)) && Holds(file, TableChunks(order, tables, locs))
    ensures ParseImports(file, pos, |order|, seen) == Some(InOrder(order, tables))
  {
    forall i | 0 <= i < |order| ensures EntryReads(file, order[i], tables, pos + IMPORT_SIZE * i) {
      EntryStands(file, order, tables, locs, pos, i, pos + IMPORT_SIZE * i);
    }
    EntriesParse(file, order, tables, pos, seen);
  }

  lemma InOrderHead(order: seq<nat>, tables: seq<ModuleTable>)
    requires order != []
    ensures InOrder(order, tables) == [ModuleTable(order[0], TableOf(tables, order[0]))] + InOrder(order[1..], tables)
  {
  }

  /** The first import entry and its table are read back, and the rest of the chunks is left. */
  lemma ImportEntryRead(file: seq<Byte>, order: seq<nat>, tables: seq<ModuleTable>, locs: seq<nat>, pos: nat)
    requires order != [] && order[0] in order
    requires ImportsFit(order, locs) && TablesFit(order, tables) && AllTerminated(order, tables)
    requires ImportsFit(order[1..], locs[1..]) && TablesFit(order[1..], tables)
    requires Holds(file, ImportChunks(order, locs, pos)) && Holds(file, TableChunks(order, tables, locs))
    ensures pos + IMPORT_SIZE <= |file| && Get32(file, pos) == order[0]
    ensures ParseTable(file, Get32(file, pos + 4)) == Some(TableOf(tables, order[0]))
    ensures Holds(file, ImportChunks(order[1..], locs[1..], pos + IMPORT_SIZE))
    ensures Holds(file, TableChunks(order[1..], tables, locs[1..]))
  {
    ImportRead(file, order, locs, pos);
    var table := TableOf(tables, order[0]);
    assert Terminated(table) && TableFits(table);
    HoldsConcat(file, EntryChunks(table, locs[0]), TableChunks(order[1..], tables, locs[1..]));
    TableRoundTrip(file, table, locs[0]);
  }

  lemma ImportRead(file: seq<Byte>, order: seq<nat>, locs: seq<nat>, pos: nat)
    requires order != [] && ImportsFit(order, locs) && ImportsFit(order[1..], locs[1..])
    requires Holds(file, ImportChunks(order, locs, pos))
    ensures pos + IMPORT_SIZE <= |file| && Get32(file, pos) == order[0] && Get32(file, pos + 4) == locs[0]
    ensures Holds(file, ImportChunks(order[1..], locs[1..], pos + IMPORT_SIZE))
  {
    var imports := ImportChunks(order, locs, pos);
    ImportChunksTail(order, locs, pos);
    assert imports[0] == Chunk(pos, ImportBytes(order[0], locs[0]));
    ImportRoundTrip(file, order[0], locs[0], pos);
  }

  lemma ParseImportsStep(file: seq<Byte>, pos: nat, count: nat, seen: set<nat>, table: seq<Reloc>,
                         rest: seq<ModuleTable>)
    requires count > 0 && pos + IMPORT_SIZE <= |file| && Get32(file, pos) !in seen
    requires ParseTable(file, Get32(file, pos + 4)) == Some(table)
    requires ParseImports(file, pos + IMPORT_SIZE, count - 1, seen + {Get32(file, pos)}) == Some(rest)
    ensures ParseImports(file, pos, count, seen) == Some([ModuleTable(Get32(file, pos), table)] + rest)
  {
  }

  lemma ImportRoundTrip(file: seq<Byte>, m: nat, loc: nat, pos: nat)
    requires ImportFits(m, loc) && At(file, pos, ImportBytes(m, loc))
    ensures pos + IMPORT_SIZE <= |file| && Get32(file, pos) == m && Get32(file, pos + 4) == loc
  {
    var ws: seq<U32> := [m, loc];
    GetWordAt(file, pos, ws, 0);
    GetWordAt(file, pos, ws, 1);
  }

  lemma {:induction false} StoredLocs(sections: seq<Section>, pos: nat)
    requires SectionsValid(sections) && pos > 0
    ensures forall i :: 0 <= i < |sections| ==> (Stored(sections[i]) <==> SectionLocs(sections, pos)[i] != 0)
    decreases |sections|
  {
    DataTiled(sections, pos);
    if sections != [] {
      assert SectionValid(sections[0]);
      AlignRounds(pos, sections[0].alignment);
      var next := if Stored(sections[0]) then Align(pos, sections[0].alignment) + sections[0].secLen else pos;
      StoredLocs(sections[1..], next);
      assert SectionLocs(sections, pos)[1..] == SectionLocs(sections[1..], next);
    }
  }

  /** The bytes of a written module. */
  function FileBytes(p: Plan): seq<Byte>
    requires Writable(p)
  {
    WriteAll([], PlanChunks(p))
  }

  /** The parts a reader looks at stand in the file; what is written over them is the same once more. */
  lemma FileHolds(p: Plan, start: nat)
    requires Writable(p) && LaidOut(p, start)
    ensures Second(p).order == ReadOrder(p) && |ReadOrder(p)| == |p.tables|
    ensures ImportsFit(ReadOrder(p), Second(p).locs) && TablesFit(ReadOrder(p), p.tables)
    ensures Holds(FileBytes(p), FrontChunks(p, ReadOrder(p), Second(p).locs))
    ensures Holds(FileBytes(p), TableChunks(ReadOrder(p), p.tables, Second(p).locs))
  {
    SecondFits(p);
    SecondTiled(p, start);
    var a := Second(p);
    FrontTiled(p, start, a.order, a.locs);
    SecondHolds(p);
  }

  lemma SecondTiled(p: Plan, start: nat)
    requires Writable(p) && LaidOut(p, start) && TablesFit(Second(p).order, p.tables)
    ensures Second(p).order == ReadOrder(p) && |ReadOrder(p)| == |p.tables|
    ensures Tiled(TableChunks(Second(p).order, p.tables, Second(p).locs), p.header.relOffset, FileEnd(p))
    ensures Second(p).table == []
            || exists before :: TableChunks(Second(p).order, p.tables, Second(p).locs) == before + Second(p).table
    ensures Second(p).entry == [] || (|Second(p).entry| == 1 && Second(p).entry[0].pos == p.header.relOffset)
  {
    if Twice(p) {
      ReadTablesTiled(p, start);
    } else {
      PlacesOnce(p, start);
      TablesTiled(p.order, p.tables, p.header.relOffset);
    }
  }

  lemma SecondHolds(p: Plan)
    requires Writable(p)
    requires ImportsFit(Second(p).order, Second(p).locs) && TablesFit(Second(p).order, p.tables)
    requires PlanChunks(p) == FrontChunks(p, Second(p).order, Second(p).locs) + Second(p).entry
                              + TableChunks(Second(p).order, p.tables, Second(p).locs) + Second(p).table
    requires Tiled(FrontChunks(p, Second(p).order, Second(p).locs), 0, p.header.relOffset)
    requires Tiled(TableChunks(Second(p).order, p.tables, Second(p).locs), p.header.relOffset, FileEnd(p))
    requires Second(p).table == []
             || exists before :: TableChunks(Second(p).order, p.tables, Second(p).locs) == before + Second(p).table
    requires Second(p).entry == [] || (|Second(p).entry| == 1 && Second(p).entry[0].pos == p.header.relOffset)
    ensures Holds(FileBytes(p), FrontChunks(p, Second(p).order, Second(p).locs))
    ensures Holds(FileBytes(p), TableChunks(Second(p).order, p.tables, Second(p).locs))
  {
    var a := Second(p);
    PartsHold(FrontChunks(p, a.order, a.locs), a.entry, TableChunks(a.order, p.tables, a.locs), a.table,
              p.header.relOffset, FileEnd(p));
  }

  /** Chunks in ascending ranges, except that a chunk at the border of two parts is written over by the second part
      and that the end of the second part is written twice. */
  lemma PartsHold(front: seq<Chunk>, border: seq<Chunk>, back: seq<Chunk>, again: seq<Chunk>, mid: nat, hi: nat)
    requires Tiled(front, 0, mid) && Tiled(back, mid, hi)
    requires border == [] || (|border| == 1 && border[0].pos == mid)
    requires again == [] || exists before :: back == before + again
    ensures var f := WriteAll([], front + border + back + again);
            Holds(f, front) && Holds(f, back)
  {
    WriteAllConcat([], front + border + back, again);
    WriteAllConcat([], front + border, back);
    WriteAllConcat([], front, border);
    var f1 := WriteAll([], front);
    var f2 := WriteAll(f1, border);
    var f3 := WriteAll(f2, back);
    OverwriteHolds([], front, 0, mid);
    var e := if border == [] then mid else mid + |border[0].bytes|;
    assert Tiled(border, mid, e) by {
      if border != [] { assert border[1..] == []; }
    }
    HoldsKept(f1, front, 0, mid, border, e);
    HoldsKept(f2, front, 0, mid, back, hi);
    OverwriteHolds(f2, back, mid, hi);
    if again != [] {
      var before :| back == before + again;
      HoldsConcat(f3, before, again);
    }
    RewriteSame(f3, again);
  }

  /** The parts before the relocation tables, one by one. */
  lemma FrontHolds(p: Plan, start: nat)
    requires Writable(p) && LaidOut(p, start)
    ensures ImportsFit(ReadOrder(p), Second(p).locs)
    ensures var f, h := FileBytes(p), p.header;
            && Holds(f, HeaderChunks(h, |p.sections|))
            && Holds(f, InfoChunks(p.sections, p.locs, h.sectionInfoOffset))
            && Holds(f, DataChunks(p.sections, p.locs))
            && Holds(f, ImportChunks(ReadOrder(p), Second(p).locs, h.impOffset))
  {
    FileHolds(p, start);
    var f, h := FileBytes(p), p.header;
    var a, b := HeaderChunks(h, |p.sections|), InfoChunks(p.sections, p.locs, h.sectionInfoOffset);
    var c, d := DataChunks(p.sections, p.locs), ImportChunks(ReadOrder(p), Second(p).locs, h.impOffset);
    HoldsConcat(f, a + b + c, d);
    HoldsConcat(f, a + b, c);
    HoldsConcat(f, a, b);
  }

  /** A byte of the file that belongs to no part is zero. */
  lemma BetweenPartsZero(p: Plan, k: nat)
    requires Writable(p) && k < |FileBytes(p)|
    requires forall c | c in PlanChunks(p) :: k < c.pos || c.pos + |c.bytes| <= k
    ensures FileBytes(p)[k] == 0
  {
    GapsAreZero([], PlanChunks(p), k);
  }

  /** A module written by `Rel.write` and read by `Rel.read` has the same header fields except `fix_size`, the
      same section lengths, flags and bytes as `ReadBack` says, and the same relocation lists, in import order. */
  lemma RelRoundTrip(p: Plan, start: nat, alignment: nat, bssAlign: nat)
    requires Writable(p) && LaidOut(p, start) && AllTerminated(p.order, p.tables)
    ensures ParseRel(FileBytes(p), alignment, bssAlign)
         == Some(Image(HeaderBack(p.header, alignment, bssAlign), ReadBackAll(p.sections),
                       InOrder(ReadOrder(p), p.tables)))
  {
    FrontComesBack(p, start, alignment, bssAlign);
    TablesComeBack(p, start);
    PartsComeBack(p, alignment, bssAlign);
  }

  lemma PartsComeBack(p: Plan, alignment: nat, bssAlign: nat)
    requires Writable(p)
    requires ParseHeader(FileBytes(p), alignment, bssAlign)
          == Some((HeaderBack(p.header, alignment, bssAlign), |p.sections|))
    requires ParseSections(FileBytes(p), p.header.sectionInfoOffset, |p.sections|) == Some(ReadBackAll(p.sections))
    requires ParseImports(FileBytes(p), p.header.impOffset, (p.header.impSize + IMPORT_SIZE - 1) / IMPORT_SIZE, {})
          == Some(InOrder(ReadOrder(p), p.tables))
    ensures ParseRel(FileBytes(p), alignment, bssAlign)
         == Some(Image(HeaderBack(p.header, alignment, bssAlign), ReadBackAll(p.sections),
                       InOrder(ReadOrder(p), p.tables)))
  {
    var back := HeaderBack(p.header, alignment, bssAlign);
    assert back.sectionInfoOffset == p.header.sectionInfoOffset && back.impOffset == p.header.impOffset;
    assert back.impSize == p.header.impSize;
  }

  lemma FrontComesBack(p: Plan, start: nat, alignment: nat, bssAlign: nat)
    requires Writable(p) && LaidOut(p, start)
    ensures ParseHeader(FileBytes(p), alignment, bssAlign)
         == Some((HeaderBack(p.header, alignment, bssAlign), |p.sections|))
    ensures ParseSections(FileBytes(p), p.header.sectionInfoOffset, |p.sections|) == Some(ReadBackAll(p.sections))
  {
    FrontHolds(p, start);
    HeaderRoundTrip(FileBytes(p), p.header, |p.sections|, alignment, bssAlign);
    StoredLocs(p.sections, start);
    SectionsRoundTrip(FileBytes(p), p.sections, p.locs, p.header.sectionInfoOffset);
  }

  lemma TablesComeBack(p: Plan, start: nat)
    requires Writable(p) && LaidOut(p, start) && AllTerminated(p.order, p.tables)
    ensures ParseImports(FileBytes(p), p.header.impOffset, (p.header.impSize + IMPORT_SIZE - 1) / IMPORT_SIZE, {})
         == Some(InOrder(ReadOrder(p), p.tables))
  {
    var order, locs := ReadOrder(p), Second(p).locs;
    FileHolds(p, start);
    FrontHolds(p, start);
    ImportOrderDistinct(Keys(p.tables), p.header.index);
    ModuleOrderReads(Keys(p.tables), p.header.index);
    assert forall m :: m in order ==> m in p.order;
    ImportsRoundTrip(FileBytes(p), order, p.tables, locs, p.header.impOffset, {});
    assert (p.header.impSize + IMPORT_SIZE - 1) / IMPORT_SIZE == |order|;
  }
}
