/** Counting over all slices of a loaded file: the progress counters of progress.py, and how many slice
    sections contain an offset (tools/slicelib.py). */
module SliceSums {
  import opened SlicePartition
  import opened Slices

  // ----- every slice section belongs to a nonempty section of the file -----

  predicate Named(meta: seq<SectionInfo>, names: seq<string>, s: SliceSection) {
    s.secName in names && HasSection(meta, s.secName) && s.secIdx == Info(meta, s.secName).index
  }

  predicate AllNamed(meta: seq<SectionInfo>, names: seq<string>, secs: seq<SliceSection>) {
    forall i :: 0 <= i < |secs| ==> Named(meta, names, secs[i])
  }

  lemma {:induction false} FillerNamed(meta: seq<SectionInfo>, all: seq<string>, names: seq<string>,
                                       filler: map<string, (nat, nat)>)
    requires forall n :: n in names ==> n in all && n in filler && HasSection(meta, n)
    ensures AllNamed(meta, all, FillerSections(meta, names, filler))
  {
    if names != [] {
      assert names[0] in names;
      FillerNamed(meta, all, names[1..], filler);
    }
  }

  lemma {:induction false} RangesNamed(meta: seq<SectionInfo>, names: seq<string>, ranges: seq<Range>, c: Cursor)
    requires c.filler.Keys == c.curr.Keys && forall n :: n in c.curr ==> n in names
    requires ParseRanges(meta, ranges, c).Some?
    ensures AllNamed(meta, names, ParseRanges(meta, ranges, c).value.0)
    decreases |ranges|
  {
    if ranges != [] {
      var r := ranges[0];
      var c' := Cursor(c.curr[r.section := r.end], c.filler[r.section := (c.curr[r.section], r.begin)]);
      assert c'.filler.Keys == c'.curr.Keys && r.section in names;
      RangesNamed(meta, names, ranges[1..], c');
    }
  }

  lemma {:induction false} LoadNamed(meta: seq<SectionInfo>, names: seq<string>, slices: seq<SliceData>,
                                     curr: map<string, nat>, idx: nat)
    requires KnownNames(meta, names, curr) && LoadFrom(meta, names, slices, curr, idx).Some?
    ensures AllNamed(meta, names, AllSections(LoadFrom(meta, names, slices, curr, idx).value))
    decreases |slices|
  {
    if slices == [] {
      var last := LastRanges(meta, names, curr);
      FillerNamed(meta, names, names, last);
      FillerSliceSections(FillerSections(meta, names, last), idx);
    } else {
      var c := Cursor(curr, ZeroRanges(names));
      var secs, end, fillerSecs, idx', rest := LoadUnfold(meta, names, slices, curr, idx, c);
      RangesNamed(meta, names, slices[0].ranges, c);
      FillerNamed(meta, names, names, end.filler);
      LoadNamed(meta, names, slices[1..], end.curr, idx');
      NamedConcat(meta, names, fillerSecs + secs, AllSections(rest));
      NamedConcat(meta, names, fillerSecs, secs);
    }
  }

  lemma NamedConcat(meta: seq<SectionInfo>, names: seq<string>, a: seq<SliceSection>, b: seq<SliceSection>)
    ensures AllNamed(meta, names, a + b) <== AllNamed(meta, names, a) && AllNamed(meta, names, b)
  {
  }

  // ----- sums over one section -----

  function Length(s: SliceSection, filter: seq<string>): int {
    if s.secName in filter then s.end - s.start else 0
  }

  function Holds(s: SliceSection, idx: int, x: int): int {
    if s.Contains(idx, x) then 1 else 0
  }

  function TotalOf(pieces: seq<Piece>): int {
    if pieces == [] then 0 else pieces[0].1 - pieces[0].0 + TotalOf(pieces[1..])
  }

  function CountIn(pieces: seq<Piece>, x: int): nat {
    if pieces == [] then 0 else (if pieces[0].0 <= x < pieces[0].1 then 1 else 0) + CountIn(pieces[1..], x)
  }

  /** The lengths of a chain add up to its extent, even where pieces run backwards. */
  lemma {:induction false} ChainTotal(pieces: seq<Piece>, lo: int, hi: int)
    requires Chain(pieces, lo, hi)
    ensures TotalOf(pieces) == hi - lo
  {
    if pieces != [] { ChainTotal(pieces[1..], pieces[0].1, hi); }
  }

  /** Each offset inside a forward chain lies in exactly one piece, each other offset in none. */
  lemma {:induction false} ChainCount(pieces: seq<Piece>, lo: int, hi: int, x: int)
    requires Chain(pieces, lo, hi) && Forward(pieces)
    ensures CountIn(pieces, x) == if lo <= x < hi then 1 else 0
  {
    ChainBounds(pieces, lo, hi);
    if pieces != [] {
      ChainBounds(pieces[1..], pieces[0].1, hi);
      ChainCount(pieces[1..], pieces[0].1, hi, x);
    }
  }

  lemma {:induction false} NamedTotal(secs: seq<SliceSection>, name: string, filter: seq<string>)
    ensures SumNamed(secs, name, s => Length(s, filter)) == if name in filter then TotalOf(PiecesOf(secs, name)) else 0
  {
    if secs != [] {
      NamedTotal(secs[1..], name, filter);
      var here := if secs[0].secName == name then [(secs[0].start, secs[0].end)] else [];
      assert here != [] ==> (here + PiecesOf(secs[1..], name))[1..] == PiecesOf(secs[1..], name);
      assert here == [] ==> here + PiecesOf(secs[1..], name) == PiecesOf(secs[1..], name);
    }
  }

  lemma {:induction false} NamedCount(meta: seq<SectionInfo>, names: seq<string>, secs: seq<SliceSection>, name: string,
                                      idx: int, x: int)
    requires AllNamed(meta, names, secs) && HasSection(meta, name)
    ensures SumNamed(secs, name, s => Holds(s, idx, x))
         == if Info(meta, name).index == idx then CountIn(PiecesOf(secs, name), x) else 0
    decreases |secs|
  {
    if secs != [] {
      assert Named(meta, names, secs[0]);
      var rest := secs[1..];
      forall i | 0 <= i < |rest| ensures Named(meta, names, rest[i]) {
        assert rest[i] == secs[i + 1];
      }
      NamedCount(meta, names, secs[1..], name, idx, x);
      var here := if secs[0].secName == name then [(secs[0].start, secs[0].end)] else [];
      assert here != [] ==> (here + PiecesOf(secs[1..], name))[1..] == PiecesOf(secs[1..], name);
      assert here == [] ==> here + PiecesOf(secs[1..], name) == PiecesOf(secs[1..], name);
    }
  }

  // ----- sums over all sections -----

  function SizeSum(meta: seq<SectionInfo>, filter: seq<string>): nat {
    if meta == [] then 0
    else (if meta[0].name in filter then meta[0].size else 0) + SizeSum(meta[1..], filter)
  }

  predicate Covers(s: SectionInfo, idx: int, x: int) {
    s.index == idx && s.offset <= x < s.End()
  }

  /** How many sections of the file with this index cover the offset. */
  function Covering(meta: seq<SectionInfo>, idx: int, x: int): nat {
    if meta == [] then 0 else (if Covers(meta[0], idx, x) then 1 else 0) + Covering(meta[1..], idx, x)
  }

  lemma {:induction false} TotalFrom(meta: seq<SectionInfo>, slices: seq<SliceData>, filter: seq<string>, i: nat)
    requires DistinctNames(meta) && AllDistinctRanges(slices) && LoadSlices(meta, slices).Some? && i <= |meta|
    ensures SumOverNames(AllSections(LoadSlices(meta, slices).value), NonEmptyNames(meta[i..]), s => Length(s, filter))
         == SizeSum(meta[i..], filter)
    decreases |meta| - i
  {
    if i < |meta| {
      var secs := AllSections(LoadSlices(meta, slices).value);
      TotalFrom(meta, slices, filter, i + 1);
      assert meta[i..][0] == meta[i] && meta[i..][1..] == meta[i + 1..];
      if meta[i].size != 0 {
        SectionIsChain(meta, slices, i);
        ChainTotal(PiecesOf(secs, meta[i].name), meta[i].offset, meta[i].End());
        NamedTotal(secs, meta[i].name, filter);
        NamesStep(meta[i..], secs, s => Length(s, filter));
      } else {
        assert NonEmptyNames(meta[i..]) == NonEmptyNames(meta[i + 1..]);
      }
    }
  }

  lemma NamesStep(meta: seq<SectionInfo>, secs: seq<SliceSection>, weight: SliceSection -> int)
    requires meta != [] && meta[0].size != 0
    ensures SumOverNames(secs, NonEmptyNames(meta), weight)
         == SumNamed(secs, meta[0].name, weight) + SumOverNames(secs, NonEmptyNames(meta[1..]), weight)
  {
    var names := NonEmptyNames(meta);
    assert names[0] == meta[0].name && names[1..] == NonEmptyNames(meta[1..]);
  }

  predicate ForwardSections(meta: seq<SectionInfo>, slices: seq<SliceData>) {
    forall i :: 0 <= i < |meta| && meta[i].size != 0 ==> Ascends(slices, meta[i].name, meta[i].offset, meta[i].End())
  }

  lemma {:induction false} CountFrom(meta: seq<SectionInfo>, slices: seq<SliceData>, idx: int, x: int, i: nat)
    requires DistinctNames(meta) && AllDistinctRanges(slices) && LoadSlices(meta, slices).Some? && i <= |meta|
    requires ForwardSections(meta, slices)
    requires AllNamed(meta, NonEmptyNames(meta), AllSections(LoadSlices(meta, slices).value))
    ensures SumOverNames(AllSections(LoadSlices(meta, slices).value), NonEmptyNames(meta[i..]), s => Holds(s, idx, x))
         == Covering(meta[i..], idx, x)
    decreases |meta| - i
  {
    if i < |meta| {
      var secs := AllSections(LoadSlices(meta, slices).value);
      CountFrom(meta, slices, idx, x, i + 1);
      assert meta[i..][0] == meta[i] && meta[i..][1..] == meta[i + 1..];
      if meta[i].size != 0 {
        CountSection(meta, slices, secs, idx, x, i);
        NamesStep(meta[i..], secs, s => Holds(s, idx, x));
      } else {
        assert NonEmptyNames(meta[i..]) == NonEmptyNames(meta[i + 1..]);
      }
    }
  }

  lemma CountSection(meta: seq<SectionInfo>, slices: seq<SliceData>, secs: seq<SliceSection>, idx: int, x: int, i: nat)
    requires DistinctNames(meta) && AllDistinctRanges(slices) && LoadSlices(meta, slices).Some? && i < |meta|
    requires ForwardSections(meta, slices) && secs == AllSections(LoadSlices(meta, slices).value)
    requires AllNamed(meta, NonEmptyNames(meta), secs) && meta[i].size != 0
    ensures SumNamed(secs, meta[i].name, s => Holds(s, idx, x))
         == if meta[i].index == idx && meta[i].offset <= x < meta[i].End() then 1 else 0
  {
    SectionIsChain(meta, slices, i);
    ForwardIffAscending(meta, slices, i);
    ChainCount(PiecesOf(secs, meta[i].name), meta[i].offset, meta[i].End(), x);
    StartOf(meta, i);
    NamedCount(meta, NonEmptyNames(meta), secs, meta[i].name, idx, x);
  }

  lemma LoadedNamed(meta: seq<SectionInfo>, slices: seq<SliceData>)
    requires LoadSlices(meta, slices).Some?
    ensures AllNamed(meta, NonEmptyNames(meta), AllSections(LoadSlices(meta, slices).value))
  {
    NamesKnown(meta, meta);
    LoadNamed(meta, NonEmptyNames(meta), slices, StartPositions(meta), 0);
  }

  /** How many slice sections contain the offset. */
  function Times(secs: seq<SliceSection>, idx: int, x: int): nat {
    if secs == [] then 0 else (if secs[0].Contains(idx, x) then 1 else 0) + Times(secs[1..], idx, x)
  }

  lemma {:induction false} TimesIsSum(secs: seq<SliceSection>, idx: int, x: int)
    ensures Times(secs, idx, x) == Sum(secs, s => Holds(s, idx, x))
  {
    if secs != [] { TimesIsSum(secs[1..], idx, x); }
  }

  /** With ascending ranges an offset lies in exactly as many slice sections as sections of the file with that
      index cover it. */
  lemma ContainedOnce(meta: seq<SectionInfo>, slices: seq<SliceData>, idx: int, x: int)
    requires DistinctNames(meta) && AllDistinctRanges(slices) && LoadSlices(meta, slices).Some?
    requires ForwardSections(meta, slices)
    ensures Times(AllSections(LoadSlices(meta, slices).value), idx, x) == Covering(meta, idx, x)
  {
    var secs := AllSections(LoadSlices(meta, slices).value);
    LoadedNamed(meta, slices);
    NamesDistinct(meta);
    assert forall i :: 0 <= i < |secs| ==> Named(meta, NonEmptyNames(meta), secs[i]);
    TimesIsSum(secs, idx, x);
    SumByName(secs, NonEmptyNames(meta), s => Holds(s, idx, x));
    CountFrom(meta, slices, idx, x, 0);
    assert meta[0..] == meta;
  }

  predicate Overlap(a: SectionInfo, b: SectionInfo) {
    a.index == b.index && a.offset < b.End() && b.offset < a.End() && a.size != 0 && b.size != 0
  }

  /** No two sections with the same index cover a common offset. */
  predicate DisjointExtents(meta: seq<SectionInfo>) {
    forall i, j :: 0 <= i < j < |meta| ==> !Overlap(meta[i], meta[j])
  }

  lemma {:induction false} CoveringSome(meta: seq<SectionInfo>, i: nat, idx: int, x: int)
    requires i < |meta| && Covers(meta[i], idx, x)
    ensures Covering(meta, idx, x) >= 1
  {
    if i > 0 { CoveringSome(meta[1..], i - 1, idx, x); }
  }

  lemma {:induction false} CoveringTwo(meta: seq<SectionInfo>, i: nat, j: nat, idx: int, x: int)
    requires i < j < |meta| && Covers(meta[i], idx, x) && Covers(meta[j], idx, x)
    ensures Covering(meta, idx, x) >= 2
  {
    if i > 0 { CoveringTwo(meta[1..], i - 1, j - 1, idx, x); } else { CoveringSome(meta[1..], j - 1, idx, x); }
  }

  lemma {:induction false} CoveringOne(meta: seq<SectionInfo>, idx: int, x: int)
    requires DisjointExtents(meta)
    ensures Covering(meta, idx, x) <= 1
  {
    if meta != [] {
      var rest := meta[1..];
      CoveringOne(rest, idx, x);
      if Covers(meta[0], idx, x) {
        forall j | 0 <= j < |rest| ensures !Covers(rest[j], idx, x) {
          assert !Overlap(meta[0], meta[j + 1]);
        }
        CoveringNone(rest, idx, x);
      }
    }
  }

  lemma {:induction false} CoveringNone(meta: seq<SectionInfo>, idx: int, x: int)
    requires forall i :: 0 <= i < |meta| ==> !Covers(meta[i], idx, x)
    ensures Covering(meta, idx, x) == 0
  {
    if meta != [] { CoveringNone(meta[1..], idx, x); }
  }

  /** Every offset that a section covers lies in exactly one slice section, if and only if no two sections with the
      same index overlap. */
  lemma ContainedOnceIff(meta: seq<SectionInfo>, slices: seq<SliceData>)
    requires DistinctNames(meta) && AllDistinctRanges(slices) && LoadSlices(meta, slices).Some?
    requires ForwardSections(meta, slices)
    ensures (forall i, x :: 0 <= i < |meta| && Covers(meta[i], meta[i].index, x) ==>
               Times(AllSections(LoadSlices(meta, slices).value), meta[i].index, x) == 1)
       <==> DisjointExtents(meta)
  {
    var secs := AllSections(LoadSlices(meta, slices).value);
    if DisjointExtents(meta) {
      forall i, x | 0 <= i < |meta| && Covers(meta[i], meta[i].index, x)
        ensures Times(secs, meta[i].index, x) == 1
      {
        ContainedOnce(meta, slices, meta[i].index, x);
        CoveringSome(meta, i, meta[i].index, x);
        CoveringOne(meta, meta[i].index, x);
      }
    } else {
      var i, j :| 0 <= i < j < |meta| && Overlap(meta[i], meta[j]);
      var x := if meta[i].offset < meta[j].offset then meta[j].offset else meta[i].offset;
      assert Covers(meta[i], meta[i].index, x);
      ContainedOnce(meta, slices, meta[i].index, x);
      CoveringTwo(meta, i, j, meta[i].index, x);
    }
  }

  /** Sections that share index and offset, as .bss, .sbss and .sbss2 of slices/wiimj2d.json do: their first offset
      lies in three slice sections. */
  lemma SharedIndexExample(a: nat, b: nat, c: nat, slices: seq<SliceData>)
    requires a > 0 && b > 0 && c > 0
    ensures var meta := [SectionInfo(".bss", -1, 8, a, 0), SectionInfo(".sbss", -1, 8, b, 0),
                         SectionInfo(".sbss2", -1, 8, c, 0)];
            && !DisjointExtents(meta)
            && LoadSlices(meta, []).Some? && ForwardSections(meta, [])
            && (AllDistinctRanges(slices) && LoadSlices(meta, slices).Some? && ForwardSections(meta, slices) ==>
                  Times(AllSections(LoadSlices(meta, slices).value), -1, 0) == 3)
  {
    var meta := [SectionInfo(".bss", -1, 8, a, 0), SectionInfo(".sbss", -1, 8, b, 0),
                 SectionInfo(".sbss2", -1, 8, c, 0)];
    assert meta[1..][1..][1..] == [];
    assert Covering(meta[1..][1..], -1, 0) == 1;
    assert Covering(meta[1..], -1, 0) == 2;
    assert Overlap(meta[0], meta[1]);
    assert |".bss"| == 4 && |".sbss"| == 5 && |".sbss2"| == 6;
    if AllDistinctRanges(slices) && LoadSlices(meta, slices).Some? && ForwardSections(meta, slices) {
      ContainedOnce(meta, slices, -1, 0);
    }
  }

  // ----- progress -----

  predicate Compiled(s: Slice) {
    s.source != "" && !s.nonMatching
  }

  function CompiledSlices(slices: seq<Slice>): seq<Slice> {
    if slices == [] then []
    else (if Compiled(slices[0]) then [slices[0]] else []) + CompiledSlices(slices[1..])
  }

  function ByteCount(secs: seq<SliceSection>, filter: seq<string>): int {
    if secs == [] then 0 else Length(secs[0], filter) + ByteCount(secs[1..], filter)
  }

  lemma {:induction false} CountConcat(a: seq<SliceSection>, b: seq<SliceSection>, filter: seq<string>)
    ensures ByteCount(a + b, filter) == ByteCount(a, filter) + ByteCount(b, filter)
  {
    if a == [] {
      assert a + b == b;
    } else {
      assert (a + b)[0] == a[0] && (a + b)[1..] == a[1..] + b;
      CountConcat(a[1..], b, filter);
    }
  }

  /** `calculate_decompiled_bytes` */
  method CalculateDecompiledBytes(slices: seq<Slice>, filterSections: seq<string>) returns (compiled: int, total: int)
    ensures total == ByteCount(AllSections(slices), filterSections)
    ensures compiled == ByteCount(AllSections(CompiledSlices(slices)), filterSections)
  {
    compiled, total := 0, 0;
    assert slices[0..] == slices;
    for i := 0 to |slices|
      invariant total + ByteCount(AllSections(slices[i..]), filterSections)
             == ByteCount(AllSections(slices), filterSections)
      invariant compiled + ByteCount(AllSections(CompiledSlices(slices[i..])), filterSections)
             == ByteCount(AllSections(CompiledSlices(slices)), filterSections)
    {
      var slice := slices[i];
      ghost var total0, compiled0 := total, compiled;
      assert slice.secs[0..] == slice.secs;
      for j := 0 to |slice.secs|
        invariant total + ByteCount(slice.secs[j..], filterSections) == total0 + ByteCount(slice.secs, filterSections)
        invariant compiled + (if Compiled(slice) then ByteCount(slice.secs[j..], filterSections) else 0)
               == compiled0 + (if Compiled(slice) then ByteCount(slice.secs, filterSections) else 0)
      {
        var sec := slice.secs[j];
        assert slice.secs[j..][0] == sec && slice.secs[j..][1..] == slice.secs[j + 1..];
        if sec.secName in filterSections {
          var byteCount := sec.end - sec.start;
          total := total + byteCount;
          if slice.source != "" && !slice.nonMatching {
            compiled := compiled + byteCount;
          }
        }
      }
      CountStep(slices[i..], filterSections);
      assert slices[i..][0] == slice && slices[i..][1..] == slices[i + 1..];
    }
  }

  lemma CountStep(slices: seq<Slice>, filter: seq<string>)
    requires slices != []
    ensures ByteCount(AllSections(slices), filter)
         == ByteCount(slices[0].secs, filter) + ByteCount(AllSections(slices[1..]), filter)
    ensures ByteCount(AllSections(CompiledSlices(slices)), filter)
         == (if Compiled(slices[0]) then ByteCount(slices[0].secs, filter) else 0)
            + ByteCount(AllSections(CompiledSlices(slices[1..])), filter)
  {
    CountConcat(slices[0].secs, AllSections(slices[1..]), filter);
    CountConcat(slices[0].secs, AllSections(CompiledSlices(slices[1..])), filter);
    if Compiled(slices[0]) {
      assert CompiledSlices(slices)[0] == slices[0] && CompiledSlices(slices)[1..] == CompiledSlices(slices[1..]);
    } else {
      assert CompiledSlices(slices) == CompiledSlices(slices[1..]);
    }
  }

  lemma {:induction false} CountIsSum(secs: seq<SliceSection>, filter: seq<string>)
    ensures ByteCount(secs, filter) == Sum(secs, s => Length(s, filter))
  {
    if secs != [] { CountIsSum(secs[1..], filter); }
  }

  /** The bytes counted in total are the sizes of the counted sections, whatever ranges the slices have. */
  lemma TotalIsSize(meta: seq<SectionInfo>, slices: seq<SliceData>, filter: seq<string>)
    requires DistinctNames(meta) && AllDistinctRanges(slices) && LoadSlices(meta, slices).Some?
    ensures ByteCount(AllSections(LoadSlices(meta, slices).value), filter) == SizeSum(meta, filter)
  {
    var secs := AllSections(LoadSlices(meta, slices).value);
    LoadedNamed(meta, slices);
    NamesDistinct(meta);
    assert forall i :: 0 <= i < |secs| ==> Named(meta, NonEmptyNames(meta), secs[i]);
    CountIsSum(secs, filter);
    SumByName(secs, NonEmptyNames(meta), s => Length(s, filter));
    TotalFrom(meta, slices, filter, 0);
    assert meta[0..] == meta;
  }

  predicate ForwardAll(secs: seq<SliceSection>) {
    forall i :: 0 <= i < |secs| ==> secs[i].start <= secs[i].end
  }

  lemma {:induction false} ForwardPieces(secs: seq<SliceSection>, i: nat)
    requires i < |secs| && Forward(PiecesOf(secs, secs[i].secName))
    ensures secs[i].start <= secs[i].end
    decreases |secs|
  {
    var name := secs[i].secName;
    var here := if secs[0].secName == name then [(secs[0].start, secs[0].end)] else [];
    var rest := PiecesOf(secs[1..], name);
    ForwardConcat(here, rest);
    if i > 0 { ForwardPieces(secs[1..], i - 1); } else { assert here[0] == (secs[0].start, secs[0].end); }
  }

  lemma LoadedForward(meta: seq<SectionInfo>, slices: seq<SliceData>)
    requires DistinctNames(meta) && AllDistinctRanges(slices) && LoadSlices(meta, slices).Some?
    requires ForwardSections(meta, slices)
    ensures ForwardAll(AllSections(LoadSlices(meta, slices).value))
  {
    var secs := AllSections(LoadSlices(meta, slices).value);
    LoadedNamed(meta, slices);
    forall i | 0 <= i < |secs| ensures secs[i].start <= secs[i].end {
      assert Named(meta, NonEmptyNames(meta), secs[i]);
      var j := NameFrom(meta, secs[i].secName);
      ForwardIffAscending(meta, slices, j);
      ForwardPieces(secs, i);
    }
  }

  lemma {:induction false} CompiledBounded(slices: seq<Slice>, filter: seq<string>)
    requires ForwardAll(AllSections(slices))
    ensures 0 <= ByteCount(AllSections(CompiledSlices(slices)), filter) <= ByteCount(AllSections(slices), filter)
  {
    if slices != [] {
      var a, b := slices[0].secs, AllSections(slices[1..]);
      assert forall i :: 0 <= i < |a| ==> (a + b)[i] == a[i];
      assert forall i :: 0 <= i < |b| ==> (a + b)[|a| + i] == b[i];
      CountStep(slices, filter);
      BytesNonNegative(a, filter);
      CompiledBounded(slices[1..], filter);
    }
  }

  lemma {:induction false} BytesNonNegative(secs: seq<SliceSection>, filter: seq<string>)
    requires ForwardAll(secs)
    ensures 0 <= ByteCount(secs, filter)
  {
    if secs != [] {
      assert forall i :: 0 <= i < |secs[1..]| ==> secs[1..][i] == secs[i + 1];
      BytesNonNegative(secs[1..], filter);
    }
  }

  /** With ascending ranges the compiled bytes never exceed the total, which is the size of the sections. */
  lemma ProgressBounded(meta: seq<SectionInfo>, slices: seq<SliceData>, filter: seq<string>)
    requires DistinctNames(meta) && AllDistinctRanges(slices) && LoadSlices(meta, slices).Some?
    requires ForwardSections(meta, slices)
    ensures 0 <= ByteCount(AllSections(CompiledSlices(LoadSlices(meta, slices).value)), filter) <= SizeSum(meta, filter)
  {
    LoadedForward(meta, slices);
    TotalIsSize(meta, slices, filter);
    CompiledBounded(LoadSlices(meta, slices).value, filter);
  }
}
