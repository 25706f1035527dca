/** What is in a loaded slice file, stated on the input: the given slices with their ranges, fillers without a source
    between them, how many bytes count as compiled, and which slices are extracted. */
module SliceLoaded {
  import opened SlicePartition
  import opened SliceSums
  import opened Slices
  import opened Wrappers

  // ----- the loaded slices -----

  /** The slice section is in the section of the file with that name. */
  predicate SectionIn(info: SectionInfo, s: SliceSection) {
    s.secName == info.name && s.secIdx == info.index && s.alignment == info.alignment
  }

  /** The slice section for a range: as long as the range, in the section that it names. */
  predicate RangeSection(meta: seq<SectionInfo>, r: Range, s: SliceSection) {
    s.secName == r.section && s.start == r.begin && s.end == r.end && exists info :: info in meta && SectionIn(info, s)
  }

  /** The slice that is loaded for an input slice. */
  predicate IsObject(meta: seq<SectionInfo>, d: SliceData, s: Slice) {
    && s.name == Object(d.source) && s.source == d.source && s.nonMatching == d.nonMatching
    && |s.secs| == |d.ranges| && forall i :: 0 <= i < |s.secs| ==> RangeSection(meta, d.ranges[i], s.secs[i])
  }

  /** Parts of some sections of the file, none empty or before its beginning, in the order of the file. */
  predicate InOrder(meta: seq<SectionInfo>, secs: seq<SliceSection>)
    decreases |meta|
  {
    if secs == [] then true
    else if meta == [] then false
    else if SectionIn(meta[0], secs[0]) then
      Nonnegative(secs[0]) && secs[0].start != secs[0].end && InOrder(meta[1..], secs[1..])
    else InOrder(meta[1..], secs)
  }

  /** A filler: no source, something to fill, and the next number. */
  predicate IsFiller(meta: seq<SectionInfo>, s: Slice, number: nat) {
    s.name == Filler(number) && s.source == "" && !s.nonMatching && s.secs != [] && InOrder(meta, s.secs)
  }

  /** The loaded list holds the input slices in order; between them, before and behind there is at most one filler. */
  predicate Holds(meta: seq<SectionInfo>, data: seq<SliceData>, loaded: seq<Slice>, number: nat)
    decreases |loaded|
  {
    if loaded == [] then data == []
    else if loaded[0].name.Filler? then
      && IsFiller(meta, loaded[0], number) && (|loaded| > 1 ==> loaded[1].name.Object?)
      && Holds(meta, data, loaded[1..], number + 1)
    else data != [] && IsObject(meta, data[0], loaded[0]) && Holds(meta, data[1..], loaded[1..], number)
  }

  // ----- the loader makes such a list -----

  lemma {:induction false} RangesLoaded(meta: seq<SectionInfo>, ranges: seq<Range>, c: Cursor)
    requires ParseRanges(meta, ranges, c).Some?
    ensures var secs := ParseRanges(meta, ranges, c).value.0;
            |secs| == |ranges| && forall i :: 0 <= i < |secs| ==> RangeSection(meta, ranges[i], secs[i])
    decreases |ranges|
  {
    if ranges != [] {
      var r := ranges[0];
      var c' := Cursor(c.curr[r.section := r.end], c.filler[r.section := (c.curr[r.section], r.begin)]);
      RangesLoaded(meta, ranges[1..], c');
      var secs := ParseRanges(meta, ranges, c).value.0;
      assert secs[1..] == ParseRanges(meta, ranges[1..], c').value.0;
      assert SectionIn(Info(meta, r.section), secs[0]);
      forall i | 0 <= i < |secs| ensures RangeSection(meta, ranges[i], secs[i]) {
        if i > 0 { assert RangeSection(meta, ranges[1..][i - 1], secs[1..][i - 1]); }
      }
    }
  }

  lemma {:induction false} FillerInOrder(all: seq<SectionInfo>, k: nat, filler: map<string, (nat, nat)>,
                                         secs: seq<SliceSection>)
    requires DistinctNames(all) && k <= |all|
    requires forall n :: n in NonEmptyNames(all[k..]) ==> n in filler && HasSection(all, n)
    requires secs == FillerSections(all, NonEmptyNames(all[k..]), filler)
    ensures InOrder(all[k..], secs)
    decreases |all| - k
  {
    if k < |all| {
      var here, rest := FillerUnfold(all, k, filler);
      FillerInOrder(all, k + 1, filler, rest);
      if here == [] {
        assert secs == rest;
        LaterOrder(all, k, rest);
      } else {
        assert secs[0] == here[0] && secs[1..] == rest;
        FirstInOrder(all, k, secs, rest);
      }
    }
  }

  lemma TailFrom(all: seq<SectionInfo>, k: nat)
    requires k < |all|
    ensures all[k..][0] == all[k] && all[k..][1..] == all[k + 1..]
  {
  }

  /** What section `k` adds to a filler, and the rest. */
  lemma FillerUnfold(all: seq<SectionInfo>, k: nat, filler: map<string, (nat, nat)>)
    returns (here: seq<SliceSection>, rest: seq<SliceSection>)
    requires DistinctNames(all) && k < |all|
    requires forall n :: n in NonEmptyNames(all[k..]) ==> n in filler && HasSection(all, n)
    ensures forall n :: n in NonEmptyNames(all[k + 1..]) ==> n in filler && HasSection(all, n)
    ensures rest == FillerSections(all, NonEmptyNames(all[k + 1..]), filler)
    ensures FillerSections(all, NonEmptyNames(all[k..]), filler) == here + rest
    ensures here == []
            || (|here| == 1 && SectionIn(all[k], here[0]) && Nonnegative(here[0]) && here[0].start != here[0].end)
  {
    TailFrom(all, k);
    var names, later := NonEmptyNames(all[k..]), NonEmptyNames(all[k + 1..]);
    if all[k].size == 0 {
      assert names == later;
      rest := FillerSections(all, later, filler);
      here := [];
    } else {
      StartOf(all, k);
      assert names[0] == all[k].name && names[1..] == later;
      FillerStep(all, names, filler);
      rest := FillerSections(all, later, filler);
      var n := all[k].name;
      here := if filler[n].0 == filler[n].1 then []
              else [SliceSection(n, Info(all, n).index, filler[n].0, filler[n].1, Info(all, n).alignment)];
    }
  }

  lemma FirstInOrder(all: seq<SectionInfo>, k: nat, secs: seq<SliceSection>, rest: seq<SliceSection>)
    requires k < |all| && secs != [] && secs[1..] == rest && InOrder(all[k + 1..], rest)
    requires SectionIn(all[k], secs[0]) && Nonnegative(secs[0]) && secs[0].start != secs[0].end
    ensures InOrder(all[k..], secs)
  {
    TailFrom(all, k);
  }

  /** The sections of a later part of the file are none of the ones before. */
  lemma LaterOrder(all: seq<SectionInfo>, k: nat, secs: seq<SliceSection>)
    requires DistinctNames(all) && k < |all| && InOrder(all[k + 1..], secs)
    ensures InOrder(all[k..], secs)
  {
    TailFrom(all, k);
    if secs != [] {
      var j := FirstSection(all[k + 1..], secs);
      assert all[k + 1..][j] == all[k + 1 + j];
    }
  }

  lemma {:induction false} FirstSection(meta: seq<SectionInfo>, secs: seq<SliceSection>) returns (j: nat)
    requires InOrder(meta, secs) && secs != []
    ensures j < |meta| && SectionIn(meta[j], secs[0])
    decreases |meta|
  {
    if SectionIn(meta[0], secs[0]) {
      j := 0;
    } else {
      j := FirstSection(meta[1..], secs);
      j := j + 1;
    }
  }

  lemma ObjectLoaded(meta: seq<SectionInfo>, d: SliceData, c: Cursor, secs: seq<SliceSection>, end: Cursor)
    requires ParseRanges(meta, d.ranges, c) == Some((secs, end))
    ensures IsObject(meta, d, Slice(Object(d.source), d.source, secs, d.nonMatching))
  {
    RangesLoaded(meta, d.ranges, c);
  }

  lemma FillerLoaded(meta: seq<SectionInfo>, filler: map<string, (nat, nat)>, number: nat)
    requires DistinctNames(meta)
    requires forall n :: n in NonEmptyNames(meta) ==> n in filler && HasSection(meta, n)
    ensures var f := FillerSlice(FillerSections(meta, NonEmptyNames(meta), filler), number);
            f == [] || (|f| == 1 && IsFiller(meta, f[0], number))
  {
    assert meta[0..] == meta;
    FillerInOrder(meta, 0, filler, FillerSections(meta, NonEmptyNames(meta), filler));
  }

  lemma {:induction false} HoldsNext(meta: seq<SectionInfo>, data: seq<SliceData>, filler: seq<Slice>, s: Slice,
                                     rest: seq<Slice>, number: nat)
    requires data != [] && IsObject(meta, data[0], s) && Holds(meta, data[1..], rest, number + |filler|)
    requires filler == [] || (|filler| == 1 && IsFiller(meta, filler[0], number))
    ensures Holds(meta, data, filler + [s] + rest, number)
  {
    var tail := [s] + rest;
    assert tail[0] == s && tail[1..] == rest && Holds(meta, data, tail, number + |filler|);
    if filler == [] {
      assert filler + [s] + rest == tail;
    } else {
      var all := filler + [s] + rest;
      assert all[0] == filler[0] && all[1..] == tail;
    }
  }

  lemma {:induction false} LoadHolds(meta: seq<SectionInfo>, slices: seq<SliceData>, curr: map<string, nat>,
                                     number: nat)
    requires DistinctNames(meta) && KnownNames(meta, NonEmptyNames(meta), curr)
    requires LoadFrom(meta, NonEmptyNames(meta), slices, curr, number).Some?
    ensures Holds(meta, slices, LoadFrom(meta, NonEmptyNames(meta), slices, curr, number).value, number)
    decreases |slices|
  {
    var names := NonEmptyNames(meta);
    if slices == [] {
      FillerLoaded(meta, LastRanges(meta, names, curr), number);
    } else {
      var c := Cursor(curr, ZeroRanges(names));
      var secs, end := RangesParsed(meta, names, slices, curr, number, c);
      var filler := FillerSlice(FillerSections(meta, names, end.filler), number);
      var rest := LoadedFirst(meta, names, slices, curr, number, secs, end, filler);
      ObjectLoaded(meta, slices[0], c, secs, end);
      FillerLoaded(meta, end.filler, number);
      LoadHolds(meta, slices[1..], end.curr, number + |filler|);
      HoldsNext(meta, slices, filler, Slice(Object(slices[0].source), slices[0].source, secs, slices[0].nonMatching),
                rest, number);
    }
  }

  /** A loaded file holds the input slices and fillers, numbered from 0. */
  lemma LoadedHolds(meta: seq<SectionInfo>, slices: seq<SliceData>)
    requires DistinctNames(meta) && LoadSlices(meta, slices).Some?
    ensures Holds(meta, slices, LoadSlices(meta, slices).value, 0)
  {
    NamesKnown(meta, meta);
    LoadHolds(meta, slices, StartPositions(meta), 0);
  }

  // ----- when loading succeeds -----

  /** The range is in a section of the file that is not empty. */
  predicate Loadable(meta: seq<SectionInfo>, r: Range) {
    exists info :: info in meta && info.name == r.section && info.size != 0
  }

  predicate AllLoadable(meta: seq<SectionInfo>, slices: seq<SliceData>) {
    forall i, j :: 0 <= i < |slices| && 0 <= j < |slices[i].ranges| ==> Loadable(meta, slices[i].ranges[j])
  }

  lemma {:induction false} LoadableNamed(meta: seq<SectionInfo>, r: Range)
    ensures Loadable(meta, r) <==> r.section in NonEmptyNames(meta)
  {
    if meta != [] {
      LoadableNamed(meta[1..], r);
      if Loadable(meta, r) {
        var info :| info in meta && info.name == r.section && info.size != 0;
        assert info == meta[0] || info in meta[1..];
      }
    }
  }

  lemma {:induction false} RangesLoadable(meta: seq<SectionInfo>, ranges: seq<Range>, c: Cursor)
    requires c.filler.Keys == c.curr.Keys && KnownNames(meta, NonEmptyNames(meta), c.curr)
    ensures ParseRanges(meta, ranges, c).Some? <==> forall j :: 0 <= j < |ranges| ==> Loadable(meta, ranges[j])
    decreases |ranges|
  {
    if ranges != [] {
      var r, rest := ranges[0], ranges[1..];
      LoadableNamed(meta, r);
      if r.section in c.curr {
        var c' := Cursor(c.curr[r.section := r.end], c.filler[r.section := (c.curr[r.section], r.begin)]);
        assert c'.curr.Keys == c.curr.Keys && c'.filler.Keys == c.curr.Keys;
        RangesLoadable(meta, rest, c');
        assert forall j :: 0 <= j < |rest| ==> rest[j] == ranges[j + 1];
        assert forall j :: 1 <= j < |ranges| ==> ranges[j] == rest[j - 1];
      }
    }
  }

  lemma {:induction false} LoadsIff(meta: seq<SectionInfo>, slices: seq<SliceData>, curr: map<string, nat>, number: nat)
    requires KnownNames(meta, NonEmptyNames(meta), curr)
    ensures LoadFrom(meta, NonEmptyNames(meta), slices, curr, number).Some? <==> AllLoadable(meta, slices)
    decreases |slices|
  {
    if slices != [] {
      var c := Cursor(curr, ZeroRanges(NonEmptyNames(meta)));
      assert c.filler.Keys == curr.Keys;
      RangesLoadable(meta, slices[0].ranges, c);
      LoadableRest(meta, slices);
      if ParseRanges(meta, slices[0].ranges, c).Some? {
        var next, number' := LoadsOn(meta, slices, curr, number, c);
        LoadsIff(meta, slices[1..], next, number');
      }
    }
  }

  /** Behind a slice that can be parsed, loading goes on with the rest. */
  lemma LoadsOn(meta: seq<SectionInfo>, slices: seq<SliceData>, curr: map<string, nat>, number: nat, c: Cursor)
    returns (next: map<string, nat>, number': nat)
    requires KnownNames(meta, NonEmptyNames(meta), curr) && slices != []
    requires c == Cursor(curr, ZeroRanges(NonEmptyNames(meta)))
    requires c.filler.Keys == curr.Keys && ParseRanges(meta, slices[0].ranges, c).Some?
    ensures KnownNames(meta, NonEmptyNames(meta), next)
    ensures LoadFrom(meta, NonEmptyNames(meta), slices, curr, number).Some?
       <==> LoadFrom(meta, NonEmptyNames(meta), slices[1..], next, number').Some?
  {
    var names := NonEmptyNames(meta);
    var (secs, end) := ParseRanges(meta, slices[0].ranges, c).value;
    RangesKeepNames(meta, names, slices[0].ranges, curr, secs, end);
    number' := BehindFiller(meta, names, slices, curr, number, secs, end);
    next := end.curr;
  }

  lemma BehindFiller(meta: seq<SectionInfo>, names: seq<string>, slices: seq<SliceData>, curr: map<string, nat>,
                     number: nat, secs: seq<SliceSection>, end: Cursor) returns (number': nat)
    requires KnownNames(meta, names, curr) && slices != [] && ZeroRanges(names).Keys == curr.Keys
    requires ParseRanges(meta, slices[0].ranges, Cursor(curr, ZeroRanges(names))) == Some((secs, end))
    requires KnownNames(meta, names, end.curr) && end.filler.Keys == end.curr.Keys
    ensures LoadFrom(meta, names, slices, curr, number).Some?
       <==> LoadFrom(meta, names, slices[1..], end.curr, number').Some?
  {
    var filler := FillerSlice(FillerSections(meta, names, end.filler), number);
    number' := number + |filler|;
    GoesOn(meta, names, slices, curr, number, secs, end, filler, number');
  }

  lemma GoesOn(meta: seq<SectionInfo>, names: seq<string>, slices: seq<SliceData>, curr: map<string, nat>, number: nat,
               secs: seq<SliceSection>, end: Cursor, filler: seq<Slice>, number': nat)
    requires KnownNames(meta, names, curr) && slices != [] && ZeroRanges(names).Keys == curr.Keys
    requires ParseRanges(meta, slices[0].ranges, Cursor(curr, ZeroRanges(names))) == Some((secs, end))
    requires KnownNames(meta, names, end.curr) && end.filler.Keys == end.curr.Keys
    requires filler == FillerSlice(FillerSections(meta, names, end.filler), number) && number' == number + |filler|
    ensures LoadFrom(meta, names, slices, curr, number).Some?
       <==> LoadFrom(meta, names, slices[1..], end.curr, number').Some?
  {
  }

  lemma LoadableRest(meta: seq<SectionInfo>, slices: seq<SliceData>)
    requires slices != []
    ensures AllLoadable(meta, slices)
       <==> (forall j :: 0 <= j < |slices[0].ranges| ==> Loadable(meta, slices[0].ranges[j]))
            && AllLoadable(meta, slices[1..])
  {
    var rest := slices[1..];
    assert forall i :: 0 <= i < |rest| ==> rest[i] == slices[i + 1];
    assert forall i :: 1 <= i < |slices| ==> slices[i] == rest[i - 1];
  }

  /** A slice file is loaded exactly when all its ranges are in sections that are not empty. */
  lemma LoadSucceeds(meta: seq<SectionInfo>, slices: seq<SliceData>)
    ensures LoadSlices(meta, slices).Some? <==> AllLoadable(meta, slices)
  {
    NamesKnown(meta, meta);
    LoadsIff(meta, slices, StartPositions(meta), 0);
  }

  // ----- what counts as compiled -----

  /** The lengths of the ranges in the sections asked for. */
  function RangeBytes(ranges: seq<Range>, filter: seq<string>): int {
    if ranges == [] then 0
    else (if ranges[0].section in filter then ranges[0].end - ranges[0].begin else 0) + RangeBytes(ranges[1..], filter)
  }

  /** The same over the slices that have a source and match. */
  function CompiledBytes(slices: seq<SliceData>, filter: seq<string>): int {
    if slices == [] then 0
    else
      (if slices[0].source != "" && !slices[0].nonMatching then RangeBytes(slices[0].ranges, filter) else 0)
        + CompiledBytes(slices[1..], filter)
  }

  lemma {:induction false} BytesOfRanges(meta: seq<SectionInfo>, ranges: seq<Range>, secs: seq<SliceSection>,
                                         filter: seq<string>)
    requires |secs| == |ranges| && forall i :: 0 <= i < |secs| ==> RangeSection(meta, ranges[i], secs[i])
    ensures ByteCount(secs, filter) == RangeBytes(ranges, filter)
  {
    if secs != [] {
      forall i | 0 <= i < |secs[1..]| ensures RangeSection(meta, ranges[1..][i], secs[1..][i]) {
        assert RangeSection(meta, ranges[i + 1], secs[i + 1]);
      }
      BytesOfRanges(meta, ranges[1..], secs[1..], filter);
      assert RangeSection(meta, ranges[0], secs[0]);
    }
  }

  lemma {:induction false} CompiledOfHeld(meta: seq<SectionInfo>, data: seq<SliceData>, loaded: seq<Slice>, number: nat,
                                          filter: seq<string>)
    requires Holds(meta, data, loaded, number)
    ensures ByteCount(AllSections(CompiledSlices(loaded)), filter) == CompiledBytes(data, filter)
    decreases |loaded|
  {
    if loaded != [] {
      CountStep(loaded, filter);
      if loaded[0].name.Filler? {
        CompiledOfHeld(meta, data, loaded[1..], number + 1, filter);
      } else {
        BytesOfRanges(meta, data[0].ranges, loaded[0].secs, filter);
        CompiledOfHeld(meta, data[1..], loaded[1..], number, filter);
      }
    }
  }

  /** Loading a file and counting: the compiled bytes are those of the input slices that have a source and match, and
      the total is the size of the sections; a range outside of them stops the loading. */
  method CountFile(meta: seq<SectionInfo>, slices: seq<SliceData>, filter: seq<string>)
    returns (counts: Option<(int, int)>)
    requires DistinctNames(meta) && AllDistinctRanges(slices)
    ensures counts.Some? <==> AllLoadable(meta, slices)
    ensures counts.Some? ==> counts.value == (CompiledBytes(slices, filter), SizeSum(meta, filter))
  {
    LoadSucceeds(meta, slices);
    var parsed := LoadSliceFile(meta, slices);
    if parsed.None? {
      return None;
    }
    LoadedHolds(meta, slices);
    CompiledOfHeld(meta, slices, parsed.value, 0, filter);
    TotalIsSize(meta, slices, filter);
    var compiled, total := CalculateDecompiledBytes(parsed.value, filter);
    return Some((compiled, total));
  }

  // ----- which slices are extracted -----

  /** The test of `slice_rel`. */
  predicate Extracted(s: Slice) {
    s.source == "" || s.nonMatching
  }

  /** How many of the loaded slices before number `i` are not fillers. */
  function ObjectsBefore(loaded: seq<Slice>, i: nat): (n: nat)
    requires i <= |loaded|
    ensures n <= i
  {
    if i == 0 then 0 else ObjectsBefore(loaded, i - 1) + if loaded[i - 1].name.Object? then 1 else 0
  }

  lemma {:induction false} ObjectsTail(loaded: seq<Slice>, i: nat)
    requires 1 <= i <= |loaded|
    ensures ObjectsBefore(loaded, i) == (if loaded[0].name.Object? then 1 else 0) + ObjectsBefore(loaded[1..], i - 1)
  {
    if i > 1 { ObjectsTail(loaded, i - 1); }
  }

  lemma {:induction false} HeldAt(meta: seq<SectionInfo>, data: seq<SliceData>, loaded: seq<Slice>, number: nat, i: nat)
    requires Holds(meta, data, loaded, number) && i < |loaded|
    ensures loaded[i].name.Filler? ==> IsFiller(meta, loaded[i], number + i - ObjectsBefore(loaded, i))
    ensures loaded[i].name.Object? ==>
              ObjectsBefore(loaded, i) < |data| && IsObject(meta, data[ObjectsBefore(loaded, i)], loaded[i])
    decreases |loaded|
  {
    if i > 0 {
      ObjectsTail(loaded, i);
      if loaded[0].name.Filler? {
        HeldAt(meta, data, loaded[1..], number + 1, i - 1);
      } else {
        HeldAt(meta, data[1..], loaded[1..], number, i - 1);
      }
    }
  }

  /** Of a loaded file every filler is extracted, and of the input slices those without a source and those that do not
      match; what is not extracted counts as compiled. */
  lemma ExtractedOfLoaded(meta: seq<SectionInfo>, slices: seq<SliceData>, i: nat)
    requires DistinctNames(meta) && LoadSlices(meta, slices).Some? && i < |LoadSlices(meta, slices).value|
    ensures var loaded := LoadSlices(meta, slices).value;
            var k := ObjectsBefore(loaded, i);
            && (Compiled(loaded[i]) <==> !Extracted(loaded[i])) && (loaded[i].name.Filler? ==> Extracted(loaded[i]))
            && (loaded[i].name.Object? ==>
                  && k < |slices| && IsObject(meta, slices[k], loaded[i])
                  && (Extracted(loaded[i]) <==> slices[k].source == "" || slices[k].nonMatching))
  {
    LoadedHolds(meta, slices);
    HeldAt(meta, slices, LoadSlices(meta, slices).value, 0, i);
  }

  lemma {:induction false} FillerPlaced(meta: seq<SectionInfo>, secs: seq<SliceSection>, i: nat)
    requires InOrder(meta, secs) && i < |secs|
    ensures Nonnegative(secs[i])
    decreases |meta|
  {
    if SectionIn(meta[0], secs[0]) {
      if i > 0 { FillerPlaced(meta[1..], secs[1..], i - 1); }
    } else {
      FillerPlaced(meta[1..], secs, i);
    }
  }

  /** No section of a loaded slice lies before the beginning of its section in the file. */
  lemma LoadedPlaced(meta: seq<SectionInfo>, slices: seq<SliceData>, n: nat, i: nat)
    requires DistinctNames(meta) && LoadSlices(meta, slices).Some? && n < |LoadSlices(meta, slices).value|
    requires i < |LoadSlices(meta, slices).value[n].secs|
    ensures Nonnegative(LoadSlices(meta, slices).value[n].secs[i])
  {
    var s := LoadSlices(meta, slices).value[n];
    LoadedHolds(meta, slices);
    HeldAt(meta, slices, LoadSlices(meta, slices).value, 0, n);
    if s.name.Filler? {
      FillerPlaced(meta, s.secs, i);
    } else {
      var k := ObjectsBefore(LoadSlices(meta, slices).value, n);
      assert RangeSection(meta, slices[k].ranges[i], s.secs[i]);
    }
  }
}
