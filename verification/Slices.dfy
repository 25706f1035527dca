/** Slice files: dividing the sections of a binary among source files and fillers (tools/slicelib.py), the
    bytes extracted for the slices, and the progress counters (progress.py). */
module Slices {
  import opened Wrappers

  /** class SliceSectionInfo, with the name it has in the file's dictionary. */
  datatype SectionInfo = SectionInfo(name: string, index: int, alignment: int, size: nat, offset: nat) {
    function End(): nat {
      size + offset
    }
  }

  /** A memory range of a slice, an item of `SliceData.memoryRanges`. */
  datatype Range = Range(section: string, begin: nat, end: nat)

  /** class SliceData */
  datatype SliceData = SliceData(source: string, ranges: seq<Range>, nonMatching: bool)

  /** class SliceSection */
  datatype SliceSection = SliceSection(secName: string, secIdx: int, start: int, end: int, alignment: int) {
    /** `contains` */
    predicate Contains(section: int, addend: int) {
      section == secIdx && start <= addend < end
    }
  }

  /** The slice section does not lie before the beginning of its section. */
  predicate Nonnegative(s: SliceSection) {
    s.start >= 0 && s.end >= 0
  }

  datatype SliceName = Object(source: string) | Filler(index: nat)

  /** class Slice; a filler has no source. */
  datatype Slice = Slice(name: SliceName, source: string, secs: seq<SliceSection>, nonMatching: bool)

  // ----- the dictionary of sections -----

  predicate HasSection(meta: seq<SectionInfo>, name: string) {
    meta != [] && (meta[0].name == name || HasSection(meta[1..], name))
  }

  function Info(meta: seq<SectionInfo>, name: string): (r: SectionInfo)
    requires HasSection(meta, name)
    ensures r.name == name && r in meta
  {
    if meta[0].name == name then meta[0] else Info(meta[1..], name)
  }

  predicate DistinctNames(meta: seq<SectionInfo>) {
    forall i, j :: 0 <= i < j < |meta| ==> meta[i].name != meta[j].name
  }

  predicate DistinctRanges(ranges: seq<Range>) {
    forall i, j :: 0 <= i < j < |ranges| ==> ranges[i].section != ranges[j].section
  }

  /** The keys of `curr_sec_positions`, in the order of the dictionary. */
  function NonEmptyNames(meta: seq<SectionInfo>): seq<string> {
    if meta == [] then []
    else (if meta[0].size != 0 then [meta[0].name] else []) + NonEmptyNames(meta[1..])
  }

  function StartPositions(meta: seq<SectionInfo>): map<string, nat> {
    if meta == [] then map[]
    else
      var rest := StartPositions(meta[1..]);
      if meta[0].size != 0 then rest[meta[0].name := meta[0].offset] else rest
  }

  // ----- what the loader computes -----

  /** Where the loader stands: the position reached in every section, and the ranges of the next filler. */
  datatype Cursor = Cursor(curr: map<string, nat>, filler: map<string, (nat, nat)>)

  /** The sections of a slice, with the cursor behind them; `None` for an unknown or empty section. */
  function ParseRanges(meta: seq<SectionInfo>, ranges: seq<Range>, c: Cursor): Option<(seq<SliceSection>, Cursor)> {
    if ranges == [] then Some(([], c))
    else
      var r := ranges[0];
      if !HasSection(meta, r.section) || r.section !in c.curr then None
      else
        var info := Info(meta, r.section);
        var c' := Cursor(c.curr[r.section := r.end], c.filler[r.section := (c.curr[r.section], r.begin)]);
        match ParseRanges(meta, ranges[1..], c')
        case None => None
        case Some((secs, end)) =>
          Some(([SliceSection(r.section, info.index, r.begin, r.end, info.alignment)] + secs, end))
  }

  /** `make_filler_slice`, the sections of the filler. */
  function FillerSections(meta: seq<SectionInfo>, names: seq<string>, filler: map<string, (nat, nat)>)
    : seq<SliceSection>
    requires forall n :: n in names ==> n in filler && HasSection(meta, n)
  {
    if names == [] then []
    else
      var n := names[0];
      var (start, end) := filler[n];
      (if start == end then []
       else [SliceSection(n, Info(meta, n).index, start, end, Info(meta, n).alignment)])
        + FillerSections(meta, names[1..], filler)
  }

  function FillerSlice(secs: seq<SliceSection>, idx: nat): seq<Slice> {
    if secs == [] then [] else [Slice(Filler(idx), "", secs, false)]
  }

  function ZeroRanges(names: seq<string>): (r: map<string, (nat, nat)>)
    ensures forall n :: n in r <==> n in names
    ensures forall n :: n in r ==> r[n] == (0, 0)
  {
    map n | n in names :: (0, 0)
  }

  /** The filler behind the last slice, up to the end of every section. */
  function LastRanges(meta: seq<SectionInfo>, names: seq<string>, curr: map<string, nat>): (r: map<string, (nat, nat)>)
    requires forall n :: n in names ==> n in curr && HasSection(meta, n)
    ensures forall n :: n in r <==> n in names
    ensures forall n :: n in r ==> r[n] == (curr[n], Info(meta, n).End())
  {
    map n | n in names :: (curr[n], Info(meta, n).End())
  }

  ghost predicate KnownNames(meta: seq<SectionInfo>, names: seq<string>, curr: map<string, nat>) {
    (forall n :: n in names <==> n in curr) && forall n :: n in names ==> HasSection(meta, n)
  }

  lemma {:induction false} ParseRangesKeys(meta: seq<SectionInfo>, ranges: seq<Range>, c: Cursor)
    requires c.filler.Keys == c.curr.Keys
    ensures ParseRanges(meta, ranges, c).Some? ==>
              var end := ParseRanges(meta, ranges, c).value.1;
              end.curr.Keys == c.curr.Keys && end.filler.Keys == c.curr.Keys
  {
    if ranges != [] {
      var r := ranges[0];
      if HasSection(meta, r.section) && r.section in c.curr {
        var c' := Cursor(c.curr[r.section := r.end], c.filler[r.section := (c.curr[r.section], r.begin)]);
        assert c'.curr.Keys == c.curr.Keys && c'.filler.Keys == c.curr.Keys;
        ParseRangesKeys(meta, ranges[1..], c');
      }
    }
  }

  /** The slices for the rest of the list, from the positions `curr` and the filler number `idx` on. */
  function LoadFrom(meta: seq<SectionInfo>, names: seq<string>, slices: seq<SliceData>,
                    curr: map<string, nat>, idx: nat): Option<seq<Slice>>
    requires KnownNames(meta, names, curr)
    decreases |slices|
  {
    if slices == [] then Some(FillerSlice(FillerSections(meta, names, LastRanges(meta, names, curr)), idx))
    else
      var s, c := slices[0], Cursor(curr, ZeroRanges(names));
      assert c.filler.Keys == curr.Keys;
      ParseRangesKeys(meta, s.ranges, c);
      match ParseRanges(meta, s.ranges, c)
      case None => None
      case Some((secs, end)) =>
        assert forall n :: n in end.curr.Keys <==> n in curr;
        var filler := FillerSlice(FillerSections(meta, names, end.filler), idx);
        match LoadFrom(meta, names, slices[1..], end.curr, idx + |filler|)
        case None => None
        case Some(rest) => Some(filler + [Slice(Object(s.source), s.source, secs, s.nonMatching)] + rest)
  }

  lemma {:induction false} NamesKnown(all: seq<SectionInfo>, meta: seq<SectionInfo>)
    requires forall i :: 0 <= i < |meta| ==> meta[i] in all
    ensures KnownNames(all, NonEmptyNames(meta), StartPositions(meta))
    decreases |meta|
  {
    if meta != [] {
      NamesKnown(all, meta[1..]);
      InHasSection(all, meta[0]);
    }
  }

  lemma {:induction false} InHasSection(meta: seq<SectionInfo>, info: SectionInfo)
    requires info in meta
    ensures HasSection(meta, info.name)
  {
    if meta[0] != info {
      InHasSection(meta[1..], info);
    }
  }

  function LoadSlices(meta: seq<SectionInfo>, slices: seq<SliceData>): Option<seq<Slice>> {
    NamesKnown(meta, meta);
    LoadFrom(meta, NonEmptyNames(meta), slices, StartPositions(meta), 0)
  }

  // ----- the loader -----

  /** `make_filler_slice` */
  method MakeFillerSlice(meta: seq<SectionInfo>, names: seq<string>, filler: map<string, (nat, nat)>, idx: nat)
    returns (slice: Option<Slice>)
    requires forall n :: n in names ==> n in filler && HasSection(meta, n)
    ensures (if slice.None? then [] else [slice.value]) == FillerSlice(FillerSections(meta, names, filler), idx)
  {
    var sections: seq<SliceSection> := [];
    assert names[0..] == names && [] + FillerSections(meta, names, filler) == FillerSections(meta, names, filler);
    for i := 0 to |names|
      invariant sections + FillerSections(meta, names[i..], filler) == FillerSections(meta, names, filler)
    {
      var n := names[i];
      var (start, end) := filler[n];
      ghost var before := sections;
      FillerStep(meta, names[i..], filler);
      assert names[i..][0] == n && names[i..][1..] == names[i + 1..];
      if start != end {
        var info := Info(meta, n);
        sections := sections + [SliceSection(n, info.index, start, end, info.alignment)];
      }
      Append(before, sections[|before|..], FillerSections(meta, names[i + 1..], filler), sections);
    }
    assert sections + [] == sections;
    slice := if |sections| > 0 then Some(Slice(Filler(idx), "", sections, false)) else None;
  }

  lemma FillerStep(meta: seq<SectionInfo>, names: seq<string>, filler: map<string, (nat, nat)>)
    requires names != [] && forall n :: n in names ==> n in filler && HasSection(meta, n)
    ensures var n := names[0];
            var here := if filler[n].0 == filler[n].1 then []
                        else [SliceSection(n, Info(meta, n).index, filler[n].0, filler[n].1, Info(meta, n).alignment)];
            FillerSections(meta, names, filler) == here + FillerSections(meta, names[1..], filler)
  {
  }

  lemma Append(before: seq<SliceSection>, here: seq<SliceSection>, rest: seq<SliceSection>, after: seq<SliceSection>)
    requires after == before + here
    ensures after + rest == before + (here + rest)
  {
  }

  /** The loop over the memory ranges of one slice. */
  method ParseSliceRanges(meta: seq<SectionInfo>, ranges: seq<Range>, c: Cursor)
    returns (r: Option<(seq<SliceSection>, Cursor)>)
    requires c.filler.Keys == c.curr.Keys
    ensures r == ParseRanges(meta, ranges, c)
  {
    var secs: seq<SliceSection> := [];
    var curr: map<string, nat>, filler: map<string, (nat, nat)> := c.curr, c.filler;
    NothingBefore(ParseRanges(meta, ranges, c), None);
    assert ranges[0..] == ranges;
    for i := 0 to |ranges|
      invariant BehindSections(secs, ParseRanges(meta, ranges[i..], Cursor(curr, filler)))
             == ParseRanges(meta, ranges, c)
    {
      var range := ranges[i];
      assert ranges[i..][0] == range && ranges[i..][1..] == ranges[i + 1..];
      if !HasSection(meta, range.section) || range.section !in curr {
        return None;
      }
      var info := Info(meta, range.section);
      var sec := SliceSection(range.section, info.index, range.begin, range.end, info.alignment);
      ghost var before := secs;
      secs := secs + [sec];
      filler := filler[range.section := (curr[range.section], range.begin)];
      curr := curr[range.section := range.end];
      BehindStep(before, sec, ParseRanges(meta, ranges[i + 1..], Cursor(curr, filler)));
    }
    assert secs + [] == secs;
    return Some((secs, Cursor(curr, filler)));
  }

  function BehindSections(done: seq<SliceSection>, rest: Option<(seq<SliceSection>, Cursor)>)
    : Option<(seq<SliceSection>, Cursor)>
  {
    if rest.None? then None else Some((done + rest.value.0, rest.value.1))
  }

  lemma NothingBefore(rest: Option<(seq<SliceSection>, Cursor)>, slices: Option<seq<Slice>>)
    ensures BehindSections([], rest) == rest && BehindSlices([], slices) == slices
  {
    if rest.Some? { assert [] + rest.value.0 == rest.value.0; }
    if slices.Some? { assert [] + slices.value == slices.value; }
  }

  lemma BehindStep(done: seq<SliceSection>, s: SliceSection, rest: Option<(seq<SliceSection>, Cursor)>)
    ensures BehindSections(done + [s], rest)
         == BehindSections(done, if rest.None? then None else Some(([s] + rest.value.0, rest.value.1)))
  {
    if rest.Some? { assert (done + [s]) + rest.value.0 == done + ([s] + rest.value.0); }
  }

  function BehindSlices(done: seq<Slice>, rest: Option<seq<Slice>>): Option<seq<Slice>> {
    if rest.None? then None else Some(done + rest.value)
  }

  lemma BehindSlicesStep(done: seq<Slice>, more: seq<Slice>, rest: Option<seq<Slice>>)
    ensures BehindSlices(done + more, rest) == BehindSlices(done, if rest.None? then None else Some(more + rest.value))
  {
    if rest.Some? { assert (done + more) + rest.value == done + (more + rest.value); }
  }

  lemma LoadFromStep(meta: seq<SectionInfo>, names: seq<string>, slices: seq<SliceData>, curr: map<string, nat>,
                     idx: nat, out: seq<Slice>, secs: seq<SliceSection>, end: Cursor, filler: seq<Slice>)
    requires KnownNames(meta, names, curr) && slices != []
    requires ZeroRanges(names).Keys == curr.Keys
    requires ParseRanges(meta, slices[0].ranges, Cursor(curr, ZeroRanges(names))) == Some((secs, end))
    requires KnownNames(meta, names, end.curr) && end.filler.Keys == end.curr.Keys
    requires filler == FillerSlice(FillerSections(meta, names, end.filler), idx)
    ensures var s := Slice(Object(slices[0].source), slices[0].source, secs, slices[0].nonMatching);
            BehindSlices(out + filler + [s], LoadFrom(meta, names, slices[1..], end.curr, idx + |filler|)) ==
            BehindSlices(out, LoadFrom(meta, names, slices, curr, idx))
  {
    var s := Slice(Object(slices[0].source), slices[0].source, secs, slices[0].nonMatching);
    BehindSlicesStep(out, filler + [s], LoadFrom(meta, names, slices[1..], end.curr, idx + |filler|));
    assert out + (filler + [s]) == out + filler + [s];
  }

  lemma RangesKeepNames(meta: seq<SectionInfo>, names: seq<string>, ranges: seq<Range>, curr: map<string, nat>,
                        secs: seq<SliceSection>, end: Cursor)
    requires KnownNames(meta, names, curr) && ZeroRanges(names).Keys == curr.Keys
    requires ParseRanges(meta, ranges, Cursor(curr, ZeroRanges(names))) == Some((secs, end))
    ensures KnownNames(meta, names, end.curr) && end.filler.Keys == end.curr.Keys
  {
    ParseRangesKeys(meta, ranges, Cursor(curr, ZeroRanges(names)));
    assert forall n :: n in end.curr.Keys <==> n in curr;
  }

  /** One slice of the file, behind the filler slice for what lies before it. */
  method LoadSlice(meta: seq<SectionInfo>, names: seq<string>, slices: seq<SliceData>, curr: map<string, nat>, idx: nat,
                   out: seq<Slice>)
    returns (ok: bool, next: seq<Slice>, curr': map<string, nat>, idx': nat)
    requires KnownNames(meta, names, curr) && slices != []
    ensures !ok ==> BehindSlices(out, LoadFrom(meta, names, slices, curr, idx)) == None
    ensures ok ==> KnownNames(meta, names, curr')
    ensures ok ==>
              BehindSlices(next, LoadFrom(meta, names, slices[1..], curr', idx')) ==
              BehindSlices(out, LoadFrom(meta, names, slices, curr, idx))
  {
    var slice, c := slices[0], Cursor(curr, ZeroRanges(names));
    assert c.filler.Keys == curr.Keys;
    var r := ParseSliceRanges(meta, slice.ranges, c);
    if r.None? {
      return false, out, curr, idx;
    }
    var secs, end := r.value.0, r.value.1;
    RangesKeepNames(meta, names, slice.ranges, curr, secs, end);
    var filler := MakeFillerSlice(meta, names, end.filler, idx);
    var fillers := if filler.Some? then [filler.value] else [];
    LoadFromStep(meta, names, slices, curr, idx, out, secs, end, fillers);
    var parsedSlice := Slice(Object(slice.source), slice.source, secs, slice.nonMatching);
    return true, out + fillers + [parsedSlice], end.curr, idx + |fillers|;
  }

  /** `load_slice_file` behind the JSON reader; `None` stands for a KeyError. */
  method LoadSliceFile(meta: seq<SectionInfo>, slices: seq<SliceData>) returns (parsed: Option<seq<Slice>>)
    ensures parsed == LoadSlices(meta, slices)
  {
    NamesKnown(meta, meta);
    var names, curr, fillerIdx: nat := NonEmptyNames(meta), StartPositions(meta), 0;
    var out: seq<Slice> := [];
    NothingBefore(None, LoadSlices(meta, slices));
    assert slices[0..] == slices;
    for i := 0 to |slices|
      invariant KnownNames(meta, names, curr)
      invariant BehindSlices(out, LoadFrom(meta, names, slices[i..], curr, fillerIdx)) == LoadSlices(meta, slices)
    {
      assert slices[i..][1..] == slices[i + 1..];
      var ok;
      ok, out, curr, fillerIdx := LoadSlice(meta, names, slices[i..], curr, fillerIdx, out);
      if !ok {
        return None;
      }
    }
    var last := MakeFillerSlice(meta, names, LastRanges(meta, names, curr), fillerIdx);
    if last.Some? {
      out := out + [last.value];
    } else {
      assert out + [] == out;
    }
    return Some(out);
  }
}
