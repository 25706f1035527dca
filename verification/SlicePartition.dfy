/** What the slices of a loaded slice file add up to: in every section they follow each other without a gap,
    and with ascending input ranges they are a partition of it. */
module SlicePartition {
  import opened Slices
  import opened Wrappers

  type Piece = (int, int)

  // ----- the pieces of one section, in list order -----

  function PiecesOf(secs: seq<SliceSection>, name: string): seq<Piece> {
    if secs == [] then []
    else (if secs[0].secName == name then [(secs[0].start, secs[0].end)] else []) + PiecesOf(secs[1..], name)
  }

  function AllSections(slices: seq<Slice>): seq<SliceSection> {
    if slices == [] then [] else slices[0].secs + AllSections(slices[1..])
  }

  /** Every piece begins where the one before it ends, from `lo` to `hi`. */
  predicate Chain(pieces: seq<Piece>, lo: int, hi: int) {
    if pieces == [] then lo == hi else pieces[0].0 == lo && Chain(pieces[1..], pieces[0].1, hi)
  }

  predicate Forward(pieces: seq<Piece>) {
    forall i :: 0 <= i < |pieces| ==> pieces[i].0 <= pieces[i].1
  }

  lemma {:induction false} PiecesConcat(a: seq<SliceSection>, b: seq<SliceSection>, name: string)
    ensures PiecesOf(a + b, name) == PiecesOf(a, name) + PiecesOf(b, name)
  {
    if a == [] {
      assert a + b == b;
    } else {
      var here := if a[0].secName == name then [(a[0].start, a[0].end)] else [];
      assert (a + b)[0] == a[0] && (a + b)[1..] == a[1..] + b;
      PiecesConcat(a[1..], b, name);
      assert here + (PiecesOf(a[1..], name) + PiecesOf(b, name)) == (here + PiecesOf(a[1..], name)) + PiecesOf(b, name);
    }
  }

  lemma {:induction false} AllSectionsConcat(a: seq<Slice>, b: seq<Slice>)
    ensures AllSections(a + b) == AllSections(a) + AllSections(b)
  {
    if a == [] {
      assert a + b == b;
    } else {
      assert (a + b)[0] == a[0] && (a + b)[1..] == a[1..] + b;
      AllSectionsConcat(a[1..], b);
    }
  }

  lemma {:induction false} ChainConcat(a: seq<Piece>, b: seq<Piece>, lo: int, mid: int, hi: int)
    requires Chain(a, lo, mid) && Chain(b, mid, hi)
    ensures Chain(a + b, lo, hi)
  {
    if a == [] {
      assert a + b == b;
    } else {
      assert (a + b)[0] == a[0] && (a + b)[1..] == a[1..] + b;
      ChainConcat(a[1..], b, a[0].1, mid, hi);
    }
  }

  predicate DistinctStrings(names: seq<string>) {
    forall i, j :: 0 <= i < j < |names| ==> names[i] != names[j]
  }

  lemma {:induction false} FillerPieces(meta: seq<SectionInfo>, names: seq<string>, filler: map<string, (nat, nat)>,
                                        name: string)
    requires DistinctStrings(names) && forall n :: n in names ==> n in filler && HasSection(meta, n)
    ensures PiecesOf(FillerSections(meta, names, filler), name)
         == if name in names && filler[name].0 != filler[name].1 then [(filler[name].0, filler[name].1)] else []
    decreases |names|
  {
    if names != [] {
      var n, rest := names[0], FillerSections(meta, names[1..], filler);
      var here := if filler[n].0 == filler[n].1 then []
                  else [SliceSection(n, Info(meta, n).index, filler[n].0, filler[n].1, Info(meta, n).alignment)];
      assert n !in names[1..];
      FillerPieces(meta, names[1..], filler, name);
      PiecesConcat(here, rest, name);
      assert here != [] ==> here[1..] == [];
    }
  }

  function RangeFor(ranges: seq<Range>, name: string): Option<Range> {
    if ranges == [] then None
    else if ranges[0].section == name then Some(ranges[0])
    else RangeFor(ranges[1..], name)
  }

  lemma {:induction false} NoRange(ranges: seq<Range>, name: string)
    requires forall i :: 0 <= i < |ranges| ==> ranges[i].section != name
    ensures RangeFor(ranges, name).None?
  {
    if ranges != [] { NoRange(ranges[1..], name); }
  }

  /** A slice adds its own range to a section and moves the position behind it; other sections stay put. */
  lemma {:induction false} RangePieces(meta: seq<SectionInfo>, ranges: seq<Range>, c: Cursor, name: string)
    requires DistinctRanges(ranges) && c.filler.Keys == c.curr.Keys && name in c.curr
    requires ParseRanges(meta, ranges, c).Some?
    ensures var (secs, end) := ParseRanges(meta, ranges, c).value;
            && name in end.curr && name in end.filler
            && match RangeFor(ranges, name)
               case None => PiecesOf(secs, name) == [] && end.curr[name] == c.curr[name]
                            && end.filler[name] == c.filler[name]
               case Some(r) => PiecesOf(secs, name) == [(r.begin, r.end)] && end.curr[name] == r.end
                               && end.filler[name] == (c.curr[name], r.begin)
    decreases |ranges|
  {
    if ranges != [] {
      var r := ranges[0];
      var c' := Cursor(c.curr[r.section := r.end], c.filler[r.section := (c.curr[r.section], r.begin)]);
      assert c'.filler.Keys == c'.curr.Keys;
      if r.section == name { NoRange(ranges[1..], name); }
      RangePieces(meta, ranges[1..], c', name);
      var rest := ParseRanges(meta, ranges[1..], c').value.0;
      var s := SliceSection(r.section, Info(meta, r.section).index, r.begin, r.end, Info(meta, r.section).alignment);
      assert ([s] + rest)[1..] == rest;
    }
  }

  // ----- the chain -----

  predicate AllDistinctRanges(slices: seq<SliceData>) {
    forall i :: 0 <= i < |slices| ==> DistinctRanges(slices[i].ranges)
  }

  lemma FillerSliceSections(secs: seq<SliceSection>, idx: nat)
    ensures AllSections(FillerSlice(secs, idx)) == secs
  {
    var f := FillerSlice(secs, idx);
    if secs != [] {
      assert f[1..] == [];
      assert secs + [] == secs;
    }
  }

  lemma {:induction false} LoadChain(meta: seq<SectionInfo>, names: seq<string>, slices: seq<SliceData>,
                                     curr: map<string, nat>, idx: nat, name: string)
    requires KnownNames(meta, names, curr) && DistinctStrings(names) && AllDistinctRanges(slices) && name in names
    requires LoadFrom(meta, names, slices, curr, idx).Some?
    ensures Chain(PiecesOf(AllSections(LoadFrom(meta, names, slices, curr, idx).value), name),
                  curr[name], Info(meta, name).End())
    decreases |slices|
  {
    if slices == [] {
      var last := LastRanges(meta, names, curr);
      FillerPieces(meta, names, last, name);
      FillerSliceSections(FillerSections(meta, names, last), idx);
    } else {
      var next, idx', here := LoadStep(meta, names, slices, curr, idx, name);
      LoadChain(meta, names, slices[1..], next, idx', name);
      HereChain(RangeFor(slices[0].ranges, name), curr[name], next[name], here);
      ChainConcat(here, PiecesOf(AllSections(LoadFrom(meta, names, slices[1..], next, idx').value), name),
                  curr[name], next[name], Info(meta, name).End());
    }
  }

  lemma HereChain(r: Option<Range>, curr: nat, next: nat, here: seq<Piece>)
    requires match r
             case None => here == [] && next == curr
             case Some(r) => here == (if curr != r.begin then [(curr, r.begin)] else []) + [(r.begin, r.end)]
                             && next == r.end
    ensures Chain(here, curr, next)
    ensures Forward(here) <==> (r.Some? ==> curr <= r.value.begin <= r.value.end)
  {
    if r.Some? {
      var a: seq<Piece>, b: seq<Piece> := if curr != r.value.begin then [(curr as int, r.value.begin as int)] else [],
                                          [(r.value.begin as int, r.value.end as int)];
      assert b[1..] == [] && Chain(b, r.value.begin, r.value.end);
      assert a != [] ==> a[1..] == [];
      assert Chain(a, curr, r.value.begin);
      ChainConcat(a, b, curr, r.value.begin, r.value.end);
      ForwardConcat(a, b);
    }
  }

  /** One slice of the list: its own sections, the sections of the filler before it, and the rest. */
  lemma LoadUnfold(meta: seq<SectionInfo>, names: seq<string>, slices: seq<SliceData>, curr: map<string, nat>, idx: nat,
                   c: Cursor)
    returns (secs: seq<SliceSection>, end: Cursor, fillerSecs: seq<SliceSection>, idx': nat, rest: seq<Slice>)
    requires KnownNames(meta, names, curr) && slices != [] && c == Cursor(curr, ZeroRanges(names))
    requires LoadFrom(meta, names, slices, curr, idx).Some?
    ensures c.filler.Keys == c.curr.Keys && ParseRanges(meta, slices[0].ranges, c) == Some((secs, end))
    ensures KnownNames(meta, names, end.curr) && end.filler.Keys == end.curr.Keys
    ensures fillerSecs == FillerSections(meta, names, end.filler)
    ensures LoadFrom(meta, names, slices[1..], end.curr, idx') == Some(rest)
    ensures AllSections(LoadFrom(meta, names, slices, curr, idx).value) == fillerSecs + secs + AllSections(rest)
  {
    secs, end := RangesParsed(meta, names, slices, curr, idx, c);
    fillerSecs := FillerSections(meta, names, end.filler);
    idx' := idx + |FillerSlice(fillerSecs, idx)|;
    rest := LoadedFirst(meta, names, slices, curr, idx, secs, end, FillerSlice(fillerSecs, idx));
    FillerSliceSections(fillerSecs, idx);
    SectionsOfLoaded(FillerSlice(fillerSecs, idx),
                     Slice(Object(slices[0].source), slices[0].source, secs, slices[0].nonMatching), rest,
                     LoadFrom(meta, names, slices, curr, idx).value, fillerSecs);
  }

  lemma SectionsOfLoaded(filler: seq<Slice>, s: Slice, rest: seq<Slice>, all: seq<Slice>, fillerSecs: seq<SliceSection>)
    requires all == filler + [s] + rest && AllSections(filler) == fillerSecs
    ensures AllSections(all) == fillerSecs + s.secs + AllSections(rest)
  {
    SectionsOfThree(filler, s, rest);
  }

  lemma RangesParsed(meta: seq<SectionInfo>, names: seq<string>, slices: seq<SliceData>, curr: map<string, nat>,
                     idx: nat, c: Cursor) returns (secs: seq<SliceSection>, end: Cursor)
    requires KnownNames(meta, names, curr) && slices != [] && c == Cursor(curr, ZeroRanges(names))
    requires LoadFrom(meta, names, slices, curr, idx).Some?
    ensures c.filler.Keys == c.curr.Keys && ParseRanges(meta, slices[0].ranges, c) == Some((secs, end))
    ensures KnownNames(meta, names, end.curr) && end.filler.Keys == end.curr.Keys
  {
    assert c.filler.Keys == curr.Keys;
    secs, end := ParseRanges(meta, slices[0].ranges, c).value.0, ParseRanges(meta, slices[0].ranges, c).value.1;
    RangesKeepNames(meta, names, slices[0].ranges, curr, secs, end);
  }

  lemma LoadedFirst(meta: seq<SectionInfo>, names: seq<string>, slices: seq<SliceData>, curr: map<string, nat>,
                    idx: nat, secs: seq<SliceSection>, end: Cursor, filler: seq<Slice>) returns (rest: seq<Slice>)
    requires KnownNames(meta, names, curr) && slices != [] && ZeroRanges(names).Keys == curr.Keys
    requires ParseRanges(meta, slices[0].ranges, Cursor(curr, ZeroRanges(names))) == Some((secs, end))
    requires KnownNames(meta, names, end.curr) && end.filler.Keys == end.curr.Keys
    requires filler == FillerSlice(FillerSections(meta, names, end.filler), idx)
    requires LoadFrom(meta, names, slices, curr, idx).Some?
    ensures LoadFrom(meta, names, slices[1..], end.curr, idx + |filler|) == Some(rest)
    ensures LoadFrom(meta, names, slices, curr, idx).value
         == filler + [Slice(Object(slices[0].source), slices[0].source, secs, slices[0].nonMatching)] + rest
  {
    rest := LoadFrom(meta, names, slices[1..], end.curr, idx + |filler|).value;
  }

  /** What one slice of the list adds to a section: `here`, before the pieces of the rest. */
  lemma LoadStep(meta: seq<SectionInfo>, names: seq<string>, slices: seq<SliceData>, curr: map<string, nat>, idx: nat,
                 name: string) returns (next: map<string, nat>, idx': nat, here: seq<Piece>)
    requires KnownNames(meta, names, curr) && DistinctStrings(names) && AllDistinctRanges(slices) && name in names
    requires LoadFrom(meta, names, slices, curr, idx).Some? && slices != []
    ensures KnownNames(meta, names, next) && LoadFrom(meta, names, slices[1..], next, idx').Some?
    ensures PiecesOf(AllSections(LoadFrom(meta, names, slices, curr, idx).value), name)
         == here + PiecesOf(AllSections(LoadFrom(meta, names, slices[1..], next, idx').value), name)
    ensures match RangeFor(slices[0].ranges, name)
            case None => here == [] && next[name] == curr[name]
            case Some(r) => here == (if curr[name] != r.begin then [(curr[name], r.begin)] else []) + [(r.begin, r.end)]
                            && next[name] == r.end
  {
    var c := Cursor(curr, ZeroRanges(names));
    var secs, end, fillerSecs, i, rest := LoadUnfold(meta, names, slices, curr, idx, c);
    next, idx' := end.curr, i;
    here := PiecesOf(fillerSecs, name) + PiecesOf(secs, name);
    assert DistinctRanges(slices[0].ranges);
    RangePieces(meta, slices[0].ranges, c, name);
    FillerPieces(meta, names, end.filler, name);
    PiecesConcat(fillerSecs + secs, AllSections(rest), name);
    PiecesConcat(fillerSecs, secs, name);
  }

  lemma SectionsOfThree(filler: seq<Slice>, s: Slice, rest: seq<Slice>)
    ensures AllSections(filler + [s] + rest) == AllSections(filler) + s.secs + AllSections(rest)
  {
    AllSectionsConcat(filler + [s], rest);
    AllSectionsConcat(filler, [s]);
    assert [s][1..] == [] && AllSections([s]) == s.secs + [] == s.secs;
  }

  lemma {:induction false} StartOf(meta: seq<SectionInfo>, i: nat)
    requires DistinctNames(meta) && i < |meta|
    ensures HasSection(meta, meta[i].name) && Info(meta, meta[i].name) == meta[i]
    ensures meta[i].size != 0 <==> meta[i].name in NonEmptyNames(meta)
    ensures meta[i].size != 0 ==>
              meta[i].name in StartPositions(meta) && StartPositions(meta)[meta[i].name] == meta[i].offset
    decreases |meta|
  {
    if i > 0 {
      StartOf(meta[1..], i - 1);
    } else {
      NameAbsent(meta);
    }
  }

  lemma NameAbsent(meta: seq<SectionInfo>)
    requires DistinctNames(meta) && meta != []
    ensures meta[0].name !in NonEmptyNames(meta[1..])
  {
    if meta[0].name in NonEmptyNames(meta[1..]) {
      var j := NameFrom(meta[1..], meta[0].name);
      assert false;
    }
  }

  lemma {:induction false} NameFrom(meta: seq<SectionInfo>, n: string) returns (j: nat)
    requires n in NonEmptyNames(meta)
    ensures j < |meta| && meta[j].name == n && meta[j].size != 0
  {
    if meta[0].size != 0 && meta[0].name == n {
      j := 0;
    } else {
      j := NameFrom(meta[1..], n);
      j := j + 1;
    }
  }

  lemma {:induction false} NamesDistinct(meta: seq<SectionInfo>)
    requires DistinctNames(meta)
    ensures DistinctStrings(NonEmptyNames(meta))
  {
    if meta != [] {
      NamesDistinct(meta[1..]);
      NameAbsent(meta);
    }
  }

  /** In the loaded slices the pieces of every nonempty section, real and filler, follow each other without gap
      or overlap from the section's offset to its end, whatever ranges the slices have. */
  lemma SectionIsChain(meta: seq<SectionInfo>, slices: seq<SliceData>, i: nat)
    requires DistinctNames(meta) && AllDistinctRanges(slices) && LoadSlices(meta, slices).Some?
    requires i < |meta| && meta[i].size != 0
    ensures Chain(PiecesOf(AllSections(LoadSlices(meta, slices).value), meta[i].name),
                  meta[i].offset, meta[i].End())
  {
    NamesKnown(meta, meta);
    NamesDistinct(meta);
    StartOf(meta, i);
    LoadChain(meta, NonEmptyNames(meta), slices, StartPositions(meta), 0, meta[i].name);
  }

  // ----- when the chain is a partition -----

  /** The ranges of one section ascend from `curr` without overlap and end before `hi`. */
  predicate Ascends(slices: seq<SliceData>, name: string, curr: int, hi: int) {
    if slices == [] then curr <= hi
    else
      match RangeFor(slices[0].ranges, name)
      case None => Ascends(slices[1..], name, curr, hi)
      case Some(r) => curr <= r.begin <= r.end && Ascends(slices[1..], name, r.end, hi)
  }

  lemma {:induction false} LoadForward(meta: seq<SectionInfo>, names: seq<string>, slices: seq<SliceData>,
                                       curr: map<string, nat>, idx: nat, name: string)
    requires KnownNames(meta, names, curr) && DistinctStrings(names) && AllDistinctRanges(slices) && name in names
    requires LoadFrom(meta, names, slices, curr, idx).Some?
    ensures Forward(PiecesOf(AllSections(LoadFrom(meta, names, slices, curr, idx).value), name))
       <==> Ascends(slices, name, curr[name], Info(meta, name).End())
    decreases |slices|
  {
    if slices == [] {
      var last := LastRanges(meta, names, curr);
      FillerPieces(meta, names, last, name);
      FillerSliceSections(FillerSections(meta, names, last), idx);
    } else {
      var next, idx', here := LoadStep(meta, names, slices, curr, idx, name);
      LoadForward(meta, names, slices[1..], next, idx', name);
      HereChain(RangeFor(slices[0].ranges, name), curr[name], next[name], here);
      ForwardConcat(here, PiecesOf(AllSections(LoadFrom(meta, names, slices[1..], next, idx').value), name));
    }
  }

  lemma ForwardConcat(a: seq<Piece>, b: seq<Piece>)
    ensures Forward(a + b) <==> Forward(a) && Forward(b)
  {
    if Forward(a + b) {
      assert forall i :: 0 <= i < |a| ==> (a + b)[i] == a[i];
      assert forall i :: 0 <= i < |b| ==> (a + b)[|a| + i] == b[i];
    }
  }

  /** No piece of a section runs backwards exactly when the input ranges of the section ascend without overlap
      inside it. */
  lemma ForwardIffAscending(meta: seq<SectionInfo>, slices: seq<SliceData>, i: nat)
    requires DistinctNames(meta) && AllDistinctRanges(slices) && LoadSlices(meta, slices).Some?
    requires i < |meta| && meta[i].size != 0
    ensures Forward(PiecesOf(AllSections(LoadSlices(meta, slices).value), meta[i].name))
       <==> Ascends(slices, meta[i].name, meta[i].offset, meta[i].End())
  {
    NamesKnown(meta, meta);
    NamesDistinct(meta);
    StartOf(meta, i);
    LoadForward(meta, NonEmptyNames(meta), slices, StartPositions(meta), 0, meta[i].name);
  }

  /** The bytes cut out of section data for its pieces, one after the other. */
  function Cut<T>(data: seq<T>, pieces: seq<Piece>): seq<T>
    requires forall i :: 0 <= i < |pieces| ==> 0 <= pieces[i].0 <= pieces[i].1 <= |data|
  {
    if pieces == [] then [] else data[pieces[0].0..pieces[0].1] + Cut(data, pieces[1..])
  }

  lemma {:induction false} ChainBounds(pieces: seq<Piece>, lo: int, hi: int)
    requires Chain(pieces, lo, hi) && Forward(pieces)
    ensures lo <= hi && forall i :: 0 <= i < |pieces| ==> lo <= pieces[i].0 <= pieces[i].1 <= hi
  {
    if pieces != [] {
      ChainBounds(pieces[1..], pieces[0].1, hi);
      assert forall i :: 1 <= i < |pieces| ==> pieces[i] == pieces[1..][i - 1];
    }
  }

  /** Concatenating the bytes of all pieces gives back the data of the section. */
  lemma {:induction false} CutsRebuild<T>(data: seq<T>, pieces: seq<Piece>, lo: int, hi: int)
    requires Chain(pieces, lo, hi) && Forward(pieces) && 0 <= lo && hi <= |data|
    ensures lo <= hi && forall i :: 0 <= i < |pieces| ==> 0 <= pieces[i].0 <= pieces[i].1 <= |data|
    ensures Cut(data, pieces) == data[lo..hi]
    decreases |pieces|
  {
    ChainBounds(pieces, lo, hi);
    if pieces != [] {
      var mid := pieces[0].1;
      ChainBounds(pieces[1..], mid, hi);
      CutsRebuild(data, pieces[1..], mid, hi);
      SliceJoin(data, lo, mid, hi);
    }
  }

  lemma SliceJoin<T>(data: seq<T>, lo: int, mid: int, hi: int)
    requires 0 <= lo <= mid <= hi <= |data|
    ensures data[lo..mid] + data[mid..hi] == data[lo..hi]
  {
  }

  /** With ascending ranges the bytes extracted for a section from every slice, in slice order, are the bytes of
      the section. */
  lemma SlicesRebuildSection<T>(meta: seq<SectionInfo>, slices: seq<SliceData>, i: nat, data: seq<T>)
    requires DistinctNames(meta) && AllDistinctRanges(slices) && LoadSlices(meta, slices).Some?
    requires i < |meta| && meta[i].size != 0 && meta[i].End() <= |data|
    requires Ascends(slices, meta[i].name, meta[i].offset, meta[i].End())
    ensures var pieces := PiecesOf(AllSections(LoadSlices(meta, slices).value), meta[i].name);
            && (forall j :: 0 <= j < |pieces| ==> 0 <= pieces[j].0 <= pieces[j].1 <= |data|)
            && Cut(data, pieces) == data[meta[i].offset..meta[i].End()]
  {
    SectionIsChain(meta, slices, i);
    ForwardIffAscending(meta, slices, i);
    CutsRebuild(data, PiecesOf(AllSections(LoadSlices(meta, slices).value), meta[i].name),
                meta[i].offset, meta[i].End());
  }

  // ----- sums over all slice sections -----

  function Sum(secs: seq<SliceSection>, weight: SliceSection -> int): int {
    if secs == [] then 0 else weight(secs[0]) + Sum(secs[1..], weight)
  }

  function SumNamed(secs: seq<SliceSection>, name: string, weight: SliceSection -> int): int {
    if secs == [] then 0
    else (if secs[0].secName == name then weight(secs[0]) else 0) + SumNamed(secs[1..], name, weight)
  }

  function SumOverNames(secs: seq<SliceSection>, names: seq<string>, weight: SliceSection -> int): int {
    if names == [] then 0 else SumNamed(secs, names[0], weight) + SumOverNames(secs, names[1..], weight)
  }

  lemma {:induction false} FirstOverNames(secs: seq<SliceSection>, names: seq<string>, weight: SliceSection -> int)
    requires secs != [] && DistinctStrings(names)
    ensures SumOverNames(secs, names, weight)
         == SumOverNames(secs[1..], names, weight) + (if secs[0].secName in names then weight(secs[0]) else 0)
    decreases |names|
  {
    if names != [] {
      FirstOverNames(secs, names[1..], weight);
      assert names[0] !in names[1..];
    }
  }

  /** A sum over all slice sections is the sum of its parts, section by section. */
  lemma {:induction false} SumByName(secs: seq<SliceSection>, names: seq<string>, weight: SliceSection -> int)
    requires DistinctStrings(names) && forall i :: 0 <= i < |secs| ==> secs[i].secName in names
    ensures Sum(secs, weight) == SumOverNames(secs, names, weight)
    decreases |secs|
  {
    if secs == [] {
      NothingOverNames(names, weight);
    } else {
      SumByName(secs[1..], names, weight);
      FirstOverNames(secs, names, weight);
    }
  }

  lemma {:induction false} NothingOverNames(names: seq<string>, weight: SliceSection -> int)
    ensures SumOverNames([], names, weight) == 0
  {
    if names != [] { NothingOverNames(names[1..], weight); }
  }
}
