/** Every relocation of a module goes to one slice: extraction by tools/slice_rel.py for all slices of a slice file
    together. */
module RelExtraction {
  import opened RelPipeline
  import opened RelTypes
  import opened SlicePartition
  import opened Slices
  import SliceSums

  lemma {:induction false} RefsInCount(refs: seq<Ref>, sec: SliceSection, r: Ref)
    ensures Count(RefsIn(refs, sec), r) == if sec.Contains(r.section, r.pos) then Count(refs, r) else 0
  {
    if refs != [] {
      var here := if sec.Contains(refs[0].section, refs[0].pos) then [refs[0]] else [];
      RefsInCount(refs[1..], sec, r);
      CountConcat(here, RefsIn(refs[1..], sec), r);
      CountOne(refs[0], r);
    }
  }

  lemma {:induction false} ExtractionsCount(refs: seq<Ref>, secs: seq<SliceSection>, r: Ref)
    ensures Count(Extractions(refs, secs), r) == SliceSums.Times(secs, r.section, r.pos) * Count(refs, r)
  {
    if secs != [] {
      RefsInCount(refs, secs[0], r);
      ExtractionsCount(refs, secs[1..], r);
      CountConcat(RefsIn(refs, secs[0]), Extractions(refs, secs[1..]), r);
      TimesMore(secs[0].Contains(r.section, r.pos), SliceSums.Times(secs[1..], r.section, r.pos), Count(refs, r));
    }
  }

  lemma TimesMore(here: bool, k: nat, n: nat)
    ensures (if here then n else 0) + k * n == ((if here then 1 else 0) + k) * n
  {
  }

  /** A relocation is extracted as often as sections of the slice file cover its place. */
  lemma ExtractedAsCovered(meta: seq<SectionInfo>, slices: seq<SliceData>, refs: seq<Ref>, r: Ref)
    requires DistinctNames(meta) && AllDistinctRanges(slices) && LoadSlices(meta, slices).Some?
    requires SliceSums.ForwardSections(meta, slices)
    ensures multiset(Extractions(refs, AllSections(LoadSlices(meta, slices).value)))[r]
         == SliceSums.Covering(meta, r.section, r.pos) * multiset(refs)[r]
  {
    var secs := AllSections(LoadSlices(meta, slices).value);
    ExtractionsCount(refs, secs, r);
    CountIsMultiset(refs, r);
    CountIsMultiset(Extractions(refs, secs), r);
    SliceSums.ContainedOnce(meta, slices, r.section, r.pos);
  }

  /** With slices in ascending ranges, the extraction for all slice sections together neither loses nor repeats a
      relocation exactly when one section of the slice file covers the place of each. */
  lemma EachExtractedOnce(meta: seq<SectionInfo>, slices: seq<SliceData>, refs: seq<Ref>)
    requires DistinctNames(meta) && AllDistinctRanges(slices) && LoadSlices(meta, slices).Some?
    requires SliceSums.ForwardSections(meta, slices)
    ensures multiset(Extractions(refs, AllSections(LoadSlices(meta, slices).value))) == multiset(refs)
       <==> forall i :: 0 <= i < |refs| ==> SliceSums.Covering(meta, refs[i].section, refs[i].pos) == 1
  {
    if forall i :: 0 <= i < |refs| ==> SliceSums.Covering(meta, refs[i].section, refs[i].pos) == 1 {
      CoveredKeeps(meta, slices, refs);
    } else {
      var i :| 0 <= i < |refs| && SliceSums.Covering(meta, refs[i].section, refs[i].pos) != 1;
      ExtractedAsCovered(meta, slices, refs, refs[i]);
      NotOnce(SliceSums.Covering(meta, refs[i].section, refs[i].pos), multiset(refs)[refs[i]]);
    }
  }

  lemma CoveredKeeps(meta: seq<SectionInfo>, slices: seq<SliceData>, refs: seq<Ref>)
    requires DistinctNames(meta) && AllDistinctRanges(slices) && LoadSlices(meta, slices).Some?
    requires SliceSums.ForwardSections(meta, slices)
    requires forall i :: 0 <= i < |refs| ==> SliceSums.Covering(meta, refs[i].section, refs[i].pos) == 1
    ensures multiset(Extractions(refs, AllSections(LoadSlices(meta, slices).value))) == multiset(refs)
  {
    var out := multiset(Extractions(refs, AllSections(LoadSlices(meta, slices).value)));
    var all := multiset(refs);
    forall r: Ref ensures out[r] == all[r] {
      KeptOnce(meta, slices, refs, r);
    }
  }

  lemma KeptOnce(meta: seq<SectionInfo>, slices: seq<SliceData>, refs: seq<Ref>, r: Ref)
    requires DistinctNames(meta) && AllDistinctRanges(slices) && LoadSlices(meta, slices).Some?
    requires SliceSums.ForwardSections(meta, slices)
    requires forall i :: 0 <= i < |refs| ==> SliceSums.Covering(meta, refs[i].section, refs[i].pos) == 1
    ensures multiset(Extractions(refs, AllSections(LoadSlices(meta, slices).value)))[r] == multiset(refs)[r]
  {
    ExtractedAsCovered(meta, slices, refs, r);
    if r in refs { CoveredMember(meta, refs, r); } else { assert multiset(refs)[r] == 0; }
  }

  lemma CoveredMember(meta: seq<SectionInfo>, refs: seq<Ref>, r: Ref)
    requires forall i :: 0 <= i < |refs| ==> SliceSums.Covering(meta, refs[i].section, refs[i].pos) == 1
    requires r in refs
    ensures SliceSums.Covering(meta, r.section, r.pos) == 1
  {
  }

  lemma NotOnce(c: nat, n: nat)
    requires c != 1 && n > 0
    ensures c * n != n
  {
  }
}
