/** Patching branch words in the section data of a REL module, the write half of
    `Rel._try_relocate_rel24` in tools/relfile.py. */
module RelPatch {
  import opened Bytes
  import opened RelBranch
  import opened RelTypes

  /** The module being written, the file offsets of its sections, and the place of its `_unresolved`. */
  datatype Env = Env(index: nat, locs: seq<nat>, unresolvedSection: nat, unresolvedOffset: nat)

  // ----- one patch -----

  function Min(a: nat, b: nat): nat {
    if a < b then a else b
  }

  lemma FromBytesFits(s: seq<Byte>)
    requires |s| <= 4
    ensures FromBytes(s) < 0x1_0000_0000
  {
    FromBytesBelow(s);
    if |s| == 1 { FromBytesBelow(s[..0]); }
    if |s| >= 2 { FromBytesBelow(s[..|s| - 1]); FromBytesBelow(s[..|s| - 1][..|s| - 2]); }
    if |s| >= 3 { FromBytesBelow(s[..|s| - 1][..|s| - 2][..|s| - 3]); }
  }

  lemma FromBytesBelow(s: seq<Byte>)
    ensures s == [] ==> FromBytes(s) == 0
    ensures s != [] ==> FromBytes(s) < 256 * FromBytes(s[..|s| - 1]) + 256
  {
  }

  /** Python's slice read, mask and slice assignment at `data[pos:pos+4]`; slices are clipped to the data. */
  function PatchData(data: seq<Byte>, pos: nat, offset: U32): seq<Byte> {
    var a, b := Min(pos, |data|), Min(pos + 4, |data|);
    FromBytesFits(data[a..b]);
    data[..a] + Pack32(PatchedWord(FromBytes(data[a..b]), offset)) + data[b..]
  }

  /** The section a branch is aimed at: that of its target in the own module, that of `_unresolved` for every other
      module. */
  function GoalSection(env: Env, ref: Ref): nat {
    if ref.mod == env.index then ref.target else env.unresolvedSection
  }

  function GoalOffset(env: Env, ref: Ref): int {
    if ref.mod == env.index then ref.addend else env.unresolvedOffset
  }

  /** The sections that a branch makes the tool look up exist. */
  predicate SiteExists(env: Env, ref: Ref) {
    ref.section < |env.locs| && GoalSection(env, ref) < |env.locs|
  }

  /** The place in the file that the tool aims a branch at. */
  function Goal(env: Env, ref: Ref): int
    requires SiteExists(env, ref)
  {
    env.locs[GoalSection(env, ref)] + GoalOffset(env, ref)
  }

  function Distance(env: Env, ref: Ref): int
    requires SiteExists(env, ref)
  {
    Goal(env, ref) - (env.locs[ref.section] + ref.pos)
  }

  function Patch(env: Env, sections: seq<Section>, ref: Ref): (r: seq<Section>)
    requires |sections| == |env.locs| && SiteExists(env, ref)
    ensures |r| == |sections|
  {
    var s := sections[ref.section];
    sections[ref.section := s.(data := PatchData(s.data, ref.pos, Wrap32(Distance(env, ref))))]
  }

  predicate SitesExist(env: Env, refs: seq<Ref>) {
    forall i :: 0 <= i < |refs| ==> SiteExists(env, refs[i])
  }

  function ApplyPatches(env: Env, sections: seq<Section>, refs: seq<Ref>): (r: seq<Section>)
    requires |sections| == |env.locs| && SitesExist(env, refs)
    ensures |r| == |sections|
    decreases |refs|
  {
    if refs == [] then sections
    else ApplyPatches(env, Patch(env, sections, refs[0]), refs[1..])
  }

  lemma {:induction false} ApplyPatchesConcat(env: Env, sections: seq<Section>, a: seq<Ref>, b: seq<Ref>)
    requires |sections| == |env.locs| && SitesExist(env, a) && SitesExist(env, b)
    ensures SitesExist(env, a + b)
    ensures ApplyPatches(env, sections, a + b) == ApplyPatches(env, ApplyPatches(env, sections, a), b)
    decreases |a|
  {
    if a == [] {
      assert a + b == b;
    } else {
      assert (a + b)[0] == a[0] && (a + b)[1..] == a[1..] + b;
      ApplyPatchesConcat(env, Patch(env, sections, a[0]), a[1..], b);
    }
  }

  // ----- what the patches do to the data -----

  predicate InData(sections: seq<Section>, ref: Ref) {
    ref.section < |sections| && ref.pos + 4 <= |sections[ref.section].data|
  }

  function WordAt(sections: seq<Section>, ref: Ref): U32
    requires InData(sections, ref)
  {
    Get32(sections[ref.section].data, ref.pos)
  }

  predicate Apart(a: Ref, b: Ref) {
    a.section != b.section || a.pos + 4 <= b.pos || b.pos + 4 <= a.pos
  }

  /** The byte `k` of section `s` belongs to none of the sites. */
  predicate Outside(refs: seq<Ref>, s: nat, k: nat) {
    forall i :: 0 <= i < |refs| ==> refs[i].section != s || k < refs[i].pos || refs[i].pos + 4 <= k
  }

  /** The sites are words of section data that do not overlap. */
  predicate GoodSites(env: Env, sections: seq<Section>, refs: seq<Ref>) {
    && |sections| == |env.locs|
    && SitesExist(env, refs)
    && (forall i :: 0 <= i < |refs| ==> InData(sections, refs[i]))
    && (forall i, j :: 0 <= i < j < |refs| ==> Apart(refs[i], refs[j]))
  }

  /** Only data changes, and no section changes its size. */
  predicate SameFrame(a: seq<Section>, b: seq<Section>) {
    && |a| == |b|
    && forall s :: 0 <= s < |a| ==> a[s] == b[s].(data := a[s].data) && |a[s].data| == |b[s].data|
  }

  predicate SameOutside(a: seq<Section>, b: seq<Section>, refs: seq<Ref>)
    requires SameFrame(a, b)
  {
    forall s, k | 0 <= s < |a| && 0 <= k < |a[s].data| && Outside(refs, s, k) :: a[s].data[k] == b[s].data[k]
  }

  predicate Patched(env: Env, a: seq<Section>, b: seq<Section>, ref: Ref)
    requires SameFrame(a, b) && InData(b, ref) && SiteExists(env, ref)
  {
    WordAt(a, ref) == PatchedWord(WordAt(b, ref), Wrap32(Distance(env, ref)))
  }

  lemma PatchEffect(env: Env, sections: seq<Section>, ref: Ref)
    requires |sections| == |env.locs| && SiteExists(env, ref) && InData(sections, ref)
    ensures var r := Patch(env, sections, ref);
            SameFrame(r, sections) && Patched(env, r, sections, ref) && SameOutside(r, sections, [ref])
  {
    var data, offset := sections[ref.section].data, Wrap32(Distance(env, ref));
    var old4 := data[ref.pos..ref.pos + 4];
    FromBytes4(old4);
    var chunk := Pack32(PatchedWord(FromBytes(old4), offset));
    var data' := PatchData(data, ref.pos, offset);
    assert data' == data[..ref.pos] + chunk + data[ref.pos + 4..];
    assert At(data', ref.pos, chunk);
    Get32At(data', ref.pos, PatchedWord(FromBytes(old4), offset));
    assert forall s: nat, k: nat | Outside([ref], s, k) :: [ref][0].section != s || k < ref.pos || ref.pos + 4 <= k;
  }

  lemma SameWord(a: seq<Section>, b: seq<Section>, refs: seq<Ref>, ref: Ref)
    requires SameFrame(a, b) && InData(b, ref) && SameOutside(a, b, refs)
    requires forall j :: 0 <= j < |refs| ==> Apart(refs[j], ref)
    ensures WordAt(a, ref) == WordAt(b, ref)
  {
    forall k | ref.pos <= k < ref.pos + 4 ensures a[ref.section].data[k] == b[ref.section].data[k] {
      assert Outside(refs, ref.section, k);
    }
  }

  lemma SameOutsideTrans(a: seq<Section>, b: seq<Section>, c: seq<Section>, head: Ref, rest: seq<Ref>)
    requires SameFrame(a, b) && SameFrame(b, c) && SameOutside(a, b, rest) && SameOutside(b, c, [head])
    ensures SameFrame(a, c) && SameOutside(a, c, [head] + rest)
  {
    forall s, k | 0 <= s < |a| && 0 <= k < |a[s].data| && Outside([head] + rest, s, k)
      ensures a[s].data[k] == c[s].data[k]
    {
      assert ([head] + rest)[0] == head && forall i :: 0 <= i < |rest| ==> rest[i] == ([head] + rest)[i + 1];
      assert Outside(rest, s, k) && Outside([head], s, k);
    }
  }

  lemma GoodSitesRest(env: Env, sections: seq<Section>, next: seq<Section>, refs: seq<Ref>)
    requires GoodSites(env, sections, refs) && refs != [] && SameFrame(next, sections)
    ensures GoodSites(env, next, refs[1..])
    ensures forall j :: 0 <= j < |refs[1..]| ==> Apart(refs[1..][j], refs[0]) && Apart(refs[0], refs[1..][j])
  {
  }

  /** After all patches every site holds its own word, patched once, and every byte outside the sites is
      what it was. */
  lemma {:induction false} PatchesHold(env: Env, sections: seq<Section>, refs: seq<Ref>)
    requires GoodSites(env, sections, refs)
    ensures var r := ApplyPatches(env, sections, refs);
            && SameFrame(r, sections)
            && SameOutside(r, sections, refs)
            && forall i :: 0 <= i < |refs| ==> Patched(env, r, sections, refs[i])
    decreases |refs|
  {
    if refs != [] {
      var head, rest, mid := refs[0], refs[1..], Patch(env, sections, refs[0]);
      PatchEffect(env, sections, head);
      GoodSitesRest(env, sections, mid, refs);
      PatchesHold(env, mid, rest);
      var r := ApplyPatches(env, mid, rest);
      assert refs == [head] + rest;
      SameOutsideTrans(r, mid, sections, head, rest);
      SameWord(r, mid, rest, head);
      forall i | 1 <= i < |refs| ensures Patched(env, r, sections, refs[i]) {
        assert refs[i] == rest[i - 1] && Patched(env, r, mid, rest[i - 1]);
        SameWord(mid, sections, [head], refs[i]);
      }
    }
  }

  /** The address that a branch names once the module is loaded at `base`: a section with an offset in the file stands
      at that offset, a section without one at `place`, wherever the loader puts it. */
  function Named(env: Env, ref: Ref, base: int, place: int): int
    requires SiteExists(env, ref)
  {
    var loc := env.locs[GoalSection(env, ref)];
    (if loc != 0 then base + loc else place) + GoalOffset(env, ref)
  }

  /** The branch at `ref`, patched to `w`, goes to the address that it names. */
  predicate GoesTo(env: Env, w: U32, ref: Ref, base: int, place: int)
    requires SiteExists(env, ref)
  {
    BranchTarget(w, base + (env.locs[ref.section] + ref.pos)) == Wrap32(Named(env, ref, base, place))
  }

  /** What a branch needs in order to be resolved in the file. */
  predicate Resolvable(env: Env, word: U32, ref: Ref)
    requires SiteExists(env, ref)
  {
    !IsAbsolute(word) && env.locs[GoalSection(env, ref)] != 0 && InBranchRange(Nearest(Distance(env, ref)))
  }

  /** It does so at every load base and every placement of a section without data. */
  ghost predicate AlwaysGoes(env: Env, w: U32, ref: Ref)
    requires SiteExists(env, ref)
  {
    forall base, place :: GoesTo(env, w, ref, base, place)
  }

  /** A branch word that keeps its opcode and its AA and LK bits and goes to the address it names, at every load base
      and every placement of a section without data, exactly when it is relative, its goal is in a section with data
      and the distance fits. */
  ghost predicate Reaches(env: Env, a: seq<Section>, b: seq<Section>, ref: Ref)
    requires SameFrame(a, b) && InData(b, ref) && SiteExists(env, ref)
  {
    var w := WordAt(a, ref);
    && w / 0x400_0000 == WordAt(b, ref) / 0x400_0000
    && w % 4 == WordAt(b, ref) % 4
    && (AlwaysGoes(env, w, ref) <==> Resolvable(env, WordAt(b, ref), ref))
  }

  lemma PatchedReaches(env: Env, a: seq<Section>, b: seq<Section>, ref: Ref)
    requires SameFrame(a, b) && InData(b, ref) && SiteExists(env, ref) && Patched(env, a, b, ref)
    ensures Reaches(env, a, b, ref)
  {
    var word := WordAt(b, ref);
    if Resolvable(env, word, ref) {
      forall base, place ensures GoesTo(env, WordAt(a, ref), ref, base, place) {
        RelativeBranch(env, word, ref, base, place);
      }
    } else {
      BranchMisses(env, word, ref);
    }
  }

  lemma RelativeBranch(env: Env, word: U32, ref: Ref, base: int, place: int)
    requires SiteExists(env, ref) && !IsAbsolute(word) && env.locs[GoalSection(env, ref)] != 0
    ensures GoesTo(env, PatchedWord(word, Wrap32(Distance(env, ref))), ref, base, place)
       <==> InBranchRange(Nearest(Distance(env, ref)))
  {
    var site, goal := base + (env.locs[ref.section] + ref.pos), base + Goal(env, ref);
    assert goal - site == Distance(env, ref);
    BranchReaches(word, site, goal);
  }

  /** Otherwise some base or some placement makes the branch miss. */
  lemma BranchMisses(env: Env, word: U32, ref: Ref)
    requires SiteExists(env, ref) && !Resolvable(env, word, ref)
    ensures !AlwaysGoes(env, PatchedWord(word, Wrap32(Distance(env, ref))), ref)
  {
    var w := PatchedWord(word, Wrap32(Distance(env, ref)));
    SameLowBits(word, w);
    if env.locs[GoalSection(env, ref)] == 0 {
      assert Wrap32(Named(env, ref, 0, 0)) != Wrap32(Named(env, ref, 0, 1));
      assert !GoesTo(env, w, ref, 0, 0) || !GoesTo(env, w, ref, 0, 1);
    } else if IsAbsolute(word) {
      assert Wrap32(Named(env, ref, 0, 0)) != Wrap32(Named(env, ref, 1, 0));
      assert !GoesTo(env, w, ref, 0, 0) || !GoesTo(env, w, ref, 1, 0);
    } else {
      RelativeBranch(env, word, ref, 0, 0);
    }
  }
}
