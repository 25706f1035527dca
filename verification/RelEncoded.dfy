/** What the tables of the encoder of tools/build_rel.py are to the writer of tools/relfile.py: closed by STOP, with
    plain section changes, and when resolving branches in them loses no gap and overflows none. */
module RelEncoded {
  import opened RelFormat
  import opened RelLayout
  import opened RelPatch
  import opened RelRepair
  import opened RelScan
  import opened RelTable
  import opened RelTypes

  // ----- the shape of an encoded table -----

  predicate KnownGroups(groups: seq<Group>) {
    forall i :: 0 <= i < |groups| ==> KnownRelocs(groups[i].relocs)
  }

  predicate KnownRelocs(relocs: seq<ElfReloc>) {
    forall i :: 0 <= i < |relocs| ==> KnownType(relocs[i].0.kind) && relocs[i].0.kind < R_RVL_NONE
  }

  /** An entry in front of STOP. */
  predicate Inner(r: Reloc) {
    KnownType(r.kind) && r.kind != R_RVL_STOP && (r.kind == R_RVL_SECT ==> r.offset == 0)
  }

  predicate AllInner(table: seq<Reloc>) {
    forall i :: 0 <= i < |table| ==> Inner(table[i])
  }

  lemma InnerConcat(a: seq<Reloc>, b: seq<Reloc>)
    requires AllInner(a) && AllInner(b)
    ensures AllInner(a + b)
  {
  }

  lemma {:induction false} EntriesInner(gap: nat, e: ElfReloc)
    requires KnownType(e.0.kind) && e.0.kind < R_RVL_NONE
    ensures AllInner(Entries(gap, e))
  {
    if gap > MAX_GAP { EntriesInner(gap - MAX_GAP, e); }
  }

  lemma {:induction false} EncodedInner(relocs: seq<ElfReloc>, pos: nat)
    requires SortedFrom(relocs, pos) && KnownRelocs(relocs)
    ensures AllInner(EncodeFrom(relocs, pos))
    decreases |relocs|
  {
    if relocs != [] {
      EntriesInner(relocs[0].0.offset - pos, relocs[0]);
      EncodedInner(relocs[1..], relocs[0].0.offset);
    }
  }

  lemma {:induction false} BodyInner(groups: seq<Group>)
    requires SortedGroups(groups) && KnownGroups(groups)
    ensures AllInner(EncodeBody(groups))
  {
    if groups != [] {
      var g := groups[0];
      assert SortedFrom(g.relocs, 0) && KnownRelocs(g.relocs);
      EncodedInner(g.relocs, 0);
      InnerConcat([SectionChange(g.secIdx)], EncodeFrom(g.relocs, 0));
      BodyInner(groups[1..]);
    }
  }

  /** An encoded table meets what the writer and the reader ask of a table. */
  lemma EncodedShape(env: Env, mod: nat, groups: seq<Group>)
    requires SortedGroups(groups) && KnownGroups(groups)
    ensures var table := EncodeGroups(groups);
            Terminated(table) && PlainSectionChanges(table) && Scannable(env, mod, table)
  {
    BodyInner(groups);
    InnerThenStop(env, mod, EncodeBody(groups));
  }

  lemma InnerThenStop(env: Env, mod: nat, body: seq<Reloc>)
    requires AllInner(body)
    ensures var table := body + [Stop];
            Terminated(table) && PlainSectionChanges(table) && Scannable(env, mod, table)
  {
    var table := body + [Stop];
    assert table[|table| - 1] == Stop;
    forall i | 0 <= i < |body| ensures table[i] == body[i] && Inner(table[i]) {
    }
  }

  // ----- gaps that resolving branches loses -----

  /** The references of one section, from the one behind `pos` on: wherever one is so far away that a filler stands
      before it, all branches since the last other reference, which stood at `anchor`, were there too. */
  predicate GapsKept(refs: seq<Ref>, pos: nat, anchor: nat) {
    refs == []
    || ((refs[0].pos - pos > MAX_GAP ==> pos == anchor)
        && GapsKept(refs[1..], refs[0].pos, if refs[0].kind == R_PPC_REL24 then anchor else refs[0].pos))
  }

  /** The position of the last reference before the `i`th that is not a branch, 0 for none. */
  function Anchor(refs: seq<Ref>, i: nat): nat
    requires i <= |refs|
  {
    if i == 0 then 0 else if refs[i - 1].kind != R_PPC_REL24 then refs[i - 1].pos else Anchor(refs, i - 1)
  }

  /** No run of branches with a positive gap has its last branch followed, more than a filler away, by another
      reference of the section. */
  predicate BranchesNear(refs: seq<Ref>) {
    forall i :: 1 <= i < |refs| && refs[i].pos - refs[i - 1].pos > MAX_GAP ==> refs[i - 1].pos == Anchor(refs, i)
  }

  lemma {:induction false} GapsKeptIndex(refs: seq<Ref>, k: nat, pos: nat, anchor: nat)
    requires k <= |refs| && anchor == Anchor(refs, k) && pos == (if k == 0 then 0 else refs[k - 1].pos)
    ensures GapsKept(refs[k..], pos, anchor)
       <==> forall i :: k <= i < |refs| && i > 0 && refs[i].pos - refs[i - 1].pos > MAX_GAP ==>
              refs[i - 1].pos == Anchor(refs, i)
    decreases |refs| - k
  {
    if k < |refs| {
      assert refs[k..][0] == refs[k] && refs[k..][1..] == refs[k + 1..];
      GapsKeptIndex(refs, k + 1, refs[k].pos, Anchor(refs, k + 1));
    }
  }

  lemma NearMeansKept(refs: seq<Ref>)
    ensures GapsKept(refs, 0, 0) <==> BranchesNear(refs)
  {
    GapsKeptIndex(refs, 0, 0, 0);
    assert refs[0..] == refs;
  }

  /** Only whether there is a deleted gap matters. */
  lemma {:induction false} SafeCarry(table: seq<Reloc>, a: nat, b: nat)
    requires a > 0 <==> b > 0
    ensures SafeFrom(table, a) <==> SafeFrom(table, b)
    decreases |table|
  {
    if table != [] && table[0].kind == R_PPC_REL24 {
      SafeCarry(table[1..], a + table[0].offset, b + table[0].offset);
    }
  }

  lemma {:induction false} EntriesNotDone(gap: nat, e: ElfReloc, rest: seq<Reloc>)
    requires e.0.kind < R_RVL_NONE
    ensures !SectionDone(Entries(gap, e) + rest)
  {
    if gap > MAX_GAP {
      EntriesNotDone(gap - MAX_GAP, e, rest);
      FillerFirst(Entries(gap - MAX_GAP, e), rest);
    }
  }

  lemma FillerFirst(a: seq<Reloc>, rest: seq<Reloc>)
    ensures ([Filler] + a + rest)[0] == Filler && ([Filler] + a + rest)[1..] == a + rest
  {
  }

  lemma {:induction false} EntriesSafe(gap: nat, e: ElfReloc, rest: seq<Reloc>, carry: nat)
    requires e.0.kind < R_RVL_NONE
    ensures SafeFrom(Entries(gap, e) + rest, carry)
       <==> (gap > MAX_GAP ==> carry == 0) && SafeFrom(rest, if e.0.kind == R_PPC_REL24 then carry + gap else 0)
  {
    if gap > MAX_GAP {
      var a := Entries(gap - MAX_GAP, e);
      FillerFirst(a, rest);
      EntriesNotDone(gap, e, rest);
      EntriesSafe(gap - MAX_GAP, e, rest, 0);
      SafeCarry(rest, gap - MAX_GAP, carry + gap);
    } else {
      var r := Reloc(gap, e.0.kind, e.1.shndx, e.1.value + e.0.addend);
      assert Entries(gap, e) == [r] && ([r] + rest)[0] == r && ([r] + rest)[1..] == rest;
    }
  }

  /** What follows the entries of a section: a section change or STOP. */
  predicate Next(rest: seq<Reloc>) {
    rest != [] && rest[0].kind >= R_RVL_NONE && SectionDone(rest)
  }

  lemma NextSafe(rest: seq<Reloc>, carry: nat)
    requires Next(rest)
    ensures SafeFrom(rest, carry) <==> SafeFrom(rest, 0)
  {
  }

  lemma {:induction false} EncodedSafe(relocs: seq<ElfReloc>, refs: seq<Ref>, mod: nat, sec: nat, pos: nat, anchor: nat,
                                       rest: seq<Reloc>)
    requires SortedFrom(relocs, pos) && RealTypes(relocs) && refs == Wanted(mod, relocs, sec) && anchor <= pos
    requires Next(rest)
    ensures SafeFrom(EncodeFrom(relocs, pos) + rest, pos - anchor)
       <==> GapsKept(refs, pos, anchor) && SafeFrom(rest, 0)
    decreases |relocs|
  {
    if relocs == [] {
      assert EncodeFrom(relocs, pos) + rest == rest;
      NextSafe(rest, pos - anchor);
    } else {
      var e, at := relocs[0], relocs[0].0.offset;
      var anchor' := if e.0.kind == R_PPC_REL24 then anchor else at;
      var tail := EncodeFrom(relocs[1..], at);
      WantedCons(relocs, refs, mod, sec);
      EncodedSafe(relocs[1..], refs[1..], mod, sec, at, anchor', rest);
      EntriesSafe(at - pos, e, tail + rest, pos - anchor);
      EncodedHead(relocs, pos, rest);
    }
  }

  /** Every section of the module's table has its branches near. */
  predicate AllNear(mod: nat, groups: seq<Group>) {
    forall i :: 0 <= i < |groups| ==> BranchesNear(Wanted(mod, groups[i].relocs, groups[i].secIdx))
  }

  lemma BodyCons(groups: seq<Group>)
    requires SortedGroups(groups) && groups != []
    ensures SortedFrom(groups[0].relocs, 0) && SortedGroups(groups[1..])
    ensures EncodeGroups(groups)
         == [SectionChange(groups[0].secIdx)] + (EncodeFrom(groups[0].relocs, 0) + EncodeGroups(groups[1..]))
  {
    assert SortedFrom(groups[0].relocs, 0);
    var change, section := [SectionChange(groups[0].secIdx)], EncodeFrom(groups[0].relocs, 0);
    var body := EncodeBody(groups[1..]);
    assert (change + section) + body + [Stop] == change + (section + (body + [Stop]));
  }

  lemma GroupsNext(groups: seq<Group>)
    requires SortedGroups(groups)
    ensures Next(EncodeGroups(groups))
  {
    if groups == [] {
      assert EncodeGroups(groups) == [Stop] && [Stop][1..] == [];
    } else {
      BodyCons(groups);
    }
  }

  lemma {:induction false} GroupsSafe(mod: nat, groups: seq<Group>)
    requires SortedGroups(groups) && RealGroups(groups)
    ensures SafeFrom(EncodeGroups(groups), 0) <==> AllNear(mod, groups)
    decreases |groups|
  {
    if groups == [] {
      assert EncodeGroups(groups) == [Stop] && [Stop][1..] == [];
    } else {
      var g, rest := groups[0], EncodeGroups(groups[1..]);
      BodyCons(groups);
      assert RealTypes(g.relocs);
      GroupsNext(groups[1..]);
      GroupsSafe(mod, groups[1..]);
      var refs := Wanted(mod, g.relocs, g.secIdx);
      EncodedSafe(g.relocs, refs, mod, g.secIdx, 0, 0, rest);
      NearMeansKept(refs);
      ChangeSafe(g.secIdx, EncodeFrom(g.relocs, 0) + rest);
      AllNearCons(mod, groups);
    }
  }

  lemma ChangeSafe(sec: nat, rest: seq<Reloc>)
    ensures SafeFrom([SectionChange(sec)] + rest, 0) <==> SafeFrom(rest, 0)
  {
    assert ([SectionChange(sec)] + rest)[1..] == rest;
  }

  lemma AllNearCons(mod: nat, groups: seq<Group>)
    requires groups != []
    ensures AllNear(mod, groups)
       <==> BranchesNear(Wanted(mod, groups[0].relocs, groups[0].secIdx)) && AllNear(mod, groups[1..])
  {
    var rest := groups[1..];
    assert forall i :: 1 <= i < |groups| ==> groups[i] == rest[i - 1];
    if AllNear(mod, groups) {
      forall i | 0 <= i < |rest| ensures BranchesNear(Wanted(mod, rest[i].relocs, rest[i].secIdx)) {
        assert rest[i] == groups[i + 1];
      }
    }
  }

  /** Resolving the branches of an encoded table loses no needed gap exactly when in every section no run of branches
      with a positive gap is followed, more than 0xFFFF later, by another relocation. */
  lemma EncodedGapSafe(mod: nat, groups: seq<Group>)
    requires SortedGroups(groups) && RealGroups(groups)
    ensures GapSafe(EncodeGroups(groups)) <==> AllNear(mod, groups)
  {
    var table := EncodeGroups(groups);
    GroupsSafe(mod, groups);
    SafeFromIndex(table, 0, 0);
    assert table[0..] == table;
  }

  // ----- gaps that resolving branches makes too large -----

  /** The gap of an entry behind its fillers. */
  function Left(gap: nat): (r: nat)
    ensures r <= MAX_GAP
  {
    if gap > MAX_GAP then Left(gap - MAX_GAP) else gap
  }

  predicate RefFits(r: Ref) {
    r.kind < 256 && r.target < 256 && 0 <= r.addend < 0x1_0000_0000
  }

  /** The references of one section, from the one behind `pos` on and behind deleted gaps of `carry`: every one that is
      left fits its entry together with the gaps that were deleted before it. */
  predicate Refits(refs: seq<Ref>, pos: nat, carry: nat) {
    if refs == [] then true
    else
      var r := refs[0];
      pos <= r.pos
      && var gap := Deleted(r.pos - pos, carry);
         if r.kind == R_PPC_REL24 then Refits(refs[1..], r.pos, gap)
         else gap <= MAX_GAP && RefFits(r) && Refits(refs[1..], r.pos, 0)
  }

  function EntryOf(gap: nat, e: ElfReloc): Reloc {
    Reloc(gap, e.0.kind, e.1.shndx, e.1.value + e.0.addend)
  }

  /** The gap of an entry, with the deleted gaps before it unless a filler stands between. */
  function Deleted(gap: nat, carry: nat): nat {
    Left(gap) + (if gap > MAX_GAP then 0 else carry)
  }

  /** A branch hands its gap on, another entry must fit with it. */
  predicate FitsThen(gap: nat, e: ElfReloc, rest: seq<Reloc>) {
    if e.0.kind == R_PPC_REL24 then TableFits(Survivors(rest, gap))
    else RelocFits(EntryOf(gap, e)) && TableFits(Survivors(rest, 0))
  }

  lemma {:induction false} EntriesSurvive(gap: nat, e: ElfReloc, rest: seq<Reloc>, carry: nat)
    requires e.0.kind < R_RVL_NONE
    ensures TableFits(Survivors(Entries(gap, e) + rest, carry)) <==> FitsThen(Deleted(gap, carry), e, rest)
  {
    if gap > MAX_GAP {
      var a := Entries(gap - MAX_GAP, e);
      FillerFirst(a, rest);
      EntriesSurvive(gap - MAX_GAP, e, rest, 0);
      TableFitsCons(Filler, Survivors(a + rest, 0));
    } else {
      var r := EntryOf(gap, e);
      assert Entries(gap, e) == [r] && ([r] + rest)[0] == r && ([r] + rest)[1..] == rest;
      TableFitsCons(EntryOf(gap + carry, e), Survivors(rest, 0));
    }
  }

  lemma NextSurvives(rest: seq<Reloc>, carry: nat)
    requires Next(rest)
    ensures Survivors(rest, carry) == Survivors(rest, 0)
  {
  }

  lemma {:induction false} EncodedSurvive(relocs: seq<ElfReloc>, refs: seq<Ref>, mod: nat, sec: nat, pos: nat,
                                          carry: nat, rest: seq<Reloc>)
    requires SortedFrom(relocs, pos) && RealTypes(relocs) && refs == Wanted(mod, relocs, sec) && Next(rest)
    ensures TableFits(Survivors(EncodeFrom(relocs, pos) + rest, carry))
       <==> Refits(refs, pos, carry) && TableFits(Survivors(rest, 0))
    decreases |relocs|
  {
    if relocs == [] {
      assert EncodeFrom(relocs, pos) + rest == rest;
      NextSurvives(rest, carry);
    } else {
      var e, at: nat := relocs[0], relocs[0].0.offset;
      var gap, tail := Deleted(at - pos, carry), EncodeFrom(relocs[1..], at);
      WantedCons(relocs, refs, mod, sec);
      EncodedSurvive(relocs[1..], refs[1..], mod, sec, at, if e.0.kind == R_PPC_REL24 then gap else 0, rest);
      EntriesSurvive(at - pos, e, tail + rest, carry);
      EncodedHead(relocs, pos, rest);
      RefitsCons(refs, pos, carry, gap, e, tail + rest);
    }
  }

  lemma EncodedHead(relocs: seq<ElfReloc>, pos: nat, rest: seq<Reloc>)
    requires relocs != [] && SortedFrom(relocs, pos)
    ensures var at := relocs[0].0.offset;
            EncodeFrom(relocs, pos) + rest
            == Entries(at - pos, relocs[0]) + (EncodeFrom(relocs[1..], at) + rest)
  {
  }

  lemma WantedCons(relocs: seq<ElfReloc>, refs: seq<Ref>, mod: nat, sec: nat)
    requires relocs != [] && refs == Wanted(mod, relocs, sec)
    ensures var e := relocs[0];
            refs[0] == Ref(sec, e.0.offset, e.0.kind, mod, e.1.shndx, e.1.value + e.0.addend)
    ensures refs[1..] == Wanted(mod, relocs[1..], sec)
  {
  }

  lemma RefitsCons(refs: seq<Ref>, pos: nat, carry: nat, gap: nat, e: ElfReloc, rest: seq<Reloc>)
    requires refs != [] && pos <= refs[0].pos && gap == Deleted(refs[0].pos - pos, carry) && e.0.kind == refs[0].kind
    requires e.0.kind < R_RVL_NONE && e.1.shndx == refs[0].target && e.1.value + e.0.addend == refs[0].addend
    ensures Refits(refs, pos, carry)
       <==> if e.0.kind == R_PPC_REL24 then Refits(refs[1..], refs[0].pos, gap)
            else RelocFits(EntryOf(gap, e)) && Refits(refs[1..], refs[0].pos, 0)
  {
  }

  /** The entries of every section can be written once the branches are resolved. */
  predicate AllRefit(mod: nat, groups: seq<Group>) {
    forall i :: 0 <= i < |groups| ==>
      groups[i].secIdx < 256 && Refits(Wanted(mod, groups[i].relocs, groups[i].secIdx), 0, 0)
  }

  lemma AllRefitCons(mod: nat, groups: seq<Group>)
    requires groups != []
    ensures AllRefit(mod, groups)
       <==> groups[0].secIdx < 256 && Refits(Wanted(mod, groups[0].relocs, groups[0].secIdx), 0, 0)
            && AllRefit(mod, groups[1..])
  {
    var rest := groups[1..];
    assert forall i :: 1 <= i < |groups| ==> groups[i] == rest[i - 1];
    if AllRefit(mod, groups) {
      forall i | 0 <= i < |rest|
        ensures rest[i].secIdx < 256 && Refits(Wanted(mod, rest[i].relocs, rest[i].secIdx), 0, 0)
      {
        assert rest[i] == groups[i + 1];
      }
    }
  }

  lemma {:induction false} GroupsSurvive(mod: nat, groups: seq<Group>)
    requires SortedGroups(groups) && RealGroups(groups)
    ensures TableFits(Survivors(EncodeGroups(groups), 0)) <==> AllRefit(mod, groups)
    decreases |groups|
  {
    if groups == [] {
      assert EncodeGroups(groups) == [Stop] && [Stop][1..] == [];
      assert Survivors([Stop], 0) == [Stop];
    } else {
      var g, rest := groups[0], EncodeGroups(groups[1..]);
      BodyCons(groups);
      assert RealTypes(g.relocs);
      GroupsNext(groups[1..]);
      GroupsSurvive(mod, groups[1..]);
      EncodedSurvive(g.relocs, Wanted(mod, g.relocs, g.secIdx), mod, g.secIdx, 0, 0, rest);
      ChangeSurvives(g.secIdx, EncodeFrom(g.relocs, 0) + rest);
      AllRefitCons(mod, groups);
    }
  }

  lemma ChangeSurvives(sec: nat, rest: seq<Reloc>)
    ensures TableFits(Survivors([SectionChange(sec)] + rest, 0)) <==> sec < 256 && TableFits(Survivors(rest, 0))
  {
    assert ([SectionChange(sec)] + rest)[1..] == rest;
    TableFitsCons(SectionChange(sec), Survivors(rest, 0));
  }

  /** The own module's encoded table can be written once its branches are resolved exactly when no run of branches
      leaves a gap of more than 0xFFFF and every field of the others fits. */
  lemma EncodedRefits(mod: nat, groups: seq<Group>)
    requires SortedGroups(groups) && RealGroups(groups)
    ensures RepairedFits(EncodeGroups(groups)) <==> AllRefit(mod, groups)
  {
    var table := EncodeGroups(groups);
    GroupsSurvive(mod, groups);
    SurvivorsFit(table, 0, 0);
    assert table[0..] == table;
  }

  // ----- the table of another module -----

  predicate AllRefsFit(refs: seq<Ref>) {
    forall i :: 0 <= i < |refs| ==> RefFits(refs[i])
  }

  lemma FitsConcat(a: seq<Reloc>, b: seq<Reloc>)
    requires TableFits(a) && TableFits(b)
    ensures TableFits(a + b)
  {
  }

  lemma {:induction false} EntriesFitField(gap: nat, e: ElfReloc)
    requires RelocFits(EntryOf(0, e))
    ensures TableFits(Entries(gap, e))
  {
    if gap > MAX_GAP { EntriesFitField(gap - MAX_GAP, e); }
  }

  lemma {:induction false} EncodedFit(mod: nat, relocs: seq<ElfReloc>, sec: nat, pos: nat)
    requires SortedFrom(relocs, pos) && AllRefsFit(Wanted(mod, relocs, sec))
    ensures TableFits(EncodeFrom(relocs, pos))
    decreases |relocs|
  {
    if relocs != [] {
      var refs, rest := Wanted(mod, relocs, sec), Wanted(mod, relocs[1..], sec);
      assert RefFits(refs[0]);
      assert forall i :: 0 <= i < |rest| ==> rest[i] == refs[i + 1];
      EntriesFitField(relocs[0].0.offset - pos, relocs[0]);
      EncodedFit(mod, relocs[1..], sec, relocs[0].0.offset);
      FitsConcat(Entries(relocs[0].0.offset - pos, relocs[0]), EncodeFrom(relocs[1..], relocs[0].0.offset));
    }
  }

  /** A table in which nothing is deleted can be written if its fields fit; its gaps always do. */
  lemma {:induction false} EncodedTableFits(mod: nat, groups: seq<Group>)
    requires SortedGroups(groups)
    requires forall i :: 0 <= i < |groups| ==>
               groups[i].secIdx < 256 && AllRefsFit(Wanted(mod, groups[i].relocs, groups[i].secIdx))
    ensures TableFits(EncodeGroups(groups))
    decreases |groups|
  {
    if groups == [] {
      assert EncodeGroups(groups) == [Stop];
    } else {
      var g, rest := groups[0], EncodeGroups(groups[1..]);
      BodyCons(groups);
      EncodedFit(mod, g.relocs, g.secIdx, 0);
      EncodedTableFits(mod, groups[1..]);
      FitsConcat(EncodeFrom(g.relocs, 0), rest);
      FitsConcat([SectionChange(g.secIdx)], EncodeFrom(g.relocs, 0) + rest);
    }
  }
}
