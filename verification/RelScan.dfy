/** The scan of `Rel._try_relocate_rel24` in tools/relfile.py: which entries it deletes, where it sees every
    relocation, and when deleting branches keeps all positions. */
module RelScan {
  import opened RelPatch
  import opened RelTable
  import opened RelTypes

  // ----- the scan of one table -----

  /** The next table, once its first entry is deleted and its gap handed to the next entry. */
  function AfterDelete(table: seq<Reloc>): (r: seq<Reloc>)
    requires |table| >= 2
    ensures |r| == |table| - 1
  {
    if table[1].kind < R_RVL_NONE then
      [table[1].(offset := table[1].offset + table[0].offset)] + table[2..]
    else table[1..]
  }

  /** Behind every branch that is deleted the scan looks at the next entry. */
  predicate Scannable(env: Env, mod: nat, table: seq<Reloc>) {
    mod == env.index && table != [] ==> table[|table| - 1].kind != R_PPC_REL24
  }

  datatype Outcome = Outcome(table: seq<Reloc>, refs: seq<Ref>)

  /** The scan of a table from `pos` of `sec`: the table that is left, and every reference as the scan
      saw it, at the position the scan had reached. */
  function Scan(env: Env, mod: nat, table: seq<Reloc>, pos: nat, sec: nat): (r: Outcome)
    requires Scannable(env, mod, table)
    decreases |table|
  {
    if table == [] then Outcome([], [])
    else
      var r := table[0];
      var sec' := if r.kind == R_RVL_SECT then r.section else sec;
      var pos' := if r.kind == R_RVL_SECT then r.offset else pos + r.offset;
      var here := if IsRef(r) then [Ref(sec', pos', r.kind, mod, r.section, r.addend)] else [];
      if r.kind == R_PPC_REL24 && mod == env.index then
        var rest := Scan(env, mod, AfterDelete(table), pos, sec);
        Outcome(rest.table, here + rest.refs)
      else
        var rest := Scan(env, mod, table[1..], pos', sec');
        Outcome([r] + rest.table, here + rest.refs)
  }

  /** A table of the own module, whose change of section has a gap of 4: the scan counts from there on. The branch goes,
      and its gap is added to the entry behind it. */
  lemma ScanExample(env: Env, mod: nat)
    requires env.index == mod
    ensures var t := [Reloc(4, 202, 1, 0), Reloc(0x10, 10, 3, 8), Reloc(8, 1, 5, 0x20), Reloc(0, 203, 0, 0)];
            && Scannable(env, mod, t)
            && Scan(env, mod, t, 0, 0) == Outcome([Reloc(4, 202, 1, 0), Reloc(0x18, 1, 5, 0x20), Reloc(0, 203, 0, 0)],
                                                  [Ref(1, 0x14, 10, mod, 3, 8), Ref(1, 0x1C, 1, mod, 5, 0x20)])
  {
    var a, b, c, d := Reloc(4, 202, 1, 0), Reloc(0x10, 10, 3, 8), Reloc(8, 1, 5, 0x20), Reloc(0, 203, 0, 0);
    assert [a, b, c, d][1..] == [b, c, d];
    ExampleBranch(env, mod, b, c, d);
  }

  lemma ExampleBranch(env: Env, mod: nat, b: Reloc, c: Reloc, d: Reloc)
    requires env.index == mod && b == Reloc(0x10, 10, 3, 8) && c == Reloc(8, 1, 5, 0x20) && d == Reloc(0, 203, 0, 0)
    ensures Scan(env, mod, [b, c, d], 4, 1) == Outcome([Reloc(0x18, 1, 5, 0x20), d],
                                                       [Ref(1, 0x14, 10, mod, 3, 8), Ref(1, 0x1C, 1, mod, 5, 0x20)])
  {
    var c' := Reloc(0x18, 1, 5, 0x20);
    assert [b, c, d][2..] == [d] && [c', d][1..] == [d] && [d][1..] == [];
    assert AfterDelete([b, c, d]) == [c', d];
    assert Scan(env, mod, [d], 0x1C, 1) == Outcome([d], []);
    assert Scan(env, mod, [c', d], 4, 1) == Outcome([c', d], [Ref(1, 0x1C, 1, mod, 5, 0x20)]);
  }

  function Branches(refs: seq<Ref>): seq<Ref> {
    if refs == [] then []
    else (if refs[0].kind == R_PPC_REL24 then [refs[0]] else []) + Branches(refs[1..])
  }

  function Others(refs: seq<Ref>): seq<Ref> {
    if refs == [] then []
    else (if refs[0].kind == R_PPC_REL24 then [] else [refs[0]]) + Others(refs[1..])
  }

  /** Every branch of a table, from section `sec` on, has a section to stand in and a section to aim at. */
  predicate SitesKnown(env: Env, mod: nat, table: seq<Reloc>, sec: nat) {
    if table == [] then true
    else
      var r := table[0];
      var sec' := if r.kind == R_RVL_SECT then r.section else sec;
      && (r.kind == R_PPC_REL24 ==>
            sec' < |env.locs| && (if mod == env.index then r.section else env.unresolvedSection) < |env.locs|)
      && SitesKnown(env, mod, table[1..], sec')
  }

  lemma KnownAfterDelete(env: Env, mod: nat, table: seq<Reloc>, sec: nat)
    requires |table| >= 2
    ensures Scannable(env, mod, table) <==> Scannable(env, mod, AfterDelete(table))
    ensures SitesKnown(env, mod, table[1..], sec) <==> SitesKnown(env, mod, AfterDelete(table), sec)
  {
    var next, rest := AfterDelete(table), table[1..];
    assert next[1..] == rest[1..] && next[0].kind == rest[0].kind && next[0].section == rest[0].section;
    if |table| == 2 {
      assert next[|next| - 1] == next[0];
    } else {
      assert next[|next| - 1] == next[1..][|next| - 2] == table[|table| - 1];
    }
  }

  /** Then the branches that the scan meets have existing sites, and only then. */
  lemma {:induction false} ScanSites(env: Env, mod: nat, table: seq<Reloc>, pos: nat, sec: nat)
    requires Scannable(env, mod, table)
    ensures SitesExist(env, Branches(Scan(env, mod, table, pos, sec).refs)) <==> SitesKnown(env, mod, table, sec)
    decreases |table|
  {
    if table != [] {
      var r := table[0];
      var out := Scan(env, mod, table, pos, sec).refs;
      if r.kind == R_PPC_REL24 && mod == env.index {
        var rest := Scan(env, mod, AfterDelete(table), pos, sec).refs;
        ScanSites(env, mod, AfterDelete(table), pos, sec);
        KnownAfterDelete(env, mod, table, sec);
        assert out[1..] == rest;
        SitesCons(env, out);
      } else {
        var sec' := if r.kind == R_RVL_SECT then r.section else sec;
        var pos' := if r.kind == R_RVL_SECT then r.offset else pos + r.offset;
        var rest := Scan(env, mod, table[1..], pos', sec').refs;
        ScanSites(env, mod, table[1..], pos', sec');
        if IsRef(r) {
          assert out[1..] == rest;
          SitesCons(env, out);
        } else {
          assert out == rest;
        }
      }
    }
  }

  lemma SitesCons(env: Env, refs: seq<Ref>)
    requires refs != []
    ensures SitesExist(env, Branches(refs))
       <==> (refs[0].kind == R_PPC_REL24 ==> SiteExists(env, refs[0])) && SitesExist(env, Branches(refs[1..]))
  {
    var rest := Branches(refs[1..]);
    if refs[0].kind == R_PPC_REL24 {
      assert Branches(refs) == [refs[0]] + rest;
      SitesConcat(env, [refs[0]], rest);
      assert SitesExist(env, [refs[0]]) <==> SiteExists(env, [refs[0]][0]);
    } else {
      assert Branches(refs) == rest;
    }
  }

  lemma SitesConcat(env: Env, a: seq<Ref>, b: seq<Ref>)
    ensures SitesExist(env, a + b) <==> SitesExist(env, a) && SitesExist(env, b)
  {
    if SitesExist(env, a + b) {
      assert forall i :: 0 <= i < |a| ==> (a + b)[i] == a[i];
      assert forall i :: 0 <= i < |b| ==> (a + b)[|a| + i] == b[i];
    }
  }

  /** The section change entries carry no offset, as the encoder of tools/build_rel.py writes them. */
  predicate PlainSectionChanges(table: seq<Reloc>) {
    forall i :: 0 <= i < |table| && table[i].kind == R_RVL_SECT ==> table[i].offset == 0
  }

  /** Whatever the scan saw is what the table it leaves still says, without the branches it resolved. */
  lemma {:induction false} ScanKeepsOthers(env: Env, table: seq<Reloc>, pos: nat, sec: nat)
    requires Scannable(env, env.index, table) && PlainSectionChanges(table)
    ensures var r := Scan(env, env.index, table, pos, sec);
            ReadRefs(env.index, r.table, pos, sec) == Others(r.refs)
    decreases |table|
  {
    if table != [] {
      var r := table[0];
      var out := Scan(env, env.index, table, pos, sec);
      if r.kind == R_PPC_REL24 {
        var rest := Scan(env, env.index, AfterDelete(table), pos, sec);
        ScanKeepsOthers(env, AfterDelete(table), pos, sec);
        assert out.refs[1..] == rest.refs && out.table == rest.table;
        assert Others(out.refs) == Others(out.refs[1..]);
      } else {
        var sec' := if r.kind == R_RVL_SECT then r.section else sec;
        var pos' := if r.kind == R_RVL_SECT then 0 else pos + r.offset;
        var rest := Scan(env, env.index, table[1..], pos', sec');
        ScanKeepsOthers(env, table[1..], pos', sec');
        OthersKept(env, r, rest, out, pos, sec, pos', sec');
      }
    }
  }

  lemma OthersKept(env: Env, r: Reloc, rest: Outcome, out: Outcome, pos: nat, sec: nat, pos': nat, sec': nat)
    requires r.kind != R_PPC_REL24 && out.table == [r] + rest.table
    requires if r.kind == R_RVL_SECT then pos' == 0 && sec' == r.section else pos' == pos + r.offset && sec' == sec
    requires out.refs
          == (if IsRef(r) then [Ref(sec, pos', r.kind, env.index, r.section, r.addend)] else []) + rest.refs
    requires ReadRefs(env.index, rest.table, pos', sec') == Others(rest.refs)
    ensures ReadRefs(env.index, out.table, pos, sec) == Others(out.refs)
  {
    assert out.table[1..] == rest.table;
    if IsRef(r) {
      assert out.refs[1..] == rest.refs;
    } else {
      assert out.refs == rest.refs;
    }
  }

  /** In the table of another module nothing is deleted, and the scan's positions are the decoder's. */
  lemma {:induction false} ScanOtherModule(env: Env, mod: nat, table: seq<Reloc>, pos: nat, sec: nat)
    requires PlainSectionChanges(table) && mod != env.index
    ensures Scan(env, mod, table, pos, sec) == Outcome(table, ReadRefs(mod, table, pos, sec))
    decreases |table|
  {
    if table != [] {
      var r := table[0];
      var sec' := if r.kind == R_RVL_SECT then r.section else sec;
      var pos' := if r.kind == R_RVL_SECT then 0 else pos + r.offset;
      ScanOtherModule(env, mod, table[1..], pos', sec');
    }
  }

  // ----- when deletion keeps every position -----

  /** No reference follows in the section a table begins in. */
  predicate SectionDone(table: seq<Reloc>) {
    table == [] || table[0].kind == R_RVL_SECT || (!IsRef(table[0]) && SectionDone(table[1..]))
  }

  /** A branch at the head whose gap is dropped because the next entry is a marker, with a reference still
      to come in the same section. */
  predicate LosesGap(table: seq<Reloc>) {
    && |table| >= 2
    && table[0].kind == R_PPC_REL24 && table[0].offset > 0
    && table[1].kind >= R_RVL_NONE
    && !SectionDone(table[1..])
  }

  /** No deletion of the scan drops a gap that a later reference needs. */
  predicate DropsNothing(table: seq<Reloc>)
    decreases |table|
  {
    if |table| < 2 then true
    else if table[0].kind == R_PPC_REL24 then !LosesGap(table) && DropsNothing(AfterDelete(table))
    else DropsNothing(table[1..])
  }

  /** The gaps of the run of branches directly before entry `i`, all of which are deleted in the own module. */
  function RunBefore(table: seq<Reloc>, i: nat): nat
    requires i <= |table|
  {
    if i > 0 && table[i - 1].kind == R_PPC_REL24 then table[i - 1].offset + RunBefore(table, i - 1) else 0
  }

  /** Where a run of branches with a positive gap stands directly before a marker, no reference follows in the
      section. */
  predicate GapSafe(table: seq<Reloc>) {
    forall i :: 0 <= i < |table| && table[i].kind >= R_RVL_NONE && RunBefore(table, i) > 0 ==> SectionDone(table[i..])
  }

  /** The same from the head of a table on, behind deleted gaps of `carry`. */
  predicate SafeFrom(table: seq<Reloc>, carry: nat)
    decreases |table|
  {
    if table == [] then true
    else if table[0].kind == R_PPC_REL24 then SafeFrom(table[1..], carry + table[0].offset)
    else (table[0].kind >= R_RVL_NONE && carry > 0 ==> SectionDone(table)) && SafeFrom(table[1..], 0)
  }

  lemma {:induction false} SafeFromIndex(table: seq<Reloc>, k: nat, carry: nat)
    requires k <= |table| && carry == RunBefore(table, k)
    ensures SafeFrom(table[k..], carry)
       <==> forall i :: k <= i < |table| && table[i].kind >= R_RVL_NONE && RunBefore(table, i) > 0 ==>
              SectionDone(table[i..])
    decreases |table| - k
  {
    if k < |table| {
      var next := if table[k].kind == R_PPC_REL24 then carry + table[k].offset else 0;
      assert table[k..][0] == table[k] && table[k..][1..] == table[k + 1..];
      SafeFromIndex(table, k + 1, next);
    }
  }

  /** A deleted branch hands its gap to the next entry, or drops it before a marker. */
  lemma SafeAfterDelete(table: seq<Reloc>)
    requires |table| >= 2 && table[0].kind == R_PPC_REL24
    ensures SafeFrom(table, 0) <==> !LosesGap(table) && SafeFrom(AfterDelete(table), 0)
  {
    var next := AfterDelete(table);
    assert next[1..] == table[1..][1..];
    if table[1].kind >= R_RVL_NONE { assert next == table[1..]; }
  }

  lemma {:induction false} DropsNothingFrom(table: seq<Reloc>)
    ensures DropsNothing(table) <==> SafeFrom(table, 0)
    decreases |table|
  {
    if |table| >= 2 {
      if table[0].kind == R_PPC_REL24 {
        SafeAfterDelete(table);
        DropsNothingFrom(AfterDelete(table));
      } else {
        DropsNothingFrom(table[1..]);
      }
    } else if |table| == 1 {
      assert table[1..] == [];
    }
  }

  /** The scan drops no needed gap exactly when the table is gap-safe. */
  lemma GapSafeDropsNothing(table: seq<Reloc>)
    ensures GapSafe(table) <==> DropsNothing(table)
  {
    DropsNothingFrom(table);
    SafeFromIndex(table, 0, 0);
    assert table[0..] == table;
  }

  /** In a section without further references the starting position does not matter. */
  lemma {:induction false} SectionDoneRead(mod: nat, table: seq<Reloc>, p: nat, q: nat, sec: nat)
    requires SectionDone(table)
    ensures ReadRefs(mod, table, p, sec) == ReadRefs(mod, table, q, sec)
    decreases |table|
  {
    if table != [] && table[0].kind != R_RVL_SECT {
      SectionDoneRead(mod, table[1..], p + table[0].offset, q + table[0].offset, sec);
    }
  }

  /** Otherwise the next reference the scan sees, from `p`, and the next one the decoder reads, from `q`, are
      as far apart as `p` and `q`. */
  lemma {:induction false} NextRefShifts(env: Env, table: seq<Reloc>, p: nat, q: nat, sec: nat)
    requires Scannable(env, env.index, table) && !SectionDone(table)
    ensures var seen, read := Scan(env, env.index, table, p, sec).refs, ReadRefs(env.index, table, q, sec);
            seen != [] && read != [] && seen[0].pos - read[0].pos == p - q
    decreases |table|
  {
    if !IsRef(table[0]) {
      NextRefShifts(env, table[1..], p + table[0].offset, q + table[0].offset, sec);
    }
  }

  lemma ReadAfterDelete(mod: nat, table: seq<Reloc>, pos: nat, sec: nat)
    requires |table| >= 2 && table[0].kind == R_PPC_REL24
    requires table[1].kind < R_RVL_NONE || table[1].kind == R_RVL_SECT || table[0].offset == 0
    ensures ReadRefs(mod, AfterDelete(table), pos, sec) == ReadRefs(mod, table[1..], pos + table[0].offset, sec)
  {
    if table[1].kind < R_RVL_NONE {
      assert AfterDelete(table)[1..] == table[2..] && table[1..][1..] == table[2..];
    }
  }

  /** What follows a deleted branch is seen where it is read unless the deletion loses a needed gap. */
  lemma SeenBehindBranch(env: Env, table: seq<Reloc>, pos: nat, sec: nat)
    requires |table| >= 2 && table[0].kind == R_PPC_REL24 && PlainSectionChanges(table)
    requires Scannable(env, env.index, AfterDelete(table))
    requires Scan(env, env.index, AfterDelete(table), pos, sec).refs
          == ReadRefs(env.index, AfterDelete(table), pos, sec)
        <==> DropsNothing(AfterDelete(table))
    ensures Scan(env, env.index, AfterDelete(table), pos, sec).refs
         == ReadRefs(env.index, table[1..], pos + table[0].offset, sec)
       <==> DropsNothing(table)
  {
    var next, gap := AfterDelete(table), table[0].offset;
    if LosesGap(table) {
      NextRefShifts(env, next, pos, pos + gap, sec);
    } else if table[1].kind >= R_RVL_NONE && gap > 0 {
      SectionDoneRead(env.index, next, pos, pos + gap, sec);
    } else {
      ReadAfterDelete(env.index, table, pos, sec);
    }
  }

  lemma PlainAfterDelete(table: seq<Reloc>)
    requires |table| >= 2 && PlainSectionChanges(table)
    ensures PlainSectionChanges(AfterDelete(table))
  {
    var next := AfterDelete(table);
    assert forall i :: 1 <= i < |next| ==> next[i] == table[i + 1];
  }

  /** The scan sees every reference of the own module where the decoder reads it exactly when no needed gap
      is dropped. */
  lemma {:induction false} ScanSeesTable(env: Env, table: seq<Reloc>, pos: nat, sec: nat)
    requires Scannable(env, env.index, table) && PlainSectionChanges(table)
    ensures Scan(env, env.index, table, pos, sec).refs == ReadRefs(env.index, table, pos, sec) <==> DropsNothing(table)
    decreases |table|
  {
    if table != [] {
      var r := table[0];
      var out, read := Scan(env, env.index, table, pos, sec).refs, ReadRefs(env.index, table, pos, sec);
      if r.kind == R_PPC_REL24 {
        var next := AfterDelete(table);
        var seen := Scan(env, env.index, next, pos, sec).refs;
        assert out[0] == read[0] && out[1..] == seen;
        assert read[1..] == ReadRefs(env.index, table[1..], pos + r.offset, sec);
        PlainAfterDelete(table);
        ScanSeesTable(env, next, pos, sec);
        SeenBehindBranch(env, table, pos, sec);
      } else {
        var sec' := if r.kind == R_RVL_SECT then r.section else sec;
        var pos' := if r.kind == R_RVL_SECT then 0 else pos + r.offset;
        ScanSeesTable(env, table[1..], pos', sec');
        assert DropsNothing(table) == DropsNothing(table[1..]);
        if IsRef(r) {
          assert out[0] == read[0] && out[1..] == Scan(env, env.index, table[1..], pos', sec').refs;
          assert read[1..] == ReadRefs(env.index, table[1..], pos', sec');
        } else {
          assert out == Scan(env, env.index, table[1..], pos', sec').refs;
          assert read == ReadRefs(env.index, table[1..], pos', sec');
        }
      }
    }
  }

  /** Two readings of one table differ in positions only. */
  predicate SameShape(a: seq<Ref>, b: seq<Ref>) {
    |a| == |b| && forall i :: 0 <= i < |a| ==> a[i].kind == b[i].kind
  }

  lemma {:induction false} ScanShape(env: Env, table: seq<Reloc>, p: nat, q: nat, sec: nat)
    requires Scannable(env, env.index, table)
    ensures SameShape(Scan(env, env.index, table, p, sec).refs, ReadRefs(env.index, table, q, sec))
    decreases |table|
  {
    if table != [] {
      var r := table[0];
      if r.kind == R_PPC_REL24 {
        var next, q' := AfterDelete(table), q + r.offset;
        var q1 := if table[1].kind < R_RVL_NONE then q else q';
        ScanShape(env, next, p, q1, sec);
        ReadShape(env.index, next, table[1..], q1, q', sec);
        ShapeTrans(Scan(env, env.index, next, p, sec).refs, ReadRefs(env.index, next, q1, sec),
                   ReadRefs(env.index, table[1..], q', sec));
        ShapeCons(Scan(env, env.index, table, p, sec).refs, Scan(env, env.index, next, p, sec).refs,
                  ReadRefs(env.index, table, q, sec), ReadRefs(env.index, table[1..], q', sec));
      } else {
        var sec' := if r.kind == R_RVL_SECT then r.section else sec;
        var p', q' := if r.kind == R_RVL_SECT then r.offset else p + r.offset,
                      if r.kind == R_RVL_SECT then 0 else q + r.offset;
        ScanShape(env, table[1..], p', q', sec');
        if IsRef(r) {
          ShapeCons(Scan(env, env.index, table, p, sec).refs, Scan(env, env.index, table[1..], p', sec').refs,
                    ReadRefs(env.index, table, q, sec), ReadRefs(env.index, table[1..], q', sec'));
        } else {
          assert Scan(env, env.index, table, p, sec).refs == Scan(env, env.index, table[1..], p', sec').refs;
        }
      }
    }
  }

  lemma ShapeCons(a: seq<Ref>, a': seq<Ref>, b: seq<Ref>, b': seq<Ref>)
    requires a != [] && b != [] && a == [a[0]] + a' && b == [b[0]] + b' && a[0].kind == b[0].kind && SameShape(a', b')
    ensures SameShape(a, b)
  {
  }

  lemma ShapeTrans(a: seq<Ref>, b: seq<Ref>, c: seq<Ref>)
    requires SameShape(a, b) && SameShape(b, c)
    ensures SameShape(a, c)
  {
  }

  lemma ReadShape(mod: nat, a: seq<Reloc>, b: seq<Reloc>, p: nat, q: nat, sec: nat)
    requires a != [] && b != [] && a[1..] == b[1..] && p + a[0].offset == q + b[0].offset
    requires a[0].kind == b[0].kind && a[0].section == b[0].section
    ensures SameShape(ReadRefs(mod, a, p, sec), ReadRefs(mod, b, q, sec))
  {
  }

  lemma {:induction false} SplitDetermines(a: seq<Ref>, b: seq<Ref>)
    requires SameShape(a, b) && Others(a) == Others(b) && Branches(a) == Branches(b)
    ensures a == b
  {
    if a != [] {
      var ha, hb := a[0], b[0];
      if ha.kind == R_PPC_REL24 {
        assert Branches(a)[1..] == Branches(a[1..]) && Branches(b)[1..] == Branches(b[1..]);
        assert Branches(a)[0] == ha && Branches(b)[0] == hb;
        assert Others(a) == Others(a[1..]) && Others(b) == Others(b[1..]);
      } else {
        assert Others(a)[1..] == Others(a[1..]) && Others(b)[1..] == Others(b[1..]);
        assert Others(a)[0] == ha && Others(b)[0] == hb;
        assert Branches(a) == Branches(a[1..]) && Branches(b) == Branches(b[1..]);
      }
      SplitDetermines(a[1..], b[1..]);
      assert a == [ha] + a[1..] && b == [hb] + b[1..];
    }
  }

  /** Deleting the branches of the own module keeps the absolute position of every surviving relocation, and
      patches every branch at its own position, exactly when no needed gap is dropped. */
  lemma DeletionKeepsPositions(env: Env, table: seq<Reloc>)
    requires Scannable(env, env.index, table) && PlainSectionChanges(table)
    ensures var out, refs := Scan(env, env.index, table, 0, 0), ReadRefs(env.index, table, 0, 0);
            (ReadRefs(env.index, out.table, 0, 0) == Others(refs) && Branches(out.refs) == Branches(refs))
            <==> GapSafe(table)
  {
    GapSafeDropsNothing(table);
    var out, refs := Scan(env, env.index, table, 0, 0), ReadRefs(env.index, table, 0, 0);
    ScanKeepsOthers(env, table, 0, 0);
    ScanSeesTable(env, table, 0, 0);
    ScanShape(env, table, 0, 0, 0);
    if Others(out.refs) == Others(refs) && Branches(out.refs) == Branches(refs) {
      SplitDetermines(out.refs, refs);
    }
  }

  /** A gap that is lost in a table of the encoder: the branch at 4 is resolved and deleted, and the word
      relocation at 0x20000 behind it comes out four bytes too low. */
  lemma LostGapExample(env: Env, sym: Symbol)
    requires env.index == 1
    ensures var relocs := [(Rela(4, 1, R_PPC_REL24, 0), sym), (Rela(0x2_0000, 1, 1, 0), sym)];
            var here := Ref(1, 0x2_0000, 1, 1, sym.shndx, sym.value);
            var there := Ref(1, 0x1_FFFC, 1, 1, sym.shndx, sym.value);
            && SortedFrom(relocs, 0)
            && var table := EncodeSection(relocs, 1) + [Stop];
               && Scannable(env, 1, table)
               && !GapSafe(table)
               && Others(ReadRefs(1, table, 0, 0)) == [here]
               && ReadRefs(1, Scan(env, 1, table, 0, 0).table, 0, 0) == [there]
  {
    var branch, word := (Rela(4, 1, R_PPC_REL24, 0), sym), (Rela(0x2_0000, 1, 1, 0), sym);
    var relocs := [branch, word];
    assert relocs[1..] == [word] && relocs[1..][1..] == [];
    var b, w := Reloc(4, R_PPC_REL24, sym.shndx, sym.value), Reloc(0xFFFD, 1, sym.shndx, sym.value);
    assert Entries(4, branch) == [b];
    assert Entries(0xFFFD, word) == [w];
    assert Entries(0x1_FFFC, word) == [Filler, w];
    assert EncodeFrom([word], 4) == [Filler, w];
    assert EncodeFrom(relocs, 0) == [b, Filler, w];
    assert EncodeSection(relocs, 1) + [Stop] == [SectionChange(1), b, Filler, w, Stop];
    LostGapScan(env, b, w);
    GapSafeDropsNothing([SectionChange(1), b, Filler, w, Stop]);
  }

  lemma LostGapScan(env: Env, b: Reloc, w: Reloc)
    requires env.index == 1
    requires b.offset == 4 && b.kind == R_PPC_REL24 && w.offset == 0xFFFD && w.kind == 1
    ensures var table := [SectionChange(1), b, Filler, w, Stop];
            && !DropsNothing(table)
            && Others(ReadRefs(1, table, 0, 0)) == [Ref(1, 0x2_0000, 1, 1, w.section, w.addend)]
            && ReadRefs(1, Scan(env, 1, table, 0, 0).table, 0, 0) == [Ref(1, 0x1_FFFC, 1, 1, w.section, w.addend)]
  {
    var table := [SectionChange(1), b, Filler, w, Stop];
    var t1, t2 := [b, Filler, w, Stop], [Filler, w, Stop];
    assert table[1..] == t1 && t1[1..] == t2 && AfterDelete(t1) == t2;
    assert t2[1..] == [w, Stop];
    assert !SectionDone(t2) && LosesGap(t1) && !DropsNothing(t1) && !DropsNothing(table);
    LostGapRead(table, t1, t2, b, w);
    LostGapLeft(env, table, t1, t2, b, w);
  }

  lemma FillerThenWord(w: Reloc, pos: nat)
    requires w.offset == 0xFFFD && w.kind == 1
    ensures ReadRefs(1, [Filler, w, Stop], pos, 1) == [Ref(1, pos + 0x1_FFFC, 1, 1, w.section, w.addend)]
  {
    assert [Filler, w, Stop][1..] == [w, Stop] && [w, Stop][1..] == [Stop] && [Stop][1..] == [];
    assert ReadRefs(1, [Stop], pos + 0x1_FFFC, 1) == [];
  }

  /** What the table says before. */
  lemma LostGapRead(table: seq<Reloc>, t1: seq<Reloc>, t2: seq<Reloc>, b: Reloc, w: Reloc)
    requires b.offset == 4 && b.kind == R_PPC_REL24 && w.offset == 0xFFFD && w.kind == 1
    requires t2 == [Filler, w, Stop] && t1 == [b] + t2 && table == [SectionChange(1)] + t1
    ensures Others(ReadRefs(1, table, 0, 0)) == [Ref(1, 0x2_0000, 1, 1, w.section, w.addend)]
  {
    var here, branch := Ref(1, 0x2_0000, 1, 1, w.section, w.addend), Ref(1, 4, R_PPC_REL24, 1, b.section, b.addend);
    FillerThenWord(w, 4);
    assert t1[1..] == t2 && table[1..] == t1;
    assert ReadRefs(1, t1, 0, 1) == [branch] + [here];
    assert ([branch] + [here])[1..] == [here] && [here][1..] == [];
    assert Others([here]) == [here];
  }

  /** And what is left of it says. */
  lemma LostGapLeft(env: Env, table: seq<Reloc>, t1: seq<Reloc>, t2: seq<Reloc>, b: Reloc, w: Reloc)
    requires env.index == 1
    requires b.offset == 4 && b.kind == R_PPC_REL24 && w.offset == 0xFFFD && w.kind == 1
    requires t2 == [Filler, w, Stop] && t1 == [b] + t2 && table == [SectionChange(1)] + t1
    ensures Scannable(env, 1, table)
    ensures ReadRefs(1, Scan(env, 1, table, 0, 0).table, 0, 0) == [Ref(1, 0x1_FFFC, 1, 1, w.section, w.addend)]
  {
    assert t2[1..] == [w, Stop] && [w, Stop][1..] == [Stop] && [Stop][1..] == [];
    assert Scan(env, 1, [Stop], 0x1_FFFC, 1).table == [Stop];
    assert Scan(env, 1, [w, Stop], 0xFFFF, 1).table == [w, Stop];
    assert Scan(env, 1, t2, 0, 1).table == t2;
    assert t1[1..] == t2 && AfterDelete(t1) == t2 && Scan(env, 1, t1, 0, 1).table == t2;
    assert table[1..] == t1;
    var left := Scan(env, 1, table, 0, 0).table;
    assert left == [SectionChange(1)] + t2 && left[1..] == t2;
    FillerThenWord(w, 0);
  }

  // ----- all tables of a module -----

  /** Nothing that the scan looks up from `sec` on is missing. */
  predicate Known(env: Env, mod: nat, table: seq<Reloc>, sec: nat) {
    Scannable(env, mod, table) && SitesKnown(env, mod, table, sec)
  }

  /** The sections once the branches that the scan meets in one table are patched, in its order. */
  function ResolvedBy(env: Env, sections: seq<Section>, mod: nat, table: seq<Reloc>): (r: seq<Section>)
    requires Known(env, mod, table, 0) && |sections| == |env.locs|
    ensures |r| == |sections|
  {
    ScanSites(env, mod, table, 0, 0);
    ApplyPatches(env, sections, Branches(Scan(env, mod, table, 0, 0).refs))
  }

  predicate AllScannable(env: Env, tables: seq<ModuleTable>) {
    forall i :: 0 <= i < |tables| ==> Scannable(env, tables[i].mod, tables[i].table)
  }

  function LeftTable(env: Env, t: ModuleTable): ModuleTable
    requires Scannable(env, t.mod, t.table)
  {
    ModuleTable(t.mod, Scan(env, t.mod, t.table, 0, 0).table)
  }

  /** The tables the scan leaves. */
  function LeftTables(env: Env, tables: seq<ModuleTable>): (r: seq<ModuleTable>)
    requires AllScannable(env, tables)
    ensures |r| == |tables| && forall i :: 0 <= i < |r| ==> r[i].mod == tables[i].mod
  {
    seq(|tables|, i requires 0 <= i < |tables| =>
      assert Scannable(env, tables[i].mod, tables[i].table);
      LeftTable(env, tables[i]))
  }

  /** The branches the scan patches, in its order. */
  function SeenBranches(env: Env, tables: seq<ModuleTable>): seq<Ref>
    requires AllScannable(env, tables)
  {
    if tables == [] then []
    else
      assert Scannable(env, tables[0].mod, tables[0].table);
      Branches(Scan(env, tables[0].mod, tables[0].table, 0, 0).refs) + SeenBranches(env, tables[1..])
  }

  predicate AllSitesKnown(env: Env, tables: seq<ModuleTable>) {
    forall i :: 0 <= i < |tables| ==> SitesKnown(env, tables[i].mod, tables[i].table, 0)
  }

  /** The sites of all patched branches exist exactly when every table knows them. */
  lemma {:induction false} SeenSites(env: Env, tables: seq<ModuleTable>)
    requires AllScannable(env, tables)
    ensures SitesExist(env, SeenBranches(env, tables)) <==> AllSitesKnown(env, tables)
  {
    if tables != [] {
      var t := tables[0];
      assert Scannable(env, t.mod, t.table);
      ScanSites(env, t.mod, t.table, 0, 0);
      SeenSites(env, tables[1..]);
      SitesConcat(env, Branches(Scan(env, t.mod, t.table, 0, 0).refs), SeenBranches(env, tables[1..]));
      KnownCons(env, tables);
    }
  }

  lemma KnownCons(env: Env, tables: seq<ModuleTable>)
    requires tables != []
    ensures AllSitesKnown(env, tables)
       <==> SitesKnown(env, tables[0].mod, tables[0].table, 0) && AllSitesKnown(env, tables[1..])
  {
    assert forall i :: 1 <= i < |tables| ==> tables[1..][i - 1] == tables[i];
    assert forall i :: 0 <= i < |tables[1..]| ==> tables[1..][i] == tables[i + 1];
  }

  /** The sections once all branches that the scan meets are patched, in its order. */
  function Resolved(env: Env, sections: seq<Section>, tables: seq<ModuleTable>): (r: seq<Section>)
    requires AllScannable(env, tables) && AllSitesKnown(env, tables) && |sections| == |env.locs|
    ensures |r| == |sections|
  {
    SeenSites(env, tables);
    ApplyPatches(env, sections, SeenBranches(env, tables))
  }

  /** Tables as the encoder writes them, without a needed gap to lose in the own module's. */
  predicate GapSafeTables(env: Env, tables: seq<ModuleTable>) {
    forall i :: 0 <= i < |tables| ==>
      && PlainSectionChanges(tables[i].table)
      && (tables[i].mod == env.index ==> GapSafe(tables[i].table))
  }

  /** Then the patched branches are the branches the tables name. */
  lemma {:induction false} SeenBranchesAreNamed(env: Env, tables: seq<ModuleTable>)
    requires AllScannable(env, tables) && GapSafeTables(env, tables)
    ensures SeenBranches(env, tables) == Branches(AllRefs(tables))
  {
    if tables != [] {
      var t := tables[0];
      assert Scannable(env, t.mod, t.table) && PlainSectionChanges(t.table);
      if t.mod == env.index {
        GapSafeDropsNothing(t.table);
        ScanSeesTable(env, t.table, 0, 0);
      } else {
        ScanOtherModule(env, t.mod, t.table, 0, 0);
      }
      SeenBranchesAreNamed(env, tables[1..]);
      BranchesConcat(ReadRefs(t.mod, t.table, 0, 0), AllRefs(tables[1..]));
    }
  }

  lemma {:induction false} BranchesConcat(a: seq<Ref>, b: seq<Ref>)
    ensures Branches(a + b) == Branches(a) + Branches(b)
  {
    if a == [] {
      assert a + b == b;
    } else {
      var here := if a[0].kind == R_PPC_REL24 then [a[0]] else [];
      assert (a + b)[0] == a[0] && (a + b)[1..] == a[1..] + b;
      BranchesConcat(a[1..], b);
      ConcatAssoc(here, Branches(a[1..]), Branches(b));
    }
  }

  lemma ConcatAssoc(a: seq<Ref>, b: seq<Ref>, c: seq<Ref>)
    ensures a + (b + c) == (a + b) + c
  {
  }

  /** Resolving branches in place: the branches patched are those that the tables name, each goes to the address it
      names exactly when it can be resolved in the file, and no byte outside the branch words changes. */
  lemma ResolvedBranchesReach(env: Env, tables: seq<ModuleTable>, sections: seq<Section>)
    requires AllScannable(env, tables) && GapSafeTables(env, tables)
    requires GoodSites(env, sections, Branches(AllRefs(tables)))
    ensures var refs := Branches(AllRefs(tables));
            var r := ApplyPatches(env, sections, refs);
            && SeenBranches(env, tables) == refs
            && SameFrame(r, sections)
            && SameOutside(r, sections, refs)
            && forall i :: 0 <= i < |refs| ==> Reaches(env, r, sections, refs[i])
  {
    var refs := Branches(AllRefs(tables));
    var r := ApplyPatches(env, sections, refs);
    SeenBranchesAreNamed(env, tables);
    PatchesHold(env, sections, refs);
    forall i | 0 <= i < |refs| ensures Reaches(env, r, sections, refs[i]) {
      assert Patched(env, r, sections, refs[i]) && SiteExists(env, refs[i]);
      PatchedReaches(env, r, sections, refs[i]);
    }
  }
}
