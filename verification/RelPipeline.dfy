/** The relocations of a REL module on their way through ELF objects: extracted by tools/slice_rel.py against
    undefined symbols that name their targets, classified and encoded again by tools/build_rel.py. */
module RelPipeline {
  import opened RelNames
  import opened RelTable
  import opened RelTypes
  import opened Slices
  import opened Wrappers

  // ----- extraction -----

  /** A symbol that is only referenced: undefined and global. */
  function Undefined(name: string): Symbol {
    Symbol(name, 0, 0, 1, 0, 0, SHN_UNDEF)
  }

  predicate NamesTarget(r: Ref) {
    r.addend >= 0
  }

  function RefName(r: Ref): string
    requires NamesTarget(r)
  {
    Name(Target(r.mod, r.target, r.addend))
  }

  /** The references whose place the slice section contains. */
  function RefsIn(refs: seq<Ref>, sec: SliceSection): seq<Ref> {
    if refs == [] then []
    else (if sec.Contains(refs[0].section, refs[0].pos) then [refs[0]] else []) + RefsIn(refs[1..], sec)
  }

  /** The ELF relocation stands for the reference: same place in the slice, same type, no addend, and a symbol
      that carries the name of the target. */
  predicate Stands(symtab: seq<Symbol>, rela: Rela, r: Ref, start: int) {
    && NamesTarget(r)
    && rela.offset == r.pos - start && rela.kind == r.kind && rela.addend == 0
    && 1 <= rela.sym <= |symtab| && symtab[rela.sym - 1] == Undefined(RefName(r))
  }

  predicate AllStand(symtab: seq<Symbol>, relas: seq<Rela>, refs: seq<Ref>, start: int) {
    |relas| == |refs| && forall i :: 0 <= i < |refs| ==> Stands(symtab, relas[i], refs[i], start)
  }

  /** Field by field: the place counts from the start of the slice section, the addend is 0, and the symbol is a global
      one of no type and no section, whose name spells module, section and addend of the target. */
  lemma ExtractedFields(symtab: seq<Symbol>, relas: seq<Rela>, refs: seq<Ref>, start: int, i: nat)
    requires AllStand(symtab, relas, refs, start) && i < |refs|
    ensures relas[i].offset == refs[i].pos - start && relas[i].kind == refs[i].kind && relas[i].addend == 0
    ensures 1 <= relas[i].sym <= |symtab| && refs[i].addend >= 0
    ensures var s := symtab[relas[i].sym - 1];
            && s.name == "R_" + (Hex(refs[i].mod) + ("_" + (Hex(refs[i].target) + ("_" + Hex(refs[i].addend)))))
            && s.bind == 1 && s.symType == 0 && s.other == 0 && s.shndx == 0 && s.value == 0 && s.size == 0
  {
    assert Stands(symtab, relas[i], refs[i], start);
  }

  /** `added_syms` and the symbol table agree. */
  predicate SymbolsAgree(symtab: seq<Symbol>, added: map<string, nat>) {
    forall n :: n in added ==> 1 <= added[n] <= |symtab| && symtab[added[n] - 1] == Undefined(n)
  }

  /** The symbol table of an object, without its NULL symbol, and `added_syms`, the numbers of symbols by name. */
  datatype Symtab = Symtab(syms: seq<Symbol>, added: map<string, nat>)

  /** A new symbol behind the others, known under `key`; numbers count the NULL symbol. */
  function Including(t: Symtab, key: string, sym: Symbol): Symtab {
    Symtab(t.syms + [sym], t.added[key := |t.syms| + 1])
  }

  /** The table once a name was referred to: the name is added if it is new. */
  function Referring(t: Symtab, name: string): Symtab {
    if name in t.added then t else Including(t, name, Undefined(name))
  }

  predicate AllNameTargets(refs: seq<Ref>) {
    forall i :: 0 <= i < |refs| ==> NamesTarget(refs[i])
  }

  function ReferringAll(t: Symtab, refs: seq<Ref>): Symtab
    requires AllNameTargets(refs)
    decreases |refs|
  {
    if refs == [] then t
    else
      var n := |refs| - 1;
      Referring(ReferringAll(t, refs[..n]), RefName(refs[n]))
  }

  /** The references extracted for slice sections, one section after the other. */
  function Extractions(refs: seq<Ref>, secs: seq<SliceSection>): seq<Ref> {
    if secs == [] then [] else RefsIn(refs, secs[0]) + Extractions(refs, secs[1..])
  }

  /** The ELF relocation for a reference in a slice section that starts at `start`. */
  predicate Refers(added: map<string, nat>, rela: Rela, r: Ref, start: int) {
    && NamesTarget(r) && RefName(r) in added && rela.sym == added[RefName(r)]
    && rela.offset == r.pos - start && rela.kind == r.kind && rela.addend == 0
  }

  predicate AllRefer(added: map<string, nat>, relas: seq<Rela>, refs: seq<Ref>, start: int) {
    |relas| == |refs| && forall i :: 0 <= i < |refs| ==> Refers(added, relas[i], refs[i], start)
  }

  class Extractor {
    var symtab: seq<Symbol>
    var addedSyms: map<string, nat>

    constructor ()
      ensures Table() == Symtab([], map[])
    {
      symtab, addedSyms := [], map[];
    }

    function Table(): Symtab
      reads this
    {
      Symtab(symtab, addedSyms)
    }

    /** `ElfSymtab.add_symbol`: indices count the NULL symbol. */
    method AddSymbol(sym: Symbol) returns (idx: nat)
      modifies this`symtab
      ensures symtab == old(symtab) + [sym] && idx == |symtab|
    {
      symtab := symtab + [sym];
      idx := |symtab|;
    }

    /** The ELF relocation for one reference, against a new symbol if its name is new. */
    method Refer(r: Ref, offset: nat) returns (rela: Rela)
      requires NamesTarget(r)
      modifies this
      ensures Table() == Referring(old(Table()), RefName(r))
      ensures Refers(addedSyms, rela, r, r.pos - offset)
    {
      var symName := RefName(r);
      var symIdx: nat;
      if symName in addedSyms {
        symIdx := addedSyms[symName];
      } else {
        symIdx := AddSymbol(Undefined(symName));
        addedSyms := addedSyms[symName := symIdx];
      }
      rela := Rela(offset, symIdx, r.kind, 0);
    }

    /** The relocations of one slice section. */
    method ExtractSection(moduleRelocs: seq<Ref>, sec: SliceSection) returns (relas: seq<Rela>)
      requires AllNameTargets(moduleRelocs)
      modifies this
      ensures AllNameTargets(RefsIn(moduleRelocs, sec))
      ensures Table() == ReferringAll(old(Table()), RefsIn(moduleRelocs, sec))
      ensures AllRefer(addedSyms, relas, RefsIn(moduleRelocs, sec), sec.start)
      ensures SymbolsAgree(old(symtab), old(addedSyms)) ==>
                SymbolsAgree(symtab, addedSyms) && old(symtab) <= symtab
                && AllStand(symtab, relas, RefsIn(moduleRelocs, sec), sec.start)
    {
      relas := [];
      ghost var done: seq<Ref> := [];
      assert moduleRelocs[0..] == moduleRelocs;
      for i := 0 to |moduleRelocs|
        invariant AllNameTargets(done) && Table() == ReferringAll(old(Table()), done)
        invariant AllRefer(addedSyms, relas, done, sec.start)
        invariant done + RefsIn(moduleRelocs[i..], sec) == RefsIn(moduleRelocs, sec)
      {
        var r := moduleRelocs[i];
        RefsInNext(moduleRelocs, sec, i, done);
        if sec.Contains(r.section, r.pos) {
          ghost var before := Table();
          var rela := Refer(r, r.pos - sec.start);
          ReferNext(before, Table(), relas, done, sec.start, rela, r);
          ReferringSnoc(old(Table()), done, r);
          relas := relas + [rela];
          done := done + [r];
        }
      }
      assert done == RefsIn(moduleRelocs, sec);
      AddedStay(old(Table()), done);
      ReferringAgrees(old(Table()), done, relas, sec.start);
    }

    /** The relocation sections of a slice, one for each of its sections, with one symbol table for all of them. */
    method ExtractSlice(moduleRelocs: seq<Ref>, secs: seq<SliceSection>) returns (relas: seq<seq<Rela>>)
      requires AllNameTargets(moduleRelocs)
      modifies this
      ensures AllNameTargets(Extractions(moduleRelocs, secs))
      ensures Table() == ReferringAll(old(Table()), Extractions(moduleRelocs, secs))
      ensures |relas| == |secs|
      ensures forall k :: 0 <= k < |secs| ==>
                AllRefer(addedSyms, relas[k], RefsIn(moduleRelocs, secs[k]), secs[k].start)
      ensures SymbolsAgree(old(symtab), old(addedSyms)) ==>
                forall k :: 0 <= k < |secs| ==>
                  AllStand(symtab, relas[k], RefsIn(moduleRelocs, secs[k]), secs[k].start)
    {
      relas := [];
      for k := 0 to |secs|
        invariant AllNameTargets(Extractions(moduleRelocs, secs[..k])) && |relas| == k
        invariant Table() == ReferringAll(old(Table()), Extractions(moduleRelocs, secs[..k]))
        invariant EachRefers(addedSyms, moduleRelocs, secs, relas)
      {
        ghost var before := Table();
        var rs := ExtractSection(moduleRelocs, secs[k]);
        ExtractionsNext(old(Table()), moduleRelocs, secs, k);
        AddedStay(before, RefsIn(moduleRelocs, secs[k]));
        ReferEach(before.added, addedSyms, moduleRelocs, secs, relas, rs);
        relas := relas + [rs];
      }
      assert secs[..|secs|] == secs;
      TableAgrees(old(Table()), Extractions(moduleRelocs, secs));
      if SymbolsAgree(symtab, addedSyms) { StandEach(symtab, addedSyms, moduleRelocs, secs, relas); }
    }
  }

  /** The first slice sections have such relocations. */
  predicate EachRefers(added: map<string, nat>, moduleRelocs: seq<Ref>, secs: seq<SliceSection>, relas: seq<seq<Rela>>)
  {
    |relas| <= |secs|
    && forall k :: 0 <= k < |relas| ==> AllRefer(added, relas[k], RefsIn(moduleRelocs, secs[k]), secs[k].start)
  }

  lemma ReferEach(before: map<string, nat>, after: map<string, nat>, moduleRelocs: seq<Ref>, secs: seq<SliceSection>,
                  relas: seq<seq<Rela>>, rs: seq<Rela>)
    requires EachRefers(before, moduleRelocs, secs, relas) && |relas| < |secs|
    requires forall name :: name in before ==> name in after && after[name] == before[name]
    requires AllRefer(after, rs, RefsIn(moduleRelocs, secs[|relas|]), secs[|relas|].start)
    ensures EachRefers(after, moduleRelocs, secs, relas + [rs])
  {
    forall k | 0 <= k < |relas| ensures AllRefer(after, relas[k], RefsIn(moduleRelocs, secs[k]), secs[k].start) {
      ReferLater(before, after, relas[k], RefsIn(moduleRelocs, secs[k]), secs[k].start);
    }
  }

  lemma StandEach(symtab: seq<Symbol>, added: map<string, nat>, moduleRelocs: seq<Ref>, secs: seq<SliceSection>,
                  relas: seq<seq<Rela>>)
    requires EachRefers(added, moduleRelocs, secs, relas) && SymbolsAgree(symtab, added)
    ensures forall k :: 0 <= k < |relas| ==>
              AllStand(symtab, relas[k], RefsIn(moduleRelocs, secs[k]), secs[k].start)
  {
    forall k | 0 <= k < |relas| ensures AllStand(symtab, relas[k], RefsIn(moduleRelocs, secs[k]), secs[k].start) {
      ReferStand(symtab, added, relas[k], RefsIn(moduleRelocs, secs[k]), secs[k].start);
    }
  }

  lemma RefsInNext(refs: seq<Ref>, sec: SliceSection, i: nat, done: seq<Ref>)
    requires i < |refs|
    ensures done + RefsIn(refs[i..], sec)
         == (if sec.Contains(refs[i].section, refs[i].pos) then done + [refs[i]] else done) + RefsIn(refs[i + 1..], sec)
  {
    assert refs[i..][0] == refs[i] && refs[i..][1..] == refs[i + 1..];
  }

  // ----- the symbol table of a slice -----

  lemma ReferringSnoc(t: Symtab, refs: seq<Ref>, r: Ref)
    requires AllNameTargets(refs) && NamesTarget(r)
    ensures AllNameTargets(refs + [r])
    ensures ReferringAll(t, refs + [r]) == Referring(ReferringAll(t, refs), RefName(r))
  {
    assert (refs + [r])[..|refs|] == refs;
  }

  lemma {:induction false} ReferringConcat(t: Symtab, a: seq<Ref>, b: seq<Ref>, all: seq<Ref>)
    requires AllNameTargets(a) && AllNameTargets(b) && all == a + b
    ensures AllNameTargets(all) && ReferringAll(t, all) == ReferringAll(ReferringAll(t, a), b)
    decreases |b|
  {
    if b == [] {
      assert all == a;
    } else {
      LastOfConcat(a, b, all);
      var front, before := b[..|b| - 1], all[..|all| - 1];
      ReferringConcat(t, a, front, before);
      ReferringLast(t, all, before);
      ReferringLast(ReferringAll(t, a), b, front);
    }
  }

  lemma LastOfConcat(a: seq<Ref>, b: seq<Ref>, all: seq<Ref>)
    requires AllNameTargets(a) && AllNameTargets(b) && all == a + b && b != []
    ensures all[..|all| - 1] == a + b[..|b| - 1] && all[|all| - 1] == b[|b| - 1]
    ensures AllNameTargets(all) && AllNameTargets(b[..|b| - 1])
  {
  }

  lemma ReferringLast(t: Symtab, refs: seq<Ref>, front: seq<Ref>)
    requires AllNameTargets(refs) && refs != [] && front == refs[..|refs| - 1]
    ensures AllNameTargets(front)
    ensures ReferringAll(t, refs) == Referring(ReferringAll(t, front), RefName(refs[|refs| - 1]))
  {
  }

  lemma {:induction false} ExtractionsSnoc(refs: seq<Ref>, secs: seq<SliceSection>, sec: SliceSection)
    ensures Extractions(refs, secs + [sec]) == Extractions(refs, secs) + RefsIn(refs, sec)
  {
    if secs == [] {
      assert [] + [sec] == [sec] && [sec][1..] == [] && RefsIn(refs, sec) + [] == RefsIn(refs, sec);
    } else {
      assert (secs + [sec])[0] == secs[0] && (secs + [sec])[1..] == secs[1..] + [sec];
      ExtractionsSnoc(refs, secs[1..], sec);
    }
  }

  lemma ExtractionsNext(t: Symtab, refs: seq<Ref>, secs: seq<SliceSection>, k: nat)
    requires k < |secs| && AllNameTargets(Extractions(refs, secs[..k])) && AllNameTargets(RefsIn(refs, secs[k]))
    ensures AllNameTargets(Extractions(refs, secs[..k + 1]))
    ensures ReferringAll(t, Extractions(refs, secs[..k + 1]))
         == ReferringAll(ReferringAll(t, Extractions(refs, secs[..k])), RefsIn(refs, secs[k]))
  {
    assert secs[..k + 1] == secs[..k] + [secs[k]];
    ExtractionsSnoc(refs, secs[..k], secs[k]);
    ReferringConcat(t, Extractions(refs, secs[..k]), RefsIn(refs, secs[k]), Extractions(refs, secs[..k + 1]));
  }

  /** Numbers that were given out stay, and symbols are only appended. */
  lemma {:induction false} AddedStay(t: Symtab, refs: seq<Ref>)
    requires AllNameTargets(refs)
    ensures var u := ReferringAll(t, refs);
            t.syms <= u.syms && forall n :: n in t.added ==> n in u.added && u.added[n] == t.added[n]
    decreases |refs|
  {
    if refs != [] { AddedStay(t, refs[..|refs| - 1]); }
  }

  lemma ReferLater(a: map<string, nat>, b: map<string, nat>, relas: seq<Rela>, refs: seq<Ref>, start: int)
    requires AllRefer(a, relas, refs, start) && forall n :: n in a ==> n in b && b[n] == a[n]
    ensures AllRefer(b, relas, refs, start)
  {
    forall i | 0 <= i < |refs| ensures Refers(b, relas[i], refs[i], start) {
      assert Refers(a, relas[i], refs[i], start);
    }
  }

  lemma ReferNext(a: Symtab, b: Symtab, relas: seq<Rela>, refs: seq<Ref>, start: int, rela: Rela, r: Ref)
    requires AllRefer(a.added, relas, refs, start) && Refers(b.added, rela, r, start)
    requires NamesTarget(r) && b == Referring(a, RefName(r))
    ensures AllRefer(b.added, relas + [rela], refs + [r], start)
  {
    ReferLater(a.added, b.added, relas, refs, start);
  }

  /** Where every number stands for the symbol of its name, it still does. */
  lemma {:induction false} TableAgrees(t: Symtab, refs: seq<Ref>)
    requires AllNameTargets(refs)
    ensures SymbolsAgree(t.syms, t.added) ==>
              SymbolsAgree(ReferringAll(t, refs).syms, ReferringAll(t, refs).added)
    decreases |refs|
  {
    if refs != [] { TableAgrees(t, refs[..|refs| - 1]); }
  }

  lemma ReferStand(syms: seq<Symbol>, added: map<string, nat>, relas: seq<Rela>, refs: seq<Ref>, start: int)
    requires SymbolsAgree(syms, added) && AllRefer(added, relas, refs, start)
    ensures AllStand(syms, relas, refs, start)
  {
    forall i | 0 <= i < |refs| ensures Stands(syms, relas[i], refs[i], start) {
      assert Refers(added, relas[i], refs[i], start);
    }
  }

  lemma ReferringAgrees(t: Symtab, refs: seq<Ref>, relas: seq<Rela>, start: int)
    requires AllNameTargets(refs) && AllRefer(ReferringAll(t, refs).added, relas, refs, start)
    ensures SymbolsAgree(t.syms, t.added) ==>
              var u := ReferringAll(t, refs); SymbolsAgree(u.syms, u.added) && AllStand(u.syms, relas, refs, start)
  {
    TableAgrees(t, refs);
    if SymbolsAgree(t.syms, t.added) {
      ReferStand(ReferringAll(t, refs).syms, ReferringAll(t, refs).added, relas, refs, start);
    }
  }

  function RefNames(refs: seq<Ref>): (names: seq<string>)
    requires AllNameTargets(refs)
    ensures |names| == |refs| && forall i :: 0 <= i < |refs| ==> names[i] == RefName(refs[i])
  {
    seq(|refs|, i requires 0 <= i < |refs| => RefName(refs[i]))
  }

  /** One of the references has that name. */
  predicate Mentions(refs: seq<Ref>, name: string)
    requires AllNameTargets(refs)
  {
    name in RefNames(refs)
  }

  /** The names of the references, each where it comes first. */
  function FirstNames(refs: seq<Ref>): seq<string>
    requires AllNameTargets(refs)
    decreases |refs|
  {
    if refs == [] then []
    else
      var n := |refs| - 1;
      var name := RefName(refs[n]);
      FirstNames(refs[..n]) + if Mentions(refs[..n], name) then [] else [name]
  }

  /** One undefined symbol for each name, in the order of first reference. */
  ghost predicate OneEach(t: Symtab, refs: seq<Ref>)
    requires AllNameTargets(refs)
  {
    && |t.syms| == |FirstNames(refs)|
    && (forall i :: 0 <= i < |t.syms| ==> t.syms[i] == Undefined(FirstNames(refs)[i]))
    && forall n :: n in t.added <==> Mentions(refs, n)
  }

  lemma MentionsSnoc(refs: seq<Ref>, n: nat, name: string)
    requires AllNameTargets(refs) && n + 1 == |refs|
    ensures Mentions(refs, name) <==> Mentions(refs[..n], name) || name == RefName(refs[n])
  {
    assert RefNames(refs) == RefNames(refs[..n]) + [RefName(refs[n])];
  }

  lemma OneMore(t: Symtab, refs: seq<Ref>, n: nat)
    requires AllNameTargets(refs) && n + 1 == |refs| && OneEach(t, refs[..n])
    ensures OneEach(Referring(t, RefName(refs[n])), refs)
  {
    forall name ensures Mentions(refs, name) <==> Mentions(refs[..n], name) || name == RefName(refs[n]) {
      MentionsSnoc(refs, n, name);
    }
  }

  /** Behind an empty symbol table extracting puts one symbol for each name. */
  lemma {:induction false} OneSymbolEach(refs: seq<Ref>)
    requires AllNameTargets(refs)
    ensures OneEach(ReferringAll(Symtab([], map[]), refs), refs)
    decreases |refs|
  {
    if refs != [] {
      var n := |refs| - 1;
      OneSymbolEach(refs[..n]);
      OneMore(ReferringAll(Symtab([], map[]), refs[..n]), refs, n);
    }
  }

  // ----- classification -----

  /** The symbols of that name. */
  function GetSymbols(syms: seq<Symbol>, name: string): seq<Symbol> {
    if syms == [] then []
    else (if syms[0].name == name then [syms[0]] else []) + GetSymbols(syms[1..], name)
  }

  function Defined(syms: seq<Symbol>, name: string): Option<Symbol> {
    var found := GetSymbols(syms, name);
    if found != [] && found[0].shndx != SHN_UNDEF then Some(found[0]) else None
  }

  /** The first other module, from number `i` on, that defines the name. */
  function SearchModules(modules: seq<seq<Symbol>>, own: nat, name: string, i: nat): Option<(nat, Symbol)>
    decreases |modules| - i
  {
    if i >= |modules| then None
    else if i != own && Defined(modules[i], name).Some? then Some((i, Defined(modules[i], name).value))
    else SearchModules(modules, own, name, i + 1)
  }

  /** The one name that is replaced before it is looked up. */
  function Renamed(name: string, own: nat): string {
    if name == "__destroy_global_chain" then "R_" + Decimal(own) + "_1_90" else name
  }

  lemma ParseSnoc(h: string, c: char)
    requires IsHex(h) && IsHexChar(c)
    ensures IsHex(h + [c]) && ParseHex(h + [c]) == 16 * ParseHex(h) + HexValue(c)
  {
    assert (h + [c])[..|h|] == h;
  }

  lemma DecimalDigit(k: nat)
    requires k < 10
    ensures IsHexChar("0123456789"[k]) && HexValue("0123456789"[k]) == k
  {
  }

  lemma {:induction false} DecimalAsHex(n: nat)
    ensures Decimal(n) != "" && IsHex(Decimal(n))
    ensures ParseHex(Decimal(n)) >= n && (ParseHex(Decimal(n)) == n <==> n < 10)
  {
    DecimalDigit(n % 10);
    if n < 10 {
      ParseSnoc("", "0123456789"[n]);
      assert Decimal(n) == "" + ["0123456789"[n]];
    } else {
      DecimalAsHex(n / 10);
      ParseSnoc(Decimal(n / 10), "0123456789"[n % 10]);
    }
  }

  lemma ChainFields()
    ensures IsHex("1") && ParseHex("1") == 1 && IsHex("90") && ParseHex("90") == 0x90
  {
    ParseSnoc("", '1');
    ParseSnoc("", '9');
    ParseSnoc("9", '0');
    assert "" + ['1'] == "1" && "" + ['9'] == "9" && "9" + ['0'] == "90";
  }

  lemma ChainNameParts(d: string)
    ensures "R_" + d + "_1_90" == "R_" + (d + ("_" + ("1" + ("_" + "90"))))
  {
  }

  lemma FieldsSearch(s: string, x: string, y: string, z: string)
    requires IsHex(x) && IsHex(y) && IsHex(z) && x != "" && y != "" && z != ""
    requires s == "R_" + (x + ("_" + (y + ("_" + z))))
    ensures Search(s) == Some(Target(ParseHex(x), ParseHex(y), ParseHex(z)))
  {
    MatchFields(x, y, z);
  }

  /** The replaced name is printed in decimal and searched as hexadecimal: it leads to the own module only for numbers
      below 10. */
  lemma ChainNameOwn(own: nat)
    ensures Search(Renamed("__destroy_global_chain", own)).Some?
    ensures Search(Renamed("__destroy_global_chain", own)) == Some(Target(own, 1, 0x90)) <==> own < 10
  {
    DecimalAsHex(own);
    ChainFields();
    ChainNameParts(Decimal(own));
    FieldsSearch("R_" + Decimal(own) + "_1_90", Decimal(own), "1", "90");
  }

  /** Where a relocation of the module points: to a symbol of its own, to a target its symbol names, or to a
      symbol of another module. */
  function Resolve(own: nat, symtab: seq<Symbol>, modules: seq<seq<Symbol>>, r: Rela): Option<(nat, Symbol)>
    requires 1 <= r.sym <= |symtab|
  {
    var symbol := symtab[r.sym - 1];
    if symbol.shndx != SHN_UNDEF then Some((own, symbol)) else ResolveName(own, modules, Renamed(symbol.name, own))
  }

  function ResolveName(own: nat, modules: seq<seq<Symbol>>, name: string): Option<(nat, Symbol)> {
    match Search(name)
    case Some(t) => Some((t.mod, Symbol("", t.addend, 0, 0, 0, 0, t.section)))
    case None => SearchModules(modules, own, name, 0)
  }

  type Resolution = Option<(nat, Symbol)>

  function Resolutions(own: nat, symtab: seq<Symbol>, modules: seq<seq<Symbol>>, relas: seq<Rela>): (r: seq<Resolution>)
    requires ValidIndices(relas, symtab)
    ensures |r| == |relas| && forall i :: 0 <= i < |r| ==> r[i] == Resolve(own, symtab, modules, relas[i])
  {
    seq(|relas|, i requires 0 <= i < |relas| => Resolve(own, symtab, modules, relas[i]))
  }

  /** The relocations that are resolved to module `mod`, in order, with their symbols. */
  function Select(relas: seq<Rela>, res: seq<Resolution>, mod: nat): seq<ElfReloc>
    requires |res| == |relas|
  {
    if relas == [] then []
    else
      (if res[0].Some? && res[0].value.0 == mod then [(relas[0], res[0].value.1)] else [])
        + Select(relas[1..], res[1..], mod)
  }

  function ResolvedTo(own: nat, symtab: seq<Symbol>, modules: seq<seq<Symbol>>, relas: seq<Rela>, mod: nat)
    : seq<ElfReloc>
    requires ValidIndices(relas, symtab)
  {
    Select(relas, Resolutions(own, symtab, modules, relas), mod)
  }

  /** How many relocations point nowhere. */
  function Unresolved(own: nat, symtab: seq<Symbol>, modules: seq<seq<Symbol>>, relas: seq<Rela>): nat
    requires ValidIndices(relas, symtab)
  {
    if relas == [] then 0
    else (if Resolve(own, symtab, modules, relas[0]).None? then 1 else 0)
         + Unresolved(own, symtab, modules, relas[1..])
  }

  predicate ValidIndices(relas: seq<Rela>, symtab: seq<Symbol>) {
    forall i :: 0 <= i < |relas| ==> 1 <= relas[i].sym <= |symtab|
  }

  /** `module_classify` holds exactly the relocations of each module that has any. */
  ghost predicate Classifies(classify: map<nat, seq<ElfReloc>>, own: nat, symtab: seq<Symbol>,
                             modules: seq<seq<Symbol>>, relas: seq<Rela>)
    requires ValidIndices(relas, symtab)
  {
    && (forall m :: m in classify <==> ResolvedTo(own, symtab, modules, relas, m) != [])
    && (forall m :: m in classify ==> classify[m] == ResolvedTo(own, symtab, modules, relas, m))
  }

  lemma {:induction false} SelectSnoc(relas: seq<Rela>, res: seq<Resolution>, r: Rela, x: Resolution, mod: nat)
    requires |res| == |relas|
    ensures Select(relas + [r], res + [x], mod)
         == Select(relas, res, mod) + (if x.Some? && x.value.0 == mod then [(r, x.value.1)] else [])
    decreases |relas|
  {
    if relas == [] {
      assert [] + [r] == [r] && [r][1..] == [] && res + [x] == [x];
    } else {
      assert (relas + [r])[0] == relas[0] && (relas + [r])[1..] == relas[1..] + [r];
      assert (res + [x])[0] == res[0] && (res + [x])[1..] == res[1..] + [x];
      SelectSnoc(relas[1..], res[1..], r, x, mod);
      var here := if res[0].Some? && res[0].value.0 == mod then [(relas[0], res[0].value.1)] else [];
      var last := if x.Some? && x.value.0 == mod then [(r, x.value.1)] else [];
      assert here + (Select(relas[1..], res[1..], mod) + last) == (here + Select(relas[1..], res[1..], mod)) + last;
    }
  }

  lemma ResolvedToSnoc(own: nat, symtab: seq<Symbol>, modules: seq<seq<Symbol>>, relas: seq<Rela>, r: Rela, mod: nat)
    requires ValidIndices(relas, symtab) && 1 <= r.sym <= |symtab|
    ensures ValidIndices(relas + [r], symtab)
    ensures var res := Resolve(own, symtab, modules, r);
            var here := if res.Some? && res.value.0 == mod then [(r, res.value.1)] else [];
            ResolvedTo(own, symtab, modules, relas + [r], mod) == ResolvedTo(own, symtab, modules, relas, mod) + here
  {
    var res, x := Resolutions(own, symtab, modules, relas), Resolve(own, symtab, modules, r);
    assert ValidIndices(relas + [r], symtab);
    assert Resolutions(own, symtab, modules, relas + [r]) == res + [x];
    SelectSnoc(relas, res, r, x, mod);
  }

  class Classifier {
    /** `sym_cache`: the symbols found so far, by module number and name. */
    var symCache: map<(nat, string), seq<Symbol>>

    constructor ()
      ensures symCache == map[]
    {
      symCache := map[];
    }

    /** The cache holds nothing but search results of these modules. */
    ghost predicate Coherent(modules: seq<seq<Symbol>>)
      reads this
    {
      forall k :: k in symCache ==> k.0 < |modules| && symCache[k] == GetSymbols(modules[k.0], k.1)
    }

    /** `find_symbol`: with a coherent cache it finds what a search of the symbol table finds. */
    method FindSymbol(modules: seq<seq<Symbol>>, i: nat, name: string) returns (found: Option<Symbol>)
      requires i < |modules| && Coherent(modules)
      modifies this
      ensures Coherent(modules)
      ensures found == Defined(modules[i], name)
    {
      var tryFound: seq<Symbol>;
      if (i, name) in symCache {
        tryFound := symCache[(i, name)];
      } else {
        tryFound := GetSymbols(modules[i], name);
        symCache := symCache[(i, name) := tryFound];
      }
      found := if tryFound != [] && tryFound[0].shndx != SHN_UNDEF then Some(tryFound[0]) else None;
    }

    /** The search of the other modules for one name. */
    method FindInModules(modules: seq<seq<Symbol>>, own: nat, name: string) returns (found: Option<(nat, Symbol)>)
      requires Coherent(modules)
      modifies this
      ensures Coherent(modules)
      ensures found == SearchModules(modules, own, name, 0)
    {
      for i := 0 to |modules|
        invariant Coherent(modules)
        invariant SearchModules(modules, own, name, 0) == SearchModules(modules, own, name, i)
      {
        if i != own {
          var sym := FindSymbol(modules, i, name);
          if sym.Some? {
            return Some((i, sym.value));
          }
        }
      }
      return None;
    }

    /** The module and symbol one relocation points to. */
    method FindTarget(own: nat, symtab: seq<Symbol>, modules: seq<seq<Symbol>>, reloc: Rela)
      returns (found: Option<(nat, Symbol)>)
      requires 1 <= reloc.sym <= |symtab| && Coherent(modules)
      modifies this
      ensures Coherent(modules) && found == Resolve(own, symtab, modules, reloc)
    {
      var symbol := symtab[reloc.sym - 1];
      if symbol.shndx != SHN_UNDEF {
        return Some((own, symbol));
      }
      var symName := Renamed(symbol.name, own);
      var m := Search(symName);
      if m.Some? {
        return Some((m.value.mod, Symbol("", m.value.addend, 0, 0, 0, 0, m.value.section)));
      }
      found := FindInModules(modules, own, symName);
    }

    /** The part of `process_file` that turns the relocations of all sections into relocation tables, with the number of
        unresolved symbols; `None` stands for the encoder's failing assertion. */
    method BuildTables(own: nat, symtab: seq<Symbol>, modules: seq<seq<Symbol>>, relaSecs: seq<seq<Rela>>)
      returns (tables: Option<map<nat, seq<Reloc>>>, unresolved: nat)
      requires AllValidIndices(relaSecs, symtab) && Coherent(modules)
      modifies this
      ensures Coherent(modules)
      ensures tables.Some? <==> AllSorted(own, symtab, modules, relaSecs)
      ensures tables.Some? ==> forall m: nat ::
                var groups := GroupsOf(own, symtab, modules, relaSecs, m);
                SortedGroups(groups) && (m in tables.value <==> groups != [])
                && (m in tables.value ==> tables.value[m] == EncodeGroups(groups))
      ensures tables.Some? ==> unresolved == AllUnresolved(own, symtab, modules, relaSecs)
    {
      var moduleRelocations: map<nat, seq<Reloc>> := map[];
      unresolved := 0;
      for k := 0 to |relaSecs|
        invariant Coherent(modules) && Tables(moduleRelocations, own, symtab, modules, relaSecs[..k])
        invariant AllSorted(own, symtab, modules, relaSecs[..k])
        invariant unresolved == AllUnresolved(own, symtab, modules, relaSecs[..k])
      {
        assert ValidIndices(relaSecs[k], symtab);
        var moduleClassify, more := Classify(own, symtab, modules, relaSecs[k]);
        var extended := ExtendTables(moduleRelocations, moduleClassify, k);
        SortedStep(moduleClassify, own, symtab, modules, relaSecs, k);
        if extended.None? {
          return None, unresolved;
        }
        TablesStep(moduleRelocations, extended.value, moduleClassify, own, symtab, modules, relaSecs, k);
        moduleRelocations := extended.value;
        assert relaSecs[..k + 1][..k] == relaSecs[..k];
        unresolved := unresolved + more;
      }
      assert relaSecs[..|relaSecs|] == relaSecs;
      return Some(map m | m in moduleRelocations :: moduleRelocations[m] + [Stop]), unresolved;
    }

    /** The loop of `process_file` over the relocations of one section. */
    method Classify(own: nat, symtab: seq<Symbol>, modules: seq<seq<Symbol>>, relas: seq<Rela>)
      returns (moduleClassify: map<nat, seq<ElfReloc>>, unresolved: nat)
      requires ValidIndices(relas, symtab) && Coherent(modules)
      modifies this
      ensures Coherent(modules) && Classifies(moduleClassify, own, symtab, modules, relas)
      ensures unresolved == Unresolved(own, symtab, modules, relas)
    {
      moduleClassify, unresolved := map[], 0;
      assert relas[0..] == relas;
      for i := 0 to |relas|
        invariant Coherent(modules) && Classifies(moduleClassify, own, symtab, modules, relas[..i])
        invariant unresolved + Unresolved(own, symtab, modules, relas[i..]) == Unresolved(own, symtab, modules, relas)
      {
        var reloc := relas[i];
        assert relas[i..][0] == reloc && relas[i..][1..] == relas[i + 1..];
        var found := FindTarget(own, symtab, modules, reloc);
        ghost var before := moduleClassify;
        if found.None? {
          unresolved := unresolved + 1;
        } else {
          moduleClassify := AddSymbol(moduleClassify, found.value.0, reloc, found.value.1);
        }
        ClassifyStep(before, moduleClassify, own, symtab, modules, relas, i);
      }
      assert relas[..|relas|] == relas;
    }
  }

  /** `add_symbol` of tools/build_rel.py */
  function AddSymbol(classify: map<nat, seq<ElfReloc>>, i: nat, reloc: Rela, sym: Symbol): map<nat, seq<ElfReloc>> {
    classify[i := (if i in classify then classify[i] else []) + [(reloc, sym)]]
  }

  lemma ClassifyStep(before: map<nat, seq<ElfReloc>>, after: map<nat, seq<ElfReloc>>, own: nat, symtab: seq<Symbol>,
                     modules: seq<seq<Symbol>>, relas: seq<Rela>, i: nat)
    requires i < |relas| && ValidIndices(relas, symtab)
    requires Classifies(before, own, symtab, modules, relas[..i])
    requires var res := Resolve(own, symtab, modules, relas[i]);
             after == if res.None? then before else AddSymbol(before, res.value.0, relas[i], res.value.1)
    ensures Classifies(after, own, symtab, modules, relas[..i + 1])
  {
    assert relas[..i + 1] == relas[..i] + [relas[i]];
    forall m: nat
      ensures m in after <==> ResolvedTo(own, symtab, modules, relas[..i + 1], m) != []
      ensures m in after ==> after[m] == ResolvedTo(own, symtab, modules, relas[..i + 1], m)
    {
      ResolvedToSnoc(own, symtab, modules, relas[..i], relas[i], m);
    }
  }

  // ----- building the tables -----

  predicate AllValidIndices(relaSecs: seq<seq<Rela>>, symtab: seq<Symbol>) {
    forall k :: 0 <= k < |relaSecs| ==> ValidIndices(relaSecs[k], symtab)
  }

  /** How many relocations of all sections point nowhere. */
  function AllUnresolved(own: nat, symtab: seq<Symbol>, modules: seq<seq<Symbol>>, relaSecs: seq<seq<Rela>>): nat
    requires AllValidIndices(relaSecs, symtab)
    decreases |relaSecs|
  {
    var n := |relaSecs|;
    if n == 0 then 0
    else
      AllUnresolved(own, symtab, modules, relaSecs[..n - 1]) + Unresolved(own, symtab, modules, relaSecs[n - 1])
  }

  /** The relocations of every section that point to `mod`; sections without any leave no trace. */
  function GroupsOf(own: nat, symtab: seq<Symbol>, modules: seq<seq<Symbol>>, relaSecs: seq<seq<Rela>>, mod: nat)
    : seq<Group>
    requires AllValidIndices(relaSecs, symtab)
    decreases |relaSecs|
  {
    var n := |relaSecs|;
    if n == 0 then []
    else
      var here := ResolvedTo(own, symtab, modules, relaSecs[n - 1], mod);
      GroupsOf(own, symtab, modules, relaSecs[..n - 1], mod) + (if here != [] then [Group(n - 1, here)] else [])
  }

  /** The encoder's ordering assertion holds for every section and module. */
  ghost predicate AllSorted(own: nat, symtab: seq<Symbol>, modules: seq<seq<Symbol>>, relaSecs: seq<seq<Rela>>)
    requires AllValidIndices(relaSecs, symtab)
  {
    forall k, m: nat :: 0 <= k < |relaSecs| ==> SortedFrom(ResolvedTo(own, symtab, modules, relaSecs[k], m), 0)
  }

  lemma {:induction false} GroupsSorted(own: nat, symtab: seq<Symbol>, modules: seq<seq<Symbol>>,
                                        relaSecs: seq<seq<Rela>>, mod: nat)
    requires AllValidIndices(relaSecs, symtab) && AllSorted(own, symtab, modules, relaSecs)
    ensures SortedGroups(GroupsOf(own, symtab, modules, relaSecs, mod))
    decreases |relaSecs|
  {
    var n := |relaSecs|;
    if n > 0 {
      SortedPrefix(own, symtab, modules, relaSecs, n - 1);
      GroupsSorted(own, symtab, modules, relaSecs[..n - 1], mod);
      assert SortedFrom(ResolvedTo(own, symtab, modules, relaSecs[n - 1], mod), 0);
    }
  }

  lemma SortedPrefix(own: nat, symtab: seq<Symbol>, modules: seq<seq<Symbol>>, relaSecs: seq<seq<Rela>>, k: nat)
    requires AllValidIndices(relaSecs, symtab) && AllSorted(own, symtab, modules, relaSecs) && k <= |relaSecs|
    ensures AllValidIndices(relaSecs[..k], symtab) && AllSorted(own, symtab, modules, relaSecs[..k])
  {
    forall j, m: nat | 0 <= j < k ensures SortedFrom(ResolvedTo(own, symtab, modules, relaSecs[..k][j], m), 0) {
      assert relaSecs[..k][j] == relaSecs[j];
    }
  }

  /** `module_relocations` before its STOP entries are appended. */
  ghost predicate Tables(tables: map<nat, seq<Reloc>>, own: nat, symtab: seq<Symbol>, modules: seq<seq<Symbol>>,
                         relaSecs: seq<seq<Rela>>)
    requires AllValidIndices(relaSecs, symtab)
  {
    forall m: nat ::
      var groups := GroupsOf(own, symtab, modules, relaSecs, m);
      SortedGroups(groups) && (m in tables <==> groups != []) && (m in tables ==> tables[m] == EncodeBody(groups))
  }

  /** `module_relocations[mod].extend(...)` */
  function Extend(tables: map<nat, seq<Reloc>>, mod: nat, more: seq<Reloc>): map<nat, seq<Reloc>> {
    tables[mod := (if mod in tables then tables[mod] else []) + more]
  }

  /** The tables with the relocations of section `k` behind those of the sections before it, as far as the modules
      of `done` go. */
  ghost predicate Extended(after: map<nat, seq<Reloc>>, before: map<nat, seq<Reloc>>,
                           classify: map<nat, seq<ElfReloc>>, done: set<nat>, k: nat)
    requires forall m :: m in done ==> m in classify && SortedFrom(classify[m], 0)
  {
    forall m: nat ::
      && (m in done ==>
           m in after && after[m] == (if m in before then before[m] else []) + EncodeSection(classify[m], k))
      && (m !in done ==> (m in after <==> m in before) && (m in before ==> after[m] == before[m]))
  }

  method ExtendTables(before: map<nat, seq<Reloc>>, classify: map<nat, seq<ElfReloc>>, k: nat)
    returns (after: Option<map<nat, seq<Reloc>>>)
    ensures after.Some? <==> forall m :: m in classify ==> SortedFrom(classify[m], 0)
    ensures after.Some? ==> Extended(after.value, before, classify, classify.Keys, k)
  {
    var tables, todo := before, classify.Keys;
    ghost var done: set<nat> := {};
    while todo != {}
      invariant done + todo == classify.Keys && done !! todo
      invariant forall m :: m in done ==> m in classify && SortedFrom(classify[m], 0)
      invariant Extended(tables, before, classify, done, k)
      decreases todo
    {
      var mod :| mod in todo;
      var converted := ConvertToRelRelocations(classify[mod], k);
      if converted.None? {
        return None;
      }
      tables := Extend(tables, mod, converted.value);
      todo := todo - {mod};
      done := done + {mod};
    }
    return Some(tables);
  }

  lemma SortedStep(classify: map<nat, seq<ElfReloc>>, own: nat, symtab: seq<Symbol>, modules: seq<seq<Symbol>>,
                   relaSecs: seq<seq<Rela>>, k: nat)
    requires k < |relaSecs| && AllValidIndices(relaSecs, symtab) && AllValidIndices(relaSecs[..k], symtab)
    requires Classifies(classify, own, symtab, modules, relaSecs[k])
    requires AllSorted(own, symtab, modules, relaSecs[..k])
    ensures AllValidIndices(relaSecs[..k + 1], symtab)
    ensures (forall m :: m in classify ==> SortedFrom(classify[m], 0))
       <==> AllSorted(own, symtab, modules, relaSecs[..k + 1])
    ensures AllSorted(own, symtab, modules, relaSecs) ==> forall m :: m in classify ==> SortedFrom(classify[m], 0)
  {
    if forall m :: m in classify ==> SortedFrom(classify[m], 0) {
      var prefix := relaSecs[..k + 1];
      forall j, m: nat | 0 <= j < |prefix| ensures SortedFrom(ResolvedTo(own, symtab, modules, prefix[j], m), 0) {
        if j < k {
          assert prefix[j] == relaSecs[..k][j];
        } else {
          assert m !in classify ==> ResolvedTo(own, symtab, modules, relaSecs[k], m) == [];
        }
      }
    }
    if AllSorted(own, symtab, modules, relaSecs[..k + 1]) {
      forall m | m in classify ensures SortedFrom(classify[m], 0) {
        assert SortedFrom(ResolvedTo(own, symtab, modules, relaSecs[..k + 1][k], m), 0);
      }
    }
  }

  lemma TablesStep(before: map<nat, seq<Reloc>>, after: map<nat, seq<Reloc>>, classify: map<nat, seq<ElfReloc>>,
                   own: nat, symtab: seq<Symbol>, modules: seq<seq<Symbol>>, relaSecs: seq<seq<Rela>>, k: nat)
    requires k < |relaSecs| && AllValidIndices(relaSecs, symtab)
    requires Tables(before, own, symtab, modules, relaSecs[..k])
    requires Classifies(classify, own, symtab, modules, relaSecs[k])
    requires forall m :: m in classify ==> SortedFrom(classify[m], 0)
    requires Extended(after, before, classify, classify.Keys, k)
    ensures Tables(after, own, symtab, modules, relaSecs[..k + 1])
  {
    forall m: nat
      ensures var groups := GroupsOf(own, symtab, modules, relaSecs[..k + 1], m);
              SortedGroups(groups) && (m in after <==> groups != []) && (m in after ==> after[m] == EncodeBody(groups))
    {
      TableStep(before, after, classify, own, symtab, modules, relaSecs, k, m);
    }
  }

  lemma GroupsStep(own: nat, symtab: seq<Symbol>, modules: seq<seq<Symbol>>, relaSecs: seq<seq<Rela>>, k: nat, m: nat)
    requires k < |relaSecs| && AllValidIndices(relaSecs, symtab)
    ensures var here := ResolvedTo(own, symtab, modules, relaSecs[k], m);
            var last := if here != [] then [Group(k, here)] else [];
            GroupsOf(own, symtab, modules, relaSecs[..k + 1], m)
            == GroupsOf(own, symtab, modules, relaSecs[..k], m) + last
  {
    assert relaSecs[..k + 1][..k] == relaSecs[..k];
  }

  lemma TableStep(before: map<nat, seq<Reloc>>, after: map<nat, seq<Reloc>>, classify: map<nat, seq<ElfReloc>>,
                  own: nat, symtab: seq<Symbol>, modules: seq<seq<Symbol>>, relaSecs: seq<seq<Rela>>, k: nat, m: nat)
    requires k < |relaSecs| && AllValidIndices(relaSecs, symtab)
    requires Tables(before, own, symtab, modules, relaSecs[..k])
    requires Classifies(classify, own, symtab, modules, relaSecs[k])
    requires forall m :: m in classify ==> SortedFrom(classify[m], 0)
    requires Extended(after, before, classify, classify.Keys, k)
    ensures var groups := GroupsOf(own, symtab, modules, relaSecs[..k + 1], m);
            SortedGroups(groups) && (m in after <==> groups != []) && (m in after ==> after[m] == EncodeBody(groups))
  {
    GroupsStep(own, symtab, modules, relaSecs, k, m);
    var groups := GroupsOf(own, symtab, modules, relaSecs[..k], m);
    var here := ResolvedTo(own, symtab, modules, relaSecs[k], m);
    if here != [] {
      assert m in classify && classify[m] == here;
      EncodeBodySnoc(groups, Group(k, here));
    } else {
      assert m !in classify.Keys && groups + [] == groups;
    }
  }
}
