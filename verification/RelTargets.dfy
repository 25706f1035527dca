/** Where the relocations of a module point, stated on the symbols themselves, and what the tables that
    tools/build_rel.py makes of them say. */
module RelTargets {
  import opened RelNames
  import opened RelPipeline
  import opened RelTable
  import opened RelTypes
  import opened Wrappers

  // ----- where one relocation points -----

  /** `sym` is the first symbol of that name, and it is defined. */
  ghost predicate FirstDefined(syms: seq<Symbol>, name: string, sym: Symbol) {
    sym.shndx != 0 && exists j :: 0 <= j < |syms| && syms[j] == sym && sym.name == name
                                  && forall i :: 0 <= i < j ==> syms[i].name != name
  }

  /** Module `i` is another one and its first symbol of that name is defined. */
  ghost predicate Supplies(modules: seq<seq<Symbol>>, own: nat, name: string, i: nat) {
    i < |modules| && i != own && exists sym :: FirstDefined(modules[i], name, sym)
  }

  /** The name under which an undefined symbol is looked up. */
  function LookedUp(name: string, own: nat): string {
    if name == "__destroy_global_chain" then "R_" + Decimal(own) + "_1_90" else name
  }

  /** An undefined name leads to `value` in section `section` of module `m`: the place that it spells, or the first
      symbol of that name in the first other module that defines it. */
  ghost predicate NameLeadsTo(own: nat, modules: seq<seq<Symbol>>, name: string, m: nat, section: nat, value: nat) {
    match Search(name)
    case Some(t) => t == Target(m, section, value)
    case None =>
      && Supplies(modules, own, name, m)
      && (forall i :: 0 <= i < m ==> !Supplies(modules, own, name, i))
      && exists sym :: FirstDefined(modules[m], name, sym) && sym.shndx == section && sym.value == value
  }

  /** A relocation against symbol `s` points to `value` in section `section` of module `m`: to the symbol itself in the
      own module if it is defined, else to where its name leads. */
  ghost predicate LeadsTo(own: nat, modules: seq<seq<Symbol>>, s: Symbol, m: nat, section: nat, value: nat) {
    if s.shndx != 0 then m == own && section == s.shndx && value == s.value
    else NameLeadsTo(own, modules, LookedUp(s.name, own), m, section, value)
  }

  ghost predicate PointsTo(own: nat, symtab: seq<Symbol>, modules: seq<seq<Symbol>>, rela: Rela, m: nat, section: nat,
                           value: nat)
  {
    1 <= rela.sym <= |symtab| && LeadsTo(own, modules, symtab[rela.sym - 1], m, section, value)
  }

  // ----- the resolution does that -----

  lemma {:induction false} DefinedMeaning(syms: seq<Symbol>, name: string, sym: Symbol)
    ensures Defined(syms, name) == Some(sym) <==> FirstDefined(syms, name, sym)
  {
    FoundFirst(syms, name);
    var found := GetSymbols(syms, name);
    if found != [] {
      var j :| 0 <= j < |syms| && syms[j] == found[0] && syms[j].name == name
               && forall i :: 0 <= i < j ==> syms[i].name != name;
    }
  }

  lemma {:induction false} FoundFirst(syms: seq<Symbol>, name: string)
    ensures GetSymbols(syms, name) == [] <==> forall i :: 0 <= i < |syms| ==> syms[i].name != name
    ensures GetSymbols(syms, name) != [] ==>
              exists j :: 0 <= j < |syms| && syms[j] == GetSymbols(syms, name)[0] && syms[j].name == name
                          && forall i :: 0 <= i < j ==> syms[i].name != name
  {
    if syms != [] {
      var rest := syms[1..];
      FoundFirst(rest, name);
      if syms[0].name == name {
        assert GetSymbols(syms, name)[0] == syms[0];
      } else {
        assert GetSymbols(syms, name) == GetSymbols(rest, name);
        if GetSymbols(rest, name) != [] {
          var j :| 0 <= j < |rest| && rest[j] == GetSymbols(rest, name)[0] && rest[j].name == name
                   && forall i :: 0 <= i < j ==> rest[i].name != name;
          assert syms[j + 1] == rest[j];
          forall i | 0 <= i < j + 1 ensures syms[i].name != name {
            if i > 0 { assert rest[i - 1].name != name; }
          }
        } else {
          forall i | 0 <= i < |syms| ensures syms[i].name != name {
            if i > 0 { assert rest[i - 1].name != name; }
          }
        }
      }
    }
  }

  lemma SuppliesDefined(modules: seq<seq<Symbol>>, own: nat, name: string, i: nat)
    ensures Supplies(modules, own, name, i) <==> i < |modules| && i != own && Defined(modules[i], name).Some?
  {
    if i < |modules| {
      if Defined(modules[i], name).Some? { DefinedMeaning(modules[i], name, Defined(modules[i], name).value); }
      if Supplies(modules, own, name, i) {
        var sym :| FirstDefined(modules[i], name, sym);
        DefinedMeaning(modules[i], name, sym);
      }
    }
  }

  /** From module `k` on, the search finds the first that supplies the name. */
  lemma {:induction false} SearchMeaning(modules: seq<seq<Symbol>>, own: nat, name: string, k: nat)
    requires forall i :: 0 <= i < k ==> !Supplies(modules, own, name, i)
    ensures match SearchModules(modules, own, name, k)
            case None => forall i: nat :: !Supplies(modules, own, name, i)
            case Some((m, sym)) =>
              && Supplies(modules, own, name, m) && FirstDefined(modules[m], name, sym)
              && forall i :: 0 <= i < m ==> !Supplies(modules, own, name, i)
    decreases |modules| - k
  {
    if k < |modules| {
      SuppliesDefined(modules, own, name, k);
      if k != own && Defined(modules[k], name).Some? {
        DefinedMeaning(modules[k], name, Defined(modules[k], name).value);
      } else {
        SearchMeaning(modules, own, name, k + 1);
      }
    }
  }

  lemma FirstUnique(syms: seq<Symbol>, name: string, a: Symbol, b: Symbol)
    requires FirstDefined(syms, name, a) && FirstDefined(syms, name, b)
    ensures a == b
  {
    DefinedMeaning(syms, name, a);
    DefinedMeaning(syms, name, b);
  }

  lemma LeastUnique(modules: seq<seq<Symbol>>, own: nat, name: string, a: nat, b: nat)
    requires Supplies(modules, own, name, a) && Supplies(modules, own, name, b)
    requires forall i :: 0 <= i < a ==> !Supplies(modules, own, name, i)
    requires forall i :: 0 <= i < b ==> !Supplies(modules, own, name, i)
    ensures a == b
  {
  }

  /** What the module search resolves a name to is where the name leads. */
  lemma NameMeaning(own: nat, modules: seq<seq<Symbol>>, name: string, m: nat, section: nat, value: nat)
    ensures NameLeadsTo(own, modules, name, m, section, value)
       <==> var res := ResolveName(own, modules, name);
            res.Some? && res.value.0 == m && res.value.1.shndx == section && res.value.1.value == value
  {
    if Search(name).None? {
      SearchMeaning(modules, own, name, 0);
      var res := SearchModules(modules, own, name, 0);
      if NameLeadsTo(own, modules, name, m, section, value) && res.Some? {
        LeastUnique(modules, own, name, m, res.value.0);
        var sym :| FirstDefined(modules[m], name, sym) && sym.shndx == section && sym.value == value;
        FirstUnique(modules[m], name, sym, res.value.1);
      }
    }
  }

  /** A relocation is resolved to a symbol of a module exactly where it points. */
  lemma ResolveMeaning(own: nat, symtab: seq<Symbol>, modules: seq<seq<Symbol>>, rela: Rela, m: nat, section: nat,
                       value: nat)
    requires 1 <= rela.sym <= |symtab|
    ensures PointsTo(own, symtab, modules, rela, m, section, value)
       <==> var res := Resolve(own, symtab, modules, rela);
            res.Some? && res.value.0 == m && res.value.1.shndx == section && res.value.1.value == value
  {
    NameMeaning(own, modules, LookedUp(symtab[rela.sym - 1].name, own), m, section, value);
  }

  // ----- what the tables say -----

  /** Something of the relocation belongs to module `m`. */
  ghost predicate PointsInto(own: nat, symtab: seq<Symbol>, modules: seq<seq<Symbol>>, rela: Rela, m: nat) {
    exists section, value :: PointsTo(own, symtab, modules, rela, m, section, value)
  }

  /** `r` is the reference that a relocation of section `sec` means. */
  ghost predicate Means(own: nat, symtab: seq<Symbol>, modules: seq<seq<Symbol>>, rela: Rela, sec: nat, r: Ref) {
    && r.section == sec && r.pos == rela.offset && r.kind == rela.kind
    && exists value: nat ::
         PointsTo(own, symtab, modules, rela, r.mod, r.target, value) && r.addend == value + rela.addend
  }

  /** `refs` are the meanings of those relocations of section `sec` that point into module `m`, in order. */
  ghost predicate SectionSays(own: nat, symtab: seq<Symbol>, modules: seq<seq<Symbol>>, relas: seq<Rela>, sec: nat,
                              m: nat, refs: seq<Ref>)
  {
    if relas == [] then refs == []
    else if PointsInto(own, symtab, modules, relas[0], m) then
      && refs != [] && refs[0].mod == m && Means(own, symtab, modules, relas[0], sec, refs[0])
      && SectionSays(own, symtab, modules, relas[1..], sec, m, refs[1..])
    else SectionSays(own, symtab, modules, relas[1..], sec, m, refs)
  }

  /** `refs` are those of all sections before `n`, section by section. */
  ghost predicate ModuleSays(own: nat, symtab: seq<Symbol>, modules: seq<seq<Symbol>>, relaSecs: seq<seq<Rela>>, n: nat,
                             m: nat, refs: seq<Ref>)
    requires n <= |relaSecs|
  {
    if n == 0 then refs == []
    else
      exists k :: 0 <= k <= |refs| && ModuleSays(own, symtab, modules, relaSecs, n - 1, m, refs[..k])
                  && SectionSays(own, symtab, modules, relaSecs[n - 1], n - 1, m, refs[k..])
  }

  lemma IntoResolved(own: nat, symtab: seq<Symbol>, modules: seq<seq<Symbol>>, rela: Rela, m: nat)
    requires 1 <= rela.sym <= |symtab|
    ensures PointsInto(own, symtab, modules, rela, m)
       <==> Resolve(own, symtab, modules, rela).Some? && Resolve(own, symtab, modules, rela).value.0 == m
  {
    var res := Resolve(own, symtab, modules, rela);
    if res.Some? && res.value.0 == m {
      ResolveMeaning(own, symtab, modules, rela, m, res.value.1.shndx, res.value.1.value);
    }
    if PointsInto(own, symtab, modules, rela, m) {
      var section, value :| PointsTo(own, symtab, modules, rela, m, section, value);
      ResolveMeaning(own, symtab, modules, rela, m, section, value);
    }
  }

  lemma ResolvedMeans(own: nat, symtab: seq<Symbol>, modules: seq<seq<Symbol>>, rela: Rela, sec: nat, sym: Symbol,
                      m: nat)
    requires 1 <= rela.sym <= |symtab| && Resolve(own, symtab, modules, rela) == Some((m, sym))
    ensures Means(own, symtab, modules, rela, sec,
                  Ref(sec, rela.offset, rela.kind, m, sym.shndx, sym.value + rela.addend))
  {
    ResolveMeaning(own, symtab, modules, rela, m, sym.shndx, sym.value);
  }

  lemma {:induction false} SectionSaid(own: nat, symtab: seq<Symbol>, modules: seq<seq<Symbol>>, relas: seq<Rela>,
                                       sec: nat, m: nat)
    requires ValidIndices(relas, symtab)
    ensures SectionSays(own, symtab, modules, relas, sec, m,
                        Wanted(m, ResolvedTo(own, symtab, modules, relas, m), sec))
    decreases |relas|
  {
    if relas != [] {
      var r, res := relas[0], Resolve(own, symtab, modules, relas[0]);
      SectionSaid(own, symtab, modules, relas[1..], sec, m);
      IntoResolved(own, symtab, modules, r, m);
      ResolvedCons(own, symtab, modules, relas, m);
      if res.Some? && res.value.0 == m {
        var sym, rest := res.value.1, ResolvedTo(own, symtab, modules, relas[1..], m);
        ResolvedMeans(own, symtab, modules, r, sec, sym, m);
        WantedFirst(m, r, sym, rest, sec);
      } else {
        assert ResolvedTo(own, symtab, modules, relas, m) == ResolvedTo(own, symtab, modules, relas[1..], m);
      }
    }
  }

  lemma WantedFirst(m: nat, rela: Rela, sym: Symbol, rest: seq<ElfReloc>, sec: nat)
    ensures var refs := Wanted(m, [(rela, sym)] + rest, sec);
            && refs[0] == Ref(sec, rela.offset, rela.kind, m, sym.shndx, sym.value + rela.addend)
            && refs[1..] == Wanted(m, rest, sec)
  {
  }

  lemma ResolvedCons(own: nat, symtab: seq<Symbol>, modules: seq<seq<Symbol>>, relas: seq<Rela>, m: nat)
    requires relas != [] && ValidIndices(relas, symtab)
    ensures ValidIndices(relas[1..], symtab)
    ensures var res := Resolve(own, symtab, modules, relas[0]);
            ResolvedTo(own, symtab, modules, relas, m)
            == (if res.Some? && res.value.0 == m then [(relas[0], res.value.1)] else [])
               + ResolvedTo(own, symtab, modules, relas[1..], m)
  {
    assert Resolutions(own, symtab, modules, relas)[1..] == Resolutions(own, symtab, modules, relas[1..]);
  }

  lemma {:induction false} ModuleSaid(own: nat, symtab: seq<Symbol>, modules: seq<seq<Symbol>>,
                                      relaSecs: seq<seq<Rela>>, n: nat, m: nat)
    requires n <= |relaSecs| && AllValidIndices(relaSecs, symtab) && AllValidIndices(relaSecs[..n], symtab)
    ensures ModuleSays(own, symtab, modules, relaSecs, n, m,
                       WantedGroups(m, GroupsOf(own, symtab, modules, relaSecs[..n], m)))
    decreases n
  {
    if n == 0 {
      assert relaSecs[..0] == [];
    } else {
      ValidPrefix(relaSecs, symtab, n - 1);
      ModuleSaid(own, symtab, modules, relaSecs, n - 1, m);
      SectionSaid(own, symtab, modules, relaSecs[n - 1], n - 1, m);
      GroupsSnoc(own, symtab, modules, relaSecs, m, n - 1);
      var a := WantedGroups(m, GroupsOf(own, symtab, modules, relaSecs[..n - 1], m));
      var b := Wanted(m, ResolvedTo(own, symtab, modules, relaSecs[n - 1], m), n - 1);
      assert (a + b)[..|a|] == a && (a + b)[|a|..] == b;
    }
  }

  lemma ValidPrefix(relaSecs: seq<seq<Rela>>, symtab: seq<Symbol>, n: nat)
    requires n <= |relaSecs| && AllValidIndices(relaSecs, symtab)
    ensures AllValidIndices(relaSecs[..n], symtab)
  {
  }

  lemma GroupsSnoc(own: nat, symtab: seq<Symbol>, modules: seq<seq<Symbol>>, relaSecs: seq<seq<Rela>>, m: nat, n: nat)
    requires n < |relaSecs| && AllValidIndices(relaSecs, symtab)
    requires AllValidIndices(relaSecs[..n], symtab) && AllValidIndices(relaSecs[..n + 1], symtab)
    ensures WantedGroups(m, GroupsOf(own, symtab, modules, relaSecs[..n + 1], m))
         == WantedGroups(m, GroupsOf(own, symtab, modules, relaSecs[..n], m))
            + Wanted(m, ResolvedTo(own, symtab, modules, relaSecs[n], m), n)
  {
    var here := ResolvedTo(own, symtab, modules, relaSecs[n], m);
    GroupsStep(own, symtab, modules, relaSecs, n, m);
    WantedSnoc(m, GroupsOf(own, symtab, modules, relaSecs[..n], m), n, here);
  }

  lemma {:induction false} WantedSnoc(m: nat, groups: seq<Group>, n: nat, here: seq<ElfReloc>)
    ensures WantedGroups(m, groups + (if here != [] then [Group(n, here)] else []))
         == WantedGroups(m, groups) + Wanted(m, here, n)
    decreases |groups|
  {
    if groups == [] {
      if here != [] {
        assert [] + [Group(n, here)] == [Group(n, here)] && [Group(n, here)][1..] == [];
        assert WantedGroups(m, [Group(n, here)]) == Wanted(m, here, n) + [];
      }
    } else {
      var last := if here != [] then [Group(n, here)] else [];
      assert (groups + last)[0] == groups[0] && (groups + last)[1..] == groups[1..] + last;
      WantedSnoc(m, groups[1..], n, here);
    }
  }

  lemma {:induction false} SectionHas(own: nat, symtab: seq<Symbol>, modules: seq<seq<Symbol>>, relas: seq<Rela>,
                                      sec: nat, m: nat, refs: seq<Ref>, j: nat)
    requires SectionSays(own, symtab, modules, relas, sec, m, refs) && j < |relas|
    requires PointsInto(own, symtab, modules, relas[j], m)
    ensures exists r :: r in refs && r.mod == m && Means(own, symtab, modules, relas[j], sec, r)
    decreases |relas|
  {
    var into := PointsInto(own, symtab, modules, relas[0], m);
    if j == 0 {
      assert refs[0] in refs;
    } else {
      var rest := if into then refs[1..] else refs;
      SectionHas(own, symtab, modules, relas[1..], sec, m, rest, j - 1);
      var r :| r in rest && r.mod == m && Means(own, symtab, modules, relas[1..][j - 1], sec, r);
      assert r in refs;
    }
  }

  lemma {:induction false} SectionOnly(own: nat, symtab: seq<Symbol>, modules: seq<seq<Symbol>>, relas: seq<Rela>,
                                       sec: nat, m: nat, refs: seq<Ref>, r: Ref)
    requires SectionSays(own, symtab, modules, relas, sec, m, refs) && r in refs
    ensures exists j :: 0 <= j < |relas| && r.mod == m && Means(own, symtab, modules, relas[j], sec, r)
    decreases |relas|
  {
    var into := PointsInto(own, symtab, modules, relas[0], m);
    if into && refs[0] == r {
      assert Means(own, symtab, modules, relas[0], sec, r);
    } else {
      var rest := if into then refs[1..] else refs;
      assert r in rest by { if into { assert refs == [refs[0]] + refs[1..]; } }
      SectionOnly(own, symtab, modules, relas[1..], sec, m, rest, r);
      var j :| 0 <= j < |relas[1..]| && Means(own, symtab, modules, relas[1..][j], sec, r);
      assert relas[j + 1] == relas[1..][j];
    }
  }

  lemma {:induction false} ModuleHas(own: nat, symtab: seq<Symbol>, modules: seq<seq<Symbol>>, relaSecs: seq<seq<Rela>>,
                                     n: nat, m: nat, refs: seq<Ref>, k: nat, j: nat)
    requires k < n <= |relaSecs| && ModuleSays(own, symtab, modules, relaSecs, n, m, refs)
    requires j < |relaSecs[k]| && PointsInto(own, symtab, modules, relaSecs[k][j], m)
    ensures exists r :: r in refs && r.mod == m && Means(own, symtab, modules, relaSecs[k][j], k, r)
    decreases n
  {
    var l := n - 1;
    var i := SplitLast(own, symtab, modules, relaSecs, l, m, refs);
    var a, b := refs[..i], refs[i..];
    if k == l {
      SectionHas(own, symtab, modules, relaSecs[k], k, m, b, j);
      var r :| r in b && r.mod == m && Means(own, symtab, modules, relaSecs[k][j], k, r);
      assert r in refs;
    } else {
      ModuleHas(own, symtab, modules, relaSecs, l, m, a, k, j);
      var r :| r in a && r.mod == m && Means(own, symtab, modules, relaSecs[k][j], k, r);
      assert r in refs;
    }
  }

  /** The references of the sections before `l`, and behind them those of section `l`. */
  lemma SplitLast(own: nat, symtab: seq<Symbol>, modules: seq<seq<Symbol>>, relaSecs: seq<seq<Rela>>, l: nat, m: nat,
                  refs: seq<Ref>) returns (i: nat)
    requires l < |relaSecs| && ModuleSays(own, symtab, modules, relaSecs, l + 1, m, refs)
    ensures i <= |refs| && ModuleSays(own, symtab, modules, relaSecs, l, m, refs[..i])
    ensures SectionSays(own, symtab, modules, relaSecs[l], l, m, refs[i..])
  {
    i :| 0 <= i <= |refs| && ModuleSays(own, symtab, modules, relaSecs, l, m, refs[..i])
         && SectionSays(own, symtab, modules, relaSecs[l], l, m, refs[i..]);
  }

  lemma {:induction false} ModuleOnly(own: nat, symtab: seq<Symbol>, modules: seq<seq<Symbol>>,
                                      relaSecs: seq<seq<Rela>>, n: nat, m: nat, refs: seq<Ref>, r: Ref)
    requires n <= |relaSecs| && ModuleSays(own, symtab, modules, relaSecs, n, m, refs) && r in refs
    ensures exists k, j :: 0 <= k < n && 0 <= j < |relaSecs[k]| && r.mod == m
                           && Means(own, symtab, modules, relaSecs[k][j], k, r)
    decreases n
  {
    var i :| 0 <= i <= |refs| && ModuleSays(own, symtab, modules, relaSecs, n - 1, m, refs[..i])
             && SectionSays(own, symtab, modules, relaSecs[n - 1], n - 1, m, refs[i..]);
    assert refs == refs[..i] + refs[i..];
    if r in refs[..i] {
      ModuleOnly(own, symtab, modules, relaSecs, n - 1, m, refs[..i], r);
      var k, j :| 0 <= k < n - 1 && 0 <= j < |relaSecs[k]| && Means(own, symtab, modules, relaSecs[k][j], k, r);
    } else {
      SectionOnly(own, symtab, modules, relaSecs[n - 1], n - 1, m, refs[i..], r);
      var j :| 0 <= j < |relaSecs[n - 1]| && Means(own, symtab, modules, relaSecs[n - 1][j], n - 1, r);
    }
  }

  // ----- what `BuildTables` returns -----

  /** The postcondition of `Classifier.BuildTables`. */
  ghost predicate Built(own: nat, symtab: seq<Symbol>, modules: seq<seq<Symbol>>, relaSecs: seq<seq<Rela>>,
                        tables: map<nat, seq<Reloc>>)
  {
    && AllValidIndices(relaSecs, symtab)
    && forall m: nat ::
         var groups := GroupsOf(own, symtab, modules, relaSecs, m);
         SortedGroups(groups) && (m in tables <==> groups != []) && (m in tables ==> tables[m] == EncodeGroups(groups))
  }

  /** The types of all relocations are ones that a relocation may have in an object. */
  predicate ObjectTypes(relaSecs: seq<seq<Rela>>) {
    forall k, j :: 0 <= k < |relaSecs| && 0 <= j < |relaSecs[k]| ==> relaSecs[k][j].kind < R_RVL_NONE
  }

  /** What the table of module `m` decodes to; a module without a table has no references. */
  function Decoded(tables: map<nat, seq<Reloc>>, m: nat): seq<Ref> {
    if m in tables then ReadRefs(m, tables[m], 0, 0) else []
  }

  /** The tables decode, module by module, to the meanings of the relocations that point into the module, section by
      section and in their order, and a module has a table exactly when there are any. */
  ghost predicate Say(own: nat, symtab: seq<Symbol>, modules: seq<seq<Symbol>>, relaSecs: seq<seq<Rela>>,
                      tables: map<nat, seq<Reloc>>)
  {
    forall m: nat :: ModuleSays(own, symtab, modules, relaSecs, |relaSecs|, m, Decoded(tables, m))
                     && (m in tables <==> Decoded(tables, m) != [])
  }

  lemma TableSays(own: nat, symtab: seq<Symbol>, modules: seq<seq<Symbol>>, relaSecs: seq<seq<Rela>>,
                  tables: map<nat, seq<Reloc>>, m: nat)
    requires Built(own, symtab, modules, relaSecs, tables) && ObjectTypes(relaSecs)
    ensures ModuleSays(own, symtab, modules, relaSecs, |relaSecs|, m, Decoded(tables, m))
    ensures m in tables <==> Decoded(tables, m) != []
  {
    var groups := GroupsOf(own, symtab, modules, relaSecs, m);
    assert relaSecs[..|relaSecs|] == relaSecs;
    ModuleSaid(own, symtab, modules, relaSecs, |relaSecs|, m);
    GroupsOfObjects(own, symtab, modules, relaSecs, m);
    TableRoundTrip(m, groups);
    if groups != [] {
      assert groups[0].relocs != [];
      assert WantedGroups(m, groups)[0] == Wanted(m, groups[0].relocs, groups[0].secIdx)[0];
    }
  }

  lemma {:induction false} GroupsOfObjects(own: nat, symtab: seq<Symbol>, modules: seq<seq<Symbol>>,
                                           relaSecs: seq<seq<Rela>>, m: nat)
    requires AllValidIndices(relaSecs, symtab) && ObjectTypes(relaSecs)
    ensures RealGroups(GroupsOf(own, symtab, modules, relaSecs, m))
    ensures forall i :: 0 <= i < |GroupsOf(own, symtab, modules, relaSecs, m)| ==>
              GroupsOf(own, symtab, modules, relaSecs, m)[i].relocs != []
    decreases |relaSecs|
  {
    var n := |relaSecs|;
    if n > 0 {
      GroupsOfObjects(own, symtab, modules, relaSecs[..n - 1], m);
      SelectedTypes(relaSecs[n - 1], Resolutions(own, symtab, modules, relaSecs[n - 1]), m);
    }
  }

  lemma {:induction false} SelectedTypes(relas: seq<Rela>, res: seq<Resolution>, m: nat)
    requires |res| == |relas| && forall j :: 0 <= j < |relas| ==> relas[j].kind < R_RVL_NONE
    ensures RealTypes(Select(relas, res, m))
  {
    if relas != [] { SelectedTypes(relas[1..], res[1..], m); }
  }

  /** `rela` is one of the relocations of section `k`. */
  predicate Given(relaSecs: seq<seq<Rela>>, k: nat, rela: Rela) {
    k < |relaSecs| && rela in relaSecs[k]
  }

  /** `s` is the symbol that the relocation is against. */
  predicate Against(symtab: seq<Symbol>, rela: Rela, s: Symbol) {
    1 <= rela.sym <= |symtab| && symtab[rela.sym - 1] == s
  }

  /** What a relocation means, where it points and by its own fields, stands among what was said. */
  lemma PointedSaid(own: nat, symtab: seq<Symbol>, modules: seq<seq<Symbol>>, relaSecs: seq<seq<Rela>>, refs: seq<Ref>,
                    k: nat, rela: Rela, m: nat, section: nat, value: nat)
    requires ModuleSays(own, symtab, modules, relaSecs, |relaSecs|, m, refs)
    requires Given(relaSecs, k, rela) && PointsTo(own, symtab, modules, rela, m, section, value)
    ensures Ref(k, rela.offset, rela.kind, m, section, value + rela.addend) in refs
  {
    var j :| 0 <= j < |relaSecs[k]| && relaSecs[k][j] == rela;
    ModuleHas(own, symtab, modules, relaSecs, |relaSecs|, m, refs, k, j);
    var r :| r in refs && r.mod == m && Means(own, symtab, modules, rela, k, r);
    SameMeaning(own, symtab, modules, rela, k, r, m, section, value);
  }

  lemma SameMeaning(own: nat, symtab: seq<Symbol>, modules: seq<seq<Symbol>>, rela: Rela, k: nat, r: Ref, m: nat,
                    section: nat, value: nat)
    requires r.mod == m && Means(own, symtab, modules, rela, k, r)
    requires PointsTo(own, symtab, modules, rela, m, section, value)
    ensures r == Ref(k, rela.offset, rela.kind, m, section, value + rela.addend)
  {
    var other: nat :| PointsTo(own, symtab, modules, rela, r.mod, r.target, other) && r.addend == other + rela.addend;
    ResolveMeaning(own, symtab, modules, rela, m, r.target, other);
    ResolveMeaning(own, symtab, modules, rela, m, section, value);
  }

  /** There is a table of module `m`, and the reference is one of those that it decodes to. */
  predicate TableHas(tables: map<nat, seq<Reloc>>, m: nat, r: Ref) {
    m in tables && r in ReadRefs(m, tables[m], 0, 0)
  }

  /** The same in the tables that are built. */
  lemma PointedStands(own: nat, symtab: seq<Symbol>, modules: seq<seq<Symbol>>, relaSecs: seq<seq<Rela>>,
                      tables: map<nat, seq<Reloc>>, k: nat, rela: Rela, m: nat, section: nat, value: nat)
    requires Say(own, symtab, modules, relaSecs, tables)
    requires Given(relaSecs, k, rela) && PointsTo(own, symtab, modules, rela, m, section, value)
    ensures TableHas(tables, m, Ref(k, rela.offset, rela.kind, m, section, value + rela.addend))
  {
    PointedSaid(own, symtab, modules, relaSecs, Decoded(tables, m), k, rela, m, section, value);
  }

  /** A relocation against a defined symbol stands in the own module's table, at its place, and names the section of the
      symbol and its value with the addend. */
  lemma DefinedSymbolSaid(own: nat, symtab: seq<Symbol>, modules: seq<seq<Symbol>>, relaSecs: seq<seq<Rela>>,
                          tables: map<nat, seq<Reloc>>, k: nat, rela: Rela, s: Symbol)
    requires Say(own, symtab, modules, relaSecs, tables)
    requires Given(relaSecs, k, rela) && Against(symtab, rela, s) && s.shndx != 0
    ensures TableHas(tables, own, Ref(k, rela.offset, rela.kind, own, s.shndx, s.value + rela.addend))
  {
    PointedStands(own, symtab, modules, relaSecs, tables, k, rela, own, s.shndx, s.value);
  }

  /** A name that is looked up as it is and spells no place. */
  predicate OrdinaryName(name: string) {
    name != "__destroy_global_chain" && Search(name) == None
  }

  /** `m` is the least module other than `own` whose first symbol of that name, `sym`, is defined. */
  ghost predicate SuppliedFirst(own: nat, modules: seq<seq<Symbol>>, name: string, m: nat, sym: Symbol) {
    && m != own && m < |modules| && FirstDefined(modules[m], name, sym)
    && forall i :: 0 <= i < m && i != own ==> !exists x :: FirstDefined(modules[i], name, x)
  }

  /** A relocation against an undefined name that spells no place stands in the table of the least other module whose
      first symbol of that name is defined, and names that symbol's section and its value with the addend. */
  lemma UndefinedNameSaid(own: nat, symtab: seq<Symbol>, modules: seq<seq<Symbol>>, relaSecs: seq<seq<Rela>>,
                          tables: map<nat, seq<Reloc>>, k: nat, rela: Rela, s: Symbol, m: nat, sym: Symbol)
    requires Say(own, symtab, modules, relaSecs, tables)
    requires Given(relaSecs, k, rela) && Against(symtab, rela, s)
    requires s.shndx == 0 && OrdinaryName(s.name) && SuppliedFirst(own, modules, s.name, m, sym)
    ensures TableHas(tables, m, Ref(k, rela.offset, rela.kind, m, sym.shndx, sym.value + rela.addend))
  {
    PlaceStands(own, symtab, modules, relaSecs, tables, k, rela, m, sym);
    SuppliedPoints(own, symtab, modules, rela, s, m, sym);
  }

  lemma PlaceStands(own: nat, symtab: seq<Symbol>, modules: seq<seq<Symbol>>, relaSecs: seq<seq<Rela>>,
                    tables: map<nat, seq<Reloc>>, k: nat, rela: Rela, m: nat, sym: Symbol)
    requires Say(own, symtab, modules, relaSecs, tables) && Given(relaSecs, k, rela)
    ensures PointsTo(own, symtab, modules, rela, m, sym.shndx, sym.value) ==>
              TableHas(tables, m, Ref(k, rela.offset, rela.kind, m, sym.shndx, sym.value + rela.addend))
  {
    if PointsTo(own, symtab, modules, rela, m, sym.shndx, sym.value) {
      PointedStands(own, symtab, modules, relaSecs, tables, k, rela, m, sym.shndx, sym.value);
    }
  }

  lemma SuppliedPoints(own: nat, symtab: seq<Symbol>, modules: seq<seq<Symbol>>, rela: Rela, s: Symbol, m: nat,
                       sym: Symbol)
    requires Against(symtab, rela, s)
    requires s.shndx == 0 && OrdinaryName(s.name) && SuppliedFirst(own, modules, s.name, m, sym)
    ensures PointsTo(own, symtab, modules, rela, m, sym.shndx, sym.value)
  {
    assert Supplies(modules, own, s.name, m);
  }

  /** Every reference of a table is the meaning of a relocation. */
  lemma NothingElseSaid(own: nat, symtab: seq<Symbol>, modules: seq<seq<Symbol>>, relaSecs: seq<seq<Rela>>,
                        tables: map<nat, seq<Reloc>>, m: nat, r: Ref)
    requires Say(own, symtab, modules, relaSecs, tables)
    requires TableHas(tables, m, r)
    ensures exists k, j :: 0 <= k < |relaSecs| && 0 <= j < |relaSecs[k]| && r.mod == m
                           && Means(own, symtab, modules, relaSecs[k][j], k, r)
  {
    ModuleOnly(own, symtab, modules, relaSecs, |relaSecs|, m, Decoded(tables, m), r);
  }

  // ----- the encoder's assertion and the count of unresolved symbols -----

  /** The relocations of a section that point into module `m` ascend. */
  ghost predicate OffsetsAscend(own: nat, symtab: seq<Symbol>, modules: seq<seq<Symbol>>, relas: seq<Rela>, m: nat) {
    forall i, j ::
      (0 <= i < j < |relas| && PointsInto(own, symtab, modules, relas[i], m)
       && PointsInto(own, symtab, modules, relas[j], m)) ==> relas[i].offset <= relas[j].offset
  }

  ghost predicate NoneBefore(own: nat, symtab: seq<Symbol>, modules: seq<seq<Symbol>>, relas: seq<Rela>, m: nat,
                             pos: nat)
  {
    forall i :: 0 <= i < |relas| && PointsInto(own, symtab, modules, relas[i], m) ==> pos <= relas[i].offset
  }

  lemma {:induction false} SelectedAscend(own: nat, symtab: seq<Symbol>, modules: seq<seq<Symbol>>, relas: seq<Rela>,
                                          m: nat, pos: nat)
    requires ValidIndices(relas, symtab)
    ensures SortedFrom(ResolvedTo(own, symtab, modules, relas, m), pos)
       <==> OffsetsAscend(own, symtab, modules, relas, m) && NoneBefore(own, symtab, modules, relas, m, pos)
    decreases |relas|
  {
    if relas != [] {
      var rest := relas[1..];
      var into := PointsInto(own, symtab, modules, relas[0], m);
      SelectedAscend(own, symtab, modules, rest, m, if into then relas[0].offset else pos);
      ResolvedCons(own, symtab, modules, relas, m);
      IntoResolved(own, symtab, modules, relas[0], m);
      AscendCons(own, symtab, modules, relas, m, pos);
      if into {
        var sel := ResolvedTo(own, symtab, modules, relas, m);
        assert sel[0].0 == relas[0] && sel[1..] == ResolvedTo(own, symtab, modules, rest, m);
      } else {
        assert ResolvedTo(own, symtab, modules, relas, m) == ResolvedTo(own, symtab, modules, rest, m);
      }
    }
  }

  lemma AscendCons(own: nat, symtab: seq<Symbol>, modules: seq<seq<Symbol>>, relas: seq<Rela>, m: nat, pos: nat)
    requires relas != []
    ensures var rest, into := relas[1..], PointsInto(own, symtab, modules, relas[0], m);
            var low := if into then relas[0].offset else pos;
            OffsetsAscend(own, symtab, modules, relas, m) && NoneBefore(own, symtab, modules, relas, m, pos)
            <==> (into ==> pos <= relas[0].offset) && OffsetsAscend(own, symtab, modules, rest, m)
                 && NoneBefore(own, symtab, modules, rest, m, low)
  {
    var rest := relas[1..];
    assert forall i :: 1 <= i < |relas| ==> relas[i] == rest[i - 1];
    assert forall i :: 0 <= i < |rest| ==> rest[i] == relas[i + 1];
  }

  /** The tables are built exactly when, in every section, the relocations that point into one module ascend. */
  lemma SortedMeaning(own: nat, symtab: seq<Symbol>, modules: seq<seq<Symbol>>, relaSecs: seq<seq<Rela>>)
    requires AllValidIndices(relaSecs, symtab)
    ensures AllSorted(own, symtab, modules, relaSecs)
       <==> forall k, m: nat :: 0 <= k < |relaSecs| ==> OffsetsAscend(own, symtab, modules, relaSecs[k], m)
  {
    forall k, m: nat | 0 <= k < |relaSecs|
      ensures SortedFrom(ResolvedTo(own, symtab, modules, relaSecs[k], m), 0)
         <==> OffsetsAscend(own, symtab, modules, relaSecs[k], m)
    {
      assert ValidIndices(relaSecs[k], symtab);
      SelectedAscend(own, symtab, modules, relaSecs[k], m, 0);
    }
  }

  /** The relocations that point nowhere. */
  ghost function Lost(own: nat, symtab: seq<Symbol>, modules: seq<seq<Symbol>>, relas: seq<Rela>): set<nat> {
    set j: nat | j < |relas| && !exists m :: PointsInto(own, symtab, modules, relas[j], m)
  }

  /** The count of unresolved symbols is the number of relocations that point nowhere. */
  lemma {:induction false} UnresolvedMeaning(own: nat, symtab: seq<Symbol>, modules: seq<seq<Symbol>>, relas: seq<Rela>)
    requires ValidIndices(relas, symtab)
    ensures Unresolved(own, symtab, modules, relas) == |Lost(own, symtab, modules, relas)|
    decreases |relas|
  {
    if relas == [] {
      assert Lost(own, symtab, modules, relas) == {};
    } else {
      UnresolvedMeaning(own, symtab, modules, relas[1..]);
      LostCons(own, symtab, modules, relas);
      var res := Resolve(own, symtab, modules, relas[0]);
      if res.Some? { IntoResolved(own, symtab, modules, relas[0], res.value.0); }
      forall m ensures PointsInto(own, symtab, modules, relas[0], m) ==> res.Some? {
        IntoResolved(own, symtab, modules, relas[0], m);
      }
    }
  }

  lemma LostCons(own: nat, symtab: seq<Symbol>, modules: seq<seq<Symbol>>, relas: seq<Rela>)
    requires relas != []
    ensures |Lost(own, symtab, modules, relas)|
         == (if exists m :: PointsInto(own, symtab, modules, relas[0], m) then 0 else 1)
            + |Lost(own, symtab, modules, relas[1..])|
  {
    var all, rest := Lost(own, symtab, modules, relas), Lost(own, symtab, modules, relas[1..]);
    var shifted := set j | j in rest :: j + 1;
    ShiftKeepsSize(rest, shifted);
    forall j: nat ensures j + 1 in all <==> j in rest {
      if j + 1 < |relas| { assert relas[j + 1] == relas[1..][j]; }
    }
    ShiftedSet(all, rest, shifted);
  }

  lemma ShiftedSet(all: set<nat>, rest: set<nat>, shifted: set<nat>)
    requires shifted == set j | j in rest :: j + 1
    requires forall j: nat :: j + 1 in all <==> j in rest
    ensures |all| == (if 0 in all then 1 else 0) + |shifted|
  {
    forall j: nat ensures j in shifted <==> j > 0 && j in all {
      if j > 0 { assert (j - 1) + 1 in all <==> j - 1 in rest; }
    }
    assert all == (if 0 in all then {0} else {}) + shifted;
  }

  lemma {:induction false} ShiftKeepsSize(a: set<nat>, b: set<nat>)
    requires b == set j | j in a :: j + 1
    ensures |b| == |a|
  {
    if a == {} {
      assert b == {};
    } else {
      var x :| x in a;
      var a', b' := a - {x}, set j | j in a - {x} :: j + 1;
      ShiftKeepsSize(a', b');
      assert x + 1 !in b';
      forall y ensures y in b <==> y in b' + {x + 1} {
        if y in b {
          var j :| j in a && y == j + 1;
          if j != x { assert j in a'; }
        }
      }
      assert b == b' + {x + 1};
    }
  }

  // ----- the tables of a file -----

  /** How many relocations of the sections before `n` point nowhere. */
  ghost function AllLost(own: nat, symtab: seq<Symbol>, modules: seq<seq<Symbol>>, relaSecs: seq<seq<Rela>>,
                         n: nat): nat
    requires n <= |relaSecs|
  {
    if n == 0 then 0
    else AllLost(own, symtab, modules, relaSecs, n - 1) + |Lost(own, symtab, modules, relaSecs[n - 1])|
  }

  lemma {:induction false} AllUnresolvedMeaning(own: nat, symtab: seq<Symbol>, modules: seq<seq<Symbol>>,
                                                relaSecs: seq<seq<Rela>>, n: nat)
    requires n <= |relaSecs| && AllValidIndices(relaSecs, symtab) && AllValidIndices(relaSecs[..n], symtab)
    ensures AllUnresolved(own, symtab, modules, relaSecs[..n]) == AllLost(own, symtab, modules, relaSecs, n)
  {
    if n > 0 {
      ValidPrefix(relaSecs, symtab, n - 1);
      AllUnresolvedMeaning(own, symtab, modules, relaSecs, n - 1);
      UnresolvedMeaning(own, symtab, modules, relaSecs[n - 1]);
      assert relaSecs[..n][..n - 1] == relaSecs[..n - 1];
    }
  }

  lemma TablesSay(own: nat, symtab: seq<Symbol>, modules: seq<seq<Symbol>>, relaSecs: seq<seq<Rela>>,
                  tables: map<nat, seq<Reloc>>)
    requires Built(own, symtab, modules, relaSecs, tables) && ObjectTypes(relaSecs)
    ensures Say(own, symtab, modules, relaSecs, tables)
  {
    forall m: nat
      ensures ModuleSays(own, symtab, modules, relaSecs, |relaSecs|, m, Decoded(tables, m))
      ensures m in tables <==> Decoded(tables, m) != []
    {
      TableSays(own, symtab, modules, relaSecs, tables, m);
    }
  }

  /** The relocations of a file: tables are made exactly when the offsets ascend, they say where the relocations point,
      and the count is that of the relocations that point nowhere. */
  method ProcessRelocations(classifier: Classifier, own: nat, symtab: seq<Symbol>, modules: seq<seq<Symbol>>,
                            relaSecs: seq<seq<Rela>>)
    returns (tables: Option<map<nat, seq<Reloc>>>, unresolved: nat)
    requires AllValidIndices(relaSecs, symtab) && ObjectTypes(relaSecs) && classifier.Coherent(modules)
    modifies classifier
    ensures classifier.Coherent(modules)
    ensures tables.Some?
       <==> forall k, m: nat :: 0 <= k < |relaSecs| ==> OffsetsAscend(own, symtab, modules, relaSecs[k], m)
    ensures tables.Some? ==> Say(own, symtab, modules, relaSecs, tables.value)
    ensures tables.Some? ==> unresolved == AllLost(own, symtab, modules, relaSecs, |relaSecs|)
  {
    tables, unresolved := classifier.BuildTables(own, symtab, modules, relaSecs);
    SortedMeaning(own, symtab, modules, relaSecs);
    assert relaSecs[..|relaSecs|] == relaSecs;
    AllUnresolvedMeaning(own, symtab, modules, relaSecs, |relaSecs|);
    if tables.Some? { TablesSay(own, symtab, modules, relaSecs, tables.value); }
  }
}
