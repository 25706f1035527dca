/** Contiguous stretches of functions that are still to be decompiled: `build_runs` of tools/find_targets.py. */
module Runs {

  datatype Symbol = Symbol(addr: int, size: int, name: string)

  /** An address range [lo, hi). */
  datatype Range = Range(lo: int, hi: int)

  type Run = seq<Symbol>

  predicate IsCovered(addr: int, covered: seq<Range>) {
    exists i :: 0 <= i < |covered| && covered[i].lo <= addr < covered[i].hi
  }

  /** The symbol belongs to some run. */
  predicate Wanted(s: Symbol, covered: seq<Range>) {
    !IsCovered(s.addr, covered) && s.size != 0
  }

  /** The gap between the symbols is no more than the alignment of functions. */
  predicate Near(s: Symbol, next: Symbol) {
    next.addr - (s.addr + s.size) <= 16
  }

  /** The symbol behind number `i` continues its run. */
  predicate Continues(syms: seq<Symbol>, covered: seq<Range>, i: nat)
    requires i < |syms|
  {
    i + 1 < |syms| && Wanted(syms[i + 1], covered) && Near(syms[i], syms[i + 1])
  }

  function RunEnd(syms: seq<Symbol>, covered: seq<Range>, i: nat): (e: nat)
    requires i < |syms|
    ensures i < e <= |syms|
    decreases |syms| - i
  {
    if Continues(syms, covered, i) then RunEnd(syms, covered, i + 1) else i + 1
  }

  /** The runs from symbol `i` on. */
  function RunsFrom(syms: seq<Symbol>, covered: seq<Range>, i: nat): seq<Run>
    decreases |syms| - i
  {
    if i >= |syms| then []
    else if !Wanted(syms[i], covered) then RunsFrom(syms, covered, i + 1)
    else
      var e := RunEnd(syms, covered, i);
      [syms[i..e]] + RunsFrom(syms, covered, e)
  }

  /** What is still to come when the symbols before `i` are done and the last of them are in `cur`. */
  function Pending(syms: seq<Symbol>, covered: seq<Range>, cur: Run, i: nat): seq<Run>
    requires i <= |syms| && (cur != [] ==> i > 0)
  {
    if cur == [] then RunsFrom(syms, covered, i)
    else
      var e := RunEnd(syms, covered, i - 1);
      [cur + syms[i..e]] + RunsFrom(syms, covered, e)
  }

  method BuildRuns(syms: seq<Symbol>, covered: seq<Range>) returns (runs: seq<Run>)
    ensures runs == RunsFrom(syms, covered, 0)
  {
    runs := [];
    var cur: Run, prevEnd := [], 0;
    for i := 0 to |syms|
      invariant cur != [] ==> i > 0 && prevEnd == syms[i - 1].addr + syms[i - 1].size
      invariant runs + Pending(syms, covered, cur, i) == RunsFrom(syms, covered, 0)
    {
      PendingStep(syms, covered, runs, cur, i);
      var sym := syms[i];
      if !Wanted(sym, covered) {
        if cur != [] {
          runs := runs + [cur];
        }
        cur := [];
        continue;
      }
      if cur != [] && sym.addr - prevEnd > 16 {
        runs := runs + [cur];
        cur := [];
      }
      assert [] + [sym] == [sym];
      cur := cur + [sym];
      prevEnd := sym.addr + sym.size;
    }
    if cur != [] {
      runs := runs + [cur];
    }
    assert cur != [] ==> cur + syms[|syms|..RunEnd(syms, covered, |syms| - 1)] == cur;
    assert cur != [] ==> Pending(syms, covered, cur, |syms|) == [cur];
  }

  lemma PendingStep(syms: seq<Symbol>, covered: seq<Range>, runs: seq<Run>, cur: Run, i: nat)
    requires i < |syms| && (cur != [] ==> i > 0)
    ensures var s, before := syms[i], runs + Pending(syms, covered, cur, i);
            var closed := if cur == [] then runs else runs + [cur];
            if !Wanted(s, covered) then before == closed + Pending(syms, covered, [], i + 1)
            else if cur != [] && Near(syms[i - 1], s) then before == runs + Pending(syms, covered, cur + [s], i + 1)
            else before == closed + Pending(syms, covered, [s], i + 1)
  {
    var s, e := syms[i], RunEnd(syms, covered, i);
    assert syms[i..e] == [s] + syms[i + 1..e];
    if cur != [] {
      assert cur + syms[i..i] == cur;
      if Wanted(s, covered) && Near(syms[i - 1], s) {
        assert cur + syms[i..e] == cur + [s] + syms[i + 1..e];
      } else {
        assert runs + ([cur] + RunsFrom(syms, covered, i)) == runs + [cur] + RunsFrom(syms, covered, i);
      }
    }
  }

  // ----- what runs are -----

  /** The runs are maximal stretches of neighbouring wanted symbols, starting at the given symbols, and no wanted
      symbol from number `from` on lies outside of them. */
  predicate Splits(syms: seq<Symbol>, covered: seq<Range>, runs: seq<Run>, starts: seq<nat>, from: nat)
    decreases |runs|
  {
    |runs| == |starts| && from <= |syms| &&
    if runs == [] then forall j :: from <= j < |syms| ==> !Wanted(syms[j], covered)
    else
      var lo, hi := starts[0], starts[0] + |runs[0]|;
      && from <= lo < hi <= |syms| && runs[0] == syms[lo..hi]
      && (forall j :: from <= j < lo ==> !Wanted(syms[j], covered))
      && (forall j :: lo <= j < hi ==> Wanted(syms[j], covered))
      && (forall j :: lo <= j < hi - 1 ==> Continues(syms, covered, j))
      && !Continues(syms, covered, hi - 1)
      && Splits(syms, covered, runs[1..], starts[1..], hi)
  }

  lemma {:induction false} RunEndIs(syms: seq<Symbol>, covered: seq<Range>, i: nat)
    requires i < |syms| && Wanted(syms[i], covered)
    ensures var e := RunEnd(syms, covered, i);
            && (forall j :: i <= j < e ==> Wanted(syms[j], covered))
            && (forall j :: i <= j < e - 1 ==> Continues(syms, covered, j)) && !Continues(syms, covered, e - 1)
    decreases |syms| - i
  {
    if Continues(syms, covered, i) { RunEndIs(syms, covered, i + 1); }
  }

  lemma {:induction false} RunEndUnique(syms: seq<Symbol>, covered: seq<Range>, i: nat, e: nat)
    requires i < e <= |syms| && !Continues(syms, covered, e - 1)
    requires forall j :: i <= j < e - 1 ==> Continues(syms, covered, j)
    ensures RunEnd(syms, covered, i) == e
    decreases e - i
  {
    if i + 1 < e { RunEndUnique(syms, covered, i + 1, e); }
  }

  lemma SplitsEarlier(syms: seq<Symbol>, covered: seq<Range>, runs: seq<Run>, starts: seq<nat>, i: nat)
    requires i < |syms| && !Wanted(syms[i], covered)
    ensures Splits(syms, covered, runs, starts, i + 1) <==> Splits(syms, covered, runs, starts, i)
  {
  }

  /** The program's runs are such stretches. */
  lemma {:induction false} RunsSplit(syms: seq<Symbol>, covered: seq<Range>, i: nat) returns (starts: seq<nat>)
    requires i <= |syms|
    ensures Splits(syms, covered, RunsFrom(syms, covered, i), starts, i)
    decreases |syms| - i
  {
    if i == |syms| {
      starts := [];
    } else if !Wanted(syms[i], covered) {
      starts := RunsSplit(syms, covered, i + 1);
      SplitsEarlier(syms, covered, RunsFrom(syms, covered, i + 1), starts, i);
    } else {
      var e := RunEnd(syms, covered, i);
      RunEndIs(syms, covered, i);
      var rest := RunsSplit(syms, covered, e);
      starts := [i] + rest;
      assert RunsFrom(syms, covered, i)[1..] == RunsFrom(syms, covered, e) && starts[1..] == rest;
    }
  }

  /** And no others are. */
  lemma {:induction false} SplitIsUnique(syms: seq<Symbol>, covered: seq<Range>, runs: seq<Run>, starts: seq<nat>,
                                         i: nat)
    requires Splits(syms, covered, runs, starts, i)
    ensures runs == RunsFrom(syms, covered, i)
    decreases |syms| - i
  {
    if i == |syms| {
    } else if !Wanted(syms[i], covered) {
      SplitsEarlier(syms, covered, runs, starts, i);
      SplitIsUnique(syms, covered, runs, starts, i + 1);
    } else {
      var e := starts[0] + |runs[0]|;
      assert starts[0] == i;
      RunEndUnique(syms, covered, i, e);
      SplitIsUnique(syms, covered, runs[1..], starts[1..], e);
      assert runs == [runs[0]] + runs[1..];
    }
  }

  function Flatten(runs: seq<Run>): seq<Symbol> {
    if runs == [] then [] else runs[0] + Flatten(runs[1..])
  }

  function Keep(syms: seq<Symbol>, covered: seq<Range>, i: nat): seq<Symbol>
    decreases |syms| - i
  {
    if i >= |syms| then []
    else (if Wanted(syms[i], covered) then [syms[i]] else []) + Keep(syms, covered, i + 1)
  }

  lemma {:induction false} KeepRun(syms: seq<Symbol>, covered: seq<Range>, i: nat, e: nat)
    requires i <= e <= |syms| && forall j :: i <= j < e ==> Wanted(syms[j], covered)
    ensures Keep(syms, covered, i) == syms[i..e] + Keep(syms, covered, e)
    decreases e - i
  {
    if i < e {
      KeepRun(syms, covered, i + 1, e);
      var rest := Keep(syms, covered, e);
      assert Keep(syms, covered, i) == [syms[i]] + (syms[i + 1..e] + rest);
      KeepOneMore(syms, i, e, rest);
    }
  }

  lemma KeepOneMore(syms: seq<Symbol>, i: nat, e: nat, rest: seq<Symbol>)
    requires i < e <= |syms|
    ensures [syms[i]] + (syms[i + 1..e] + rest) == syms[i..e] + rest
  {
  }

  /** Together the runs are the wanted symbols in order. */
  lemma {:induction false} FlattenKeeps(syms: seq<Symbol>, covered: seq<Range>, i: nat)
    ensures Flatten(RunsFrom(syms, covered, i)) == Keep(syms, covered, i)
    decreases |syms| - i
  {
    if i < |syms| {
      if !Wanted(syms[i], covered) {
        FlattenKeeps(syms, covered, i + 1);
      } else {
        var e := RunEnd(syms, covered, i);
        RunEndIs(syms, covered, i);
        KeepRun(syms, covered, i, e);
        FlattenKeeps(syms, covered, e);
        assert RunsFrom(syms, covered, i)[1..] == RunsFrom(syms, covered, e);
      }
    }
  }

  /** A gap of 16 keeps a run together, one of 17 ends it; so does a function that is covered, at the first address of a
      range but not at its end, and one without a size. */
  lemma RunsExample(n: string)
    ensures var a, b, c := Symbol(0x100, 0x20, n), Symbol(0x130, 8, n), Symbol(0x149, 7, n);
            var d, e, f := Symbol(0x150, 0x10, n), Symbol(0x160, 4, n), Symbol(0x164, 0, n);
            var g := Symbol(0x164, 4, n);
            RunsFrom([a, b, c, d, e, f, g], [Range(0x150, 0x160)], 0) == [[a, b], [c], [e], [g]]
  {
    var syms := [Symbol(0x100, 0x20, n), Symbol(0x130, 8, n), Symbol(0x149, 7, n), Symbol(0x150, 0x10, n),
                 Symbol(0x160, 4, n), Symbol(0x164, 0, n), Symbol(0x164, 4, n)];
    var covered := [Range(0x150, 0x160)];
    assert IsCovered(0x150, covered) by { assert covered[0].lo <= 0x150 < covered[0].hi; }
    assert RunsFrom(syms, covered, 7) == [];
    assert RunEnd(syms, covered, 6) == 7 && syms[6..7] == [syms[6]];
    assert RunsFrom(syms, covered, 6) == [[syms[6]]] + [];
    assert RunsFrom(syms, covered, 5) == [[syms[6]]];
    assert RunEnd(syms, covered, 4) == 5 && syms[4..5] == [syms[4]];
    assert RunsFrom(syms, covered, 4) == [[syms[4]]] + [[syms[6]]];
    assert RunsFrom(syms, covered, 3) == [[syms[4]], [syms[6]]];
    assert RunEnd(syms, covered, 2) == 3 && syms[2..3] == [syms[2]];
    assert RunsFrom(syms, covered, 2) == [[syms[2]]] + [[syms[4]], [syms[6]]];
    assert RunEnd(syms, covered, 1) == 2 && RunEnd(syms, covered, 0) == 2 && syms[0..2] == [syms[0], syms[1]];
    assert RunsFrom(syms, covered, 0) == [[syms[0], syms[1]]] + RunsFrom(syms, covered, 2);
  }
}
