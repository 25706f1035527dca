/** Filling the slots of a DOL from the sections of a linked ELF file: tools/build_dol.py. */
module DolBuild {
  import opened Bytes
  import opened Dol
  import opened DolRoundTrip
  import opened Wrappers

  /** A section of the linked ELF file. */
  datatype Linked = Linked(name: string, flags: nat, addr: int, size: int, data: seq<Byte>)

  predicate Executable(s: Linked) {
    s.flags / 4 % 2 == 1
  }

  predicate Allocated(s: Linked) {
    s.flags / 2 % 2 == 1
  }

  /** A section that goes into a data slot. */
  predicate IsData(s: Linked) {
    !Executable(s) && Allocated(s) && s.name !in {".bss", ".sbss", ".sbss2", ".PPC.EMB.apuinfo"}
  }

  function FromElf(s: Linked): DolSection {
    DolSection(false, s.data, s.addr)
  }

  function Unused(): DolSection {
    DolSection(true, [], 0)
  }

  function Executables(secs: seq<Linked>): seq<Linked> {
    if secs == [] then []
    else
      var n := |secs| - 1;
      Executables(secs[..n]) + (if Executable(secs[n]) then [secs[n]] else [])
  }

  function DataSections(secs: seq<Linked>): seq<Linked> {
    if secs == [] then []
    else
      var n := |secs| - 1;
      DataSections(secs[..n]) + (if IsData(secs[n]) then [secs[n]] else [])
  }

  function Slots(secs: seq<Linked>): (r: seq<DolSection>)
    ensures |r| == |secs| && forall i :: 0 <= i < |secs| ==> r[i] == FromElf(secs[i])
  {
    seq(|secs|, i requires 0 <= i < |secs| => FromElf(secs[i]))
  }

  function Filled(slots: seq<DolSection>, n: nat): (r: seq<DolSection>)
    ensures |r| == if |slots| < n then n else |slots|
    ensures slots <= r && forall i :: |slots| <= i < n ==> r[i] == Unused()
  {
    slots + seq(if |slots| < n then n - |slots| else 0, _ => Unused())
  }

  /** The slots: executable sections, padding up to 7, data sections, padding up to 18. */
  function AllSlots(secs: seq<Linked>): seq<DolSection> {
    Filled(Filled(Slots(Executables(secs)), 7) + Slots(DataSections(secs)), 18)
  }

  /** The slot of data section `j`. */
  function DataSlot(secs: seq<Linked>, j: nat): nat {
    (if |Executables(secs)| < 7 then 7 else |Executables(secs)|) + j
  }

  function Find(secs: seq<Linked>, name: string): (r: Option<Linked>)
    ensures r.Some? ==> r.value in secs && r.value.name == name
    ensures r.None? ==> forall s :: s in secs ==> s.name != name
  {
    if secs == [] then None
    else if secs[0].name == name then Some(secs[0])
    else Find(secs[1..], name)
  }

  /** The address of the last allocated, not executable section named .bss, or what it was before. */
  function BssAddr(secs: seq<Linked>): int {
    if secs == [] then 0
    else
      var n := |secs| - 1;
      var s := secs[n];
      if !Executable(s) && Allocated(s) && s.name == ".bss" then s.addr else BssAddr(secs[..n])
  }

  lemma SlotsSnoc(secs: seq<Linked>, s: Linked)
    ensures Slots(secs + [s]) == Slots(secs) + [FromElf(s)]
  {
  }

  /** Unused sections are added until there are `n`. */
  method FillUp(dol: Dol, n: nat)
    modifies dol
    ensures dol.sections == Filled(old(dol.sections), n)
    ensures dol.bssAddr == old(dol.bssAddr) && dol.bssLen == old(dol.bssLen) && dol.entry == old(dol.entry)
  {
    var secCount := |dol.sections|;
    while secCount < n
      invariant secCount == |dol.sections| && |dol.sections| <= |Filled(old(dol.sections), n)|
      invariant dol.sections == Filled(old(dol.sections), n)[..secCount]
      invariant dol.bssAddr == old(dol.bssAddr) && dol.bssLen == old(dol.bssLen) && dol.entry == old(dol.entry)
    {
      dol.AddSection(DolSection(true, [], 0));
      secCount := secCount + 1;
    }
  }

  method AddExecutables(d: Dol, secs: seq<Linked>)
    requires d.sections == []
    modifies d`sections
    ensures d.sections == Slots(Executables(secs))
  {
    for i := 0 to |secs|
      invariant d.sections == Slots(Executables(secs[..i]))
    {
      assert secs[..i + 1][..i] == secs[..i];
      if Executable(secs[i]) {
        SlotsSnoc(Executables(secs[..i]), secs[i]);
        d.AddSection(FromElf(secs[i]));
      }
    }
    assert secs[..|secs|] == secs;
  }

  method AddDataSections(d: Dol, secs: seq<Linked>)
    requires d.bssAddr == 0
    modifies d`sections, d`bssAddr
    ensures d.sections == old(d.sections) + Slots(DataSections(secs)) && d.bssAddr == BssAddr(secs)
  {
    for i := 0 to |secs|
      invariant d.sections == old(d.sections) + Slots(DataSections(secs[..i])) && d.bssAddr == BssAddr(secs[..i])
    {
      assert secs[..i + 1][..i] == secs[..i];
      var s := secs[i];
      if !Executable(s) && Allocated(s) {
        if s.name !in [".bss", ".sbss", ".sbss2", ".PPC.EMB.apuinfo"] {
          SlotsSnoc(DataSections(secs[..i]), s);
          d.AddSection(FromElf(s));
        }
        if s.name == ".bss" {
          d.bssAddr := s.addr;
        }
      }
    }
    assert secs[..|secs|] == secs;
  }

  /** `process_file` up to the writing; `None` is the failing search for .bss or .sbss2. */
  method Build(secs: seq<Linked>, entry: int) returns (dol: Option<Dol>)
    ensures dol.Some? <==> Find(secs, ".bss").Some? && Find(secs, ".sbss2").Some?
    ensures dol.Some? ==> fresh(dol.value) && dol.value.sections == AllSlots(secs) && dol.value.entry == entry
    ensures dol.Some? ==> dol.value.bssAddr == BssAddr(secs)
    ensures dol.Some? ==> var last := Find(secs, ".sbss2").value;
              Find(secs, ".bss").value.addr + dol.value.bssLen == last.addr + last.size
  {
    var d := new Dol();
    AddExecutables(d, secs);
    FillUp(d, 7);
    AddDataSections(d, secs);
    var bss, sbss2 := Find(secs, ".bss"), Find(secs, ".sbss2");
    if bss.None? || sbss2.None? {
      return None;
    }
    d.bssLen := sbss2.value.addr + sbss2.value.size - bss.value.addr;
    FillUp(d, 18);
    d.entry := entry;
    return Some(d);
  }

  predicate IsExample(text: Linked, data: Linked, bss: Linked, sbss2: Linked, note: Linked, comment: Linked) {
    && text.name == ".text" && text.flags == 6 && data.name == ".data" && data.flags == 3
    && bss.name == ".bss" && bss.flags == 3 && sbss2.name == ".sbss2" && sbss2.flags == 2
    && note.name == ".PPC.EMB.apuinfo" && note.flags == 2 && comment.name == ".comment" && comment.flags == 0
  }

  lemma ExampleSections(text: Linked, data: Linked, bss: Linked, sbss2: Linked, note: Linked, comment: Linked)
    requires IsExample(text, data, bss, sbss2, note, comment)
    ensures var secs := [comment, bss, data, text, sbss2, note];
            Executables(secs) == [text] && DataSections(secs) == [data] && BssAddr(secs) == bss.addr
  {
    var s1, s2, s3 := [comment], [comment, bss], [comment, bss, data];
    var s4, s5, secs := [comment, bss, data, text], [comment, bss, data, text, sbss2],
                        [comment, bss, data, text, sbss2, note];
    ExampleNames();
    Another([], s1, comment);
    Another(s1, s2, bss);
    Another(s2, s3, data);
    Another(s3, s4, text);
    Another(s4, s5, sbss2);
    Another(s5, secs, note);
  }

  lemma TwoSlots(secs: seq<Linked>, e: Linked, d: Linked)
    requires Executables(secs) == [e] && DataSections(secs) == [d]
    ensures |AllSlots(secs)| == 18 && AllSlots(secs)[0] == FromElf(e) && AllSlots(secs)[7] == FromElf(d)
    ensures forall k :: 0 <= k < 18 && k != 0 && k != 7 ==> AllSlots(secs)[k] == Unused()
  {
    SlotCount(secs);
    forall k | 0 <= k < 18
      ensures AllSlots(secs)[k] == if k == 0 then FromElf(e) else if k == 7 then FromElf(d) else Unused()
    {
      SlotContents(secs, k);
    }
  }

  /** A linked file in small: code goes to the first slot and data to the eighth; sections without the flag for loading
      and those that are set to zero at the start have no slot. */
  lemma BuildExample(text: Linked, data: Linked, bss: Linked, sbss2: Linked, note: Linked, comment: Linked)
    requires IsExample(text, data, bss, sbss2, note, comment)
    ensures var secs := [comment, bss, data, text, sbss2, note];
            && BssAddr(secs) == bss.addr && |AllSlots(secs)| == 18
            && AllSlots(secs)[0] == DolSection(false, text.data, text.addr)
            && AllSlots(secs)[7] == DolSection(false, data.data, data.addr)
            && forall k :: 0 <= k < 18 && k != 0 && k != 7 ==> AllSlots(secs)[k] == DolSection(true, [], 0)
  {
    ExampleSections(text, data, bss, sbss2, note, comment);
    TwoSlots([comment, bss, data, text, sbss2, note], text, data);
  }

  lemma ExampleNames()
    ensures ".data" !in {".bss", ".sbss", ".sbss2", ".PPC.EMB.apuinfo"} && ".text" != ".bss"
    ensures ".sbss2" != ".bss" && ".PPC.EMB.apuinfo" != ".bss" && ".data" != ".bss"
  {
    assert |".data"| == |".sbss"| == 5 && ".data"[1] == 'd' && ".sbss"[1] == 's';
  }

  lemma Another(front: seq<Linked>, secs: seq<Linked>, s: Linked)
    requires secs == front + [s]
    ensures Executables(secs) == Executables(front) + if Executable(s) then [s] else []
    ensures DataSections(secs) == DataSections(front) + if IsData(s) then [s] else []
    ensures BssAddr(secs) == if SetsBss(s) then s.addr else BssAddr(front)
  {
    assert secs[..|secs| - 1] == front;
  }

  /** There are 18 slots exactly when the data sections fit behind the executable ones. */
  lemma SlotCount(secs: seq<Linked>)
    ensures |AllSlots(secs)| >= 18
    ensures |AllSlots(secs)| == 18 <==> DataSlot(secs, |DataSections(secs)|) <= 18
    ensures |Executables(secs)| <= 7 && |DataSections(secs)| <= 11 ==> |AllSlots(secs)| == 18
  {
  }

  /** The slots hold the executable sections, then from slot 7 (or later, if there are more than 7 of them) the data
      sections, each in the order of the ELF file; all other slots are unused. */
  lemma SlotContents(secs: seq<Linked>, k: nat)
    requires k < |AllSlots(secs)|
    ensures var e, d := Executables(secs), DataSections(secs);
            AllSlots(secs)[k] == if k < |e| then FromElf(e[k])
                                 else if DataSlot(secs, 0) <= k < DataSlot(secs, |d|)
                                 then FromElf(d[k - DataSlot(secs, 0)])
                                 else Unused()
  {
    var e, d := Executables(secs), DataSections(secs);
    var a := Filled(Slots(e), 7);
    FilledIndex(a + Slots(d), 18, k);
    if k < |a| { FilledIndex(Slots(e), 7, k); }
  }

  lemma FilledIndex(slots: seq<DolSection>, n: nat, k: nat)
    requires k < |Filled(slots, n)|
    ensures Filled(slots, n)[k] == if k < |slots| then slots[k] else Unused()
  {
  }

  /** Every section that must be loaded is in a slot. */
  lemma {:induction false} NothingDropped(secs: seq<Linked>)
    ensures forall s :: s in secs && Executable(s) ==> s in Executables(secs)
    ensures forall s :: s in secs && IsData(s) ==> s in DataSections(secs)
    ensures forall s :: s in Executables(secs) ==> s in secs && Executable(s)
    ensures forall s :: s in DataSections(secs) ==> s in secs && IsData(s)
    decreases |secs|
  {
    if secs != [] {
      var n := |secs| - 1;
      NothingDropped(secs[..n]);
      assert secs == secs[..n] + [secs[n]];
    }
  }

  /** After building, writing and reading, every executable and every data section is found with its address and
      its data, extended only by zeros. */
  lemma BuiltReadsBack(secs: seq<Linked>, slots: seq<DolSection>, ns: seq<int>, bssLen: int, entry: int, s: Linked)
    requires slots == AllSlots(secs) && |slots| == 18 && s in secs && (Executable(s) || IsData(s))
    requires ns == HeaderNumbers(slots, BssAddr(secs), bssLen, entry) && AreWords(ns)
    ensures ReadDol(Written(slots, ns)).Some? && |ReadDol(Written(slots, ns)).value.sections| == 18
    ensures var image := ReadDol(Written(slots, ns)).value;
            && image.bssAddr == BssAddr(secs) && image.bssLen == bssLen && image.entry == entry
            && DolSection(false, Padded(s.data), s.addr) in image.sections
            && (Executable(s) && |Executables(secs)| <= 7 ==>
                 DolSection(false, Padded(s.data), s.addr) in image.sections[..7])
  {
    WriteThenRead(slots, BssAddr(secs), bssLen, entry);
    var k := SlotOf(secs, s);
    var back := AllReadBack(slots);
    assert back[k] == ReadBack(slots[k]) == DolSection(false, Padded(s.data), s.addr);
    if k < 7 { assert back[..7][k] == back[k]; }
  }

  lemma SlotOf(secs: seq<Linked>, s: Linked) returns (k: nat)
    requires s in secs && (Executable(s) || IsData(s))
    ensures k < |AllSlots(secs)| && AllSlots(secs)[k] == FromElf(s)
    ensures Executable(s) ==> k < |Executables(secs)|
  {
    NothingDropped(secs);
    var e, d := Executables(secs), DataSections(secs);
    if Executable(s) {
      k :| 0 <= k < |e| && e[k] == s;
    } else {
      var j :| 0 <= j < |d| && d[j] == s;
      k := DataSlot(secs, j);
    }
    SlotContents(secs, k);
  }

  /** A section between the first .bss and the end of the first .sbss2 lies within the bss extent of the DOL if
      .bss is its allocated section. */
  lemma BssExtent(secs: seq<Linked>, bss: Linked, last: Linked, bssLen: int, s: Linked)
    requires Find(secs, ".bss") == Some(bss) && Find(secs, ".sbss2") == Some(last)
    requires bss.addr + bssLen == last.addr + last.size
    requires forall t :: t in secs && t.name == ".bss" ==> t == bss
    requires !Executable(bss) && Allocated(bss)
    requires bss.addr <= s.addr && s.addr + s.size <= last.addr + last.size
    ensures BssAddr(secs) <= s.addr && s.addr + s.size <= BssAddr(secs) + bssLen
  {
    BssAddrFound(secs, bss);
  }

  predicate SetsBss(s: Linked) {
    !Executable(s) && Allocated(s) && s.name == ".bss"
  }

  /** The last section that sets the bss address has the address `addr`, or none does and it is 0. */
  ghost predicate LastBssAt(secs: seq<Linked>, addr: int) {
    if exists k :: 0 <= k < |secs| && SetsBss(secs[k]) then
      exists k :: 0 <= k < |secs| && IsLastBss(secs, k) && secs[k].addr == addr
    else addr == 0
  }

  predicate IsLastBss(secs: seq<Linked>, k: nat) {
    k < |secs| && SetsBss(secs[k]) && forall j :: k < j < |secs| ==> !SetsBss(secs[j])
  }

  lemma {:induction false} LastFound(secs: seq<Linked>, k: nat)
    requires IsLastBss(secs, k)
    ensures BssAddr(secs) == secs[k].addr
    decreases |secs|
  {
    var n := |secs| - 1;
    if k < n {
      assert !SetsBss(secs[n]);
      assert IsLastBss(secs[..n], k);
      LastFound(secs[..n], k);
    }
  }

  lemma {:induction false} NoneFound(secs: seq<Linked>)
    requires forall k :: 0 <= k < |secs| ==> !SetsBss(secs[k])
    ensures BssAddr(secs) == 0
    decreases |secs|
  {
    if secs != [] { NoneFound(secs[..|secs| - 1]); }
  }

  lemma LastExists(secs: seq<Linked>) returns (k: nat)
    requires exists i :: 0 <= i < |secs| && SetsBss(secs[i])
    ensures IsLastBss(secs, k)
  {
    var i :| 0 <= i < |secs| && SetsBss(secs[i]);
    var n := |secs|;
    while !SetsBss(secs[n - 1])
      invariant i < n <= |secs| && forall j :: n <= j < |secs| ==> !SetsBss(secs[j])
      decreases n
    {
      n := n - 1;
    }
    k := n - 1;
  }

  lemma LastUnique(secs: seq<Linked>, i: nat, j: nat)
    requires IsLastBss(secs, i) && IsLastBss(secs, j)
    ensures i == j
  {
  }

  lemma BssAddrIsLast(secs: seq<Linked>, addr: int)
    ensures BssAddr(secs) == addr <==> LastBssAt(secs, addr)
  {
    if exists k :: 0 <= k < |secs| && SetsBss(secs[k]) {
      var k := LastExists(secs);
      LastFound(secs, k);
      forall i | 0 <= i < |secs| && IsLastBss(secs, i) ensures i == k {
        LastUnique(secs, i, k);
      }
    } else {
      NoneFound(secs);
    }
  }

  /** The recorded bss extent runs from the first .bss to the end of the first .sbss2 exactly when the last allocated
      .bss stands at the address of the first. */
  lemma BssExtentIff(secs: seq<Linked>, bss: Linked, last: Linked, bssLen: int)
    requires Find(secs, ".bss") == Some(bss) && Find(secs, ".sbss2") == Some(last)
    requires bssLen == last.addr + last.size - bss.addr
    ensures BssAddr(secs) == bss.addr && BssAddr(secs) + bssLen == last.addr + last.size
       <==> LastBssAt(secs, bss.addr)
  {
    BssAddrIsLast(secs, bss.addr);
  }

  lemma {:induction false} BssAddrFound(secs: seq<Linked>, bss: Linked)
    requires bss in secs && bss.name == ".bss" && !Executable(bss) && Allocated(bss)
    requires forall t :: t in secs && t.name == ".bss" ==> t == bss
    ensures BssAddr(secs) == bss.addr
    decreases |secs|
  {
    var n := |secs| - 1;
    assert secs == secs[..n] + [secs[n]];
    if secs[n] != bss {
      BssAddrFound(secs[..n], bss);
    }
  }
}
