/** The bytes of a DOL, written and read, stated on its sections (tools/dolfile.py). */
module DolBytes {
  import opened Bytes
  import opened Chunks
  import opened Dol
  import opened DolRoundTrip
  import opened Wrappers

  // ----- writing -----

  /** The sections follow each other behind the header, each at the next multiple of 0x20. */
  predicate Packed(pos: seq<nat>, secs: seq<DolSection>) {
    && |pos| == |secs| + 1 && pos[0] == 0x100
    && forall i :: 0 <= i < |secs| ==> Follows(pos[i], |secs[i].data|, pos[i + 1])
  }

  predicate Follows(at: nat, size: nat, next: nat) {
    at + size <= next < at + size + 0x20 && next % 0x20 == 0
  }

  /** Where the header has the offset of slot `i`; the address stands 0x48 behind it, the length 0x90. */
  function Slot(i: nat): nat {
    4 * i
  }

  /** The zeros from `at` to `next`. */
  predicate ZerosTo(file: seq<Byte>, at: nat, next: nat) {
    next <= |file| && forall k :: at <= k < next ==> file[k] == 0
  }

  /** An unused slot has three zeros in the header. The numbers of the others are the place, the address and the padded
      length, and their data stand there with zeros behind. */
  predicate SlotStands(file: seq<Byte>, slot: nat, sec: DolSection, at: nat, next: nat) {
    && slot + 0x94 <= |file|
    && if sec.unused then
         Get32(file, slot) == 0 && Get32(file, slot + 0x48) == 0 && Get32(file, slot + 0x90) == 0
       else
         && Get32(file, slot) == at && Get32(file, slot + 0x48) == sec.virtAddr && Get32(file, slot + 0x90) == next - at
         && (sec.data != [] ==> At(file, at, sec.data) && ZerosTo(file, at + |sec.data|, next))
  }

  predicate LastNumbersStand(file: seq<Byte>, bssAddr: int, bssLen: int, entry: int) {
    && |file| >= 0x100 && Get32(file, 0xD8) == bssAddr && Get32(file, 0xDC) == bssLen && Get32(file, 0xE0) == entry
    && ZerosTo(file, 0xE4, 0x100)
  }

  function Positions(secs: seq<DolSection>): (pos: seq<nat>)
    ensures |pos| == |secs| + 1
    ensures forall i {:trigger pos[i]} :: 0 <= i <= |secs| ==> pos[i] == Offset(secs, i)
  {
    seq(|secs| + 1, i requires 0 <= i <= |secs| => Offset(secs, i))
  }

  lemma PositionsPacked(secs: seq<DolSection>)
    ensures Packed(Positions(secs), secs)
  {
    var pos := Positions(secs);
    assert EndBefore(secs, 0) == 0x100 && Offset(secs, 0) == 0x100;
    forall i | 0 <= i < |secs| ensures Follows(pos[i], |secs[i].data|, pos[i + 1]) {
      OffsetFollows(secs, i);
    }
  }

  lemma OffsetFollows(secs: seq<DolSection>, i: nat)
    requires i < |secs|
    ensures Follows(Offset(secs, i), |secs[i].data|, Offset(secs, i + 1))
    ensures Offset(secs, i + 1) == Offset(secs, i) + |Padded(secs[i].data)|
    ensures Offset(secs, i) % 0x20 == 0 && |Padded(secs[i].data)| == RoundUp(|secs[i].data|)
  {
    NextOffset(secs, i);
  }

  lemma PaddedStands(file: seq<Byte>, at: nat, data: seq<Byte>, next: nat)
    requires At(file, at, Padded(data)) && next == at + |Padded(data)|
    ensures At(file, at, data) && ZerosTo(file, at + |data|, next)
  {
    var all := Padded(data);
    assert forall k :: 0 <= k < |data| ==> all[k] == data[k];
    forall k | 0 <= k < |all| ensures file[at + k] == all[k] { AtIndex(file, at, all, k); }
    assert file[at..at + |data|] == data;
    forall k | at + |data| <= k < next ensures file[k] == 0 {
      assert file[at + (k - at)] == all[k - at];
    }
  }

  lemma SlotWritten(file: seq<Byte>, secs: seq<DolSection>, ns: seq<U32>, i: nat, slot: nat, at: nat, next: nat)
    requires |secs| == 18 && i < 18 && slot == 4 * i && |file| >= HEADER_SIZE && At(file, 0, PackWords(ns))
    requires Describes(ns, i, ReadBack(secs[i]), if secs[i].unused then 0 else at)
    requires !secs[i].unused && secs[i].data != [] ==> At(file, at, Padded(secs[i].data))
    requires next == at + |Padded(secs[i].data)|
    ensures SlotStands(file, slot, secs[i], at, next)
  {
    NumbersStand(file, ns, ReadBack(secs[i]), if secs[i].unused then 0 else at, i, slot);
    if !secs[i].unused && secs[i].data != [] { PaddedStands(file, at, secs[i].data, next); }
  }

  /** What `Dol.Write` returns. */
  predicate Wrote(file: seq<Byte>, secs: seq<DolSection>, bssAddr: int, bssLen: int, entry: int) {
    && |secs| == 18 && AreWords(HeaderNumbers(secs, bssAddr, bssLen, entry))
    && file == WriteAll(HeaderBytes(HeaderNumbers(secs, bssAddr, bssLen, entry)), SectionChunks(secs, 18))
  }

  /** A written DOL: all 18 slots, the bss extent and the entry point, and the data of the slots that are used. */
  lemma FileWritten(file: seq<Byte>, secs: seq<DolSection>, bssAddr: int, bssLen: int, entry: int)
    returns (pos: seq<nat>)
    requires Wrote(file, secs, bssAddr, bssLen, entry)
    ensures Packed(pos, secs) && LastNumbersStand(file, bssAddr, bssLen, entry)
    ensures forall i :: 0 <= i < 18 ==> SlotStands(file, Slot(i), secs[i], pos[i], pos[i + 1])
  {
    var ns: seq<U32> := HeaderNumbers(secs, bssAddr, bssLen, entry);
    pos := Positions(secs);
    PositionsPacked(secs);
    WrittenHolds(secs, ns);
    LastNumbers(file, ns, bssAddr, bssLen, entry);
    HeaderEnds(secs, ns);
    forall i | 0 <= i < 18 ensures SlotStands(file, Slot(i), secs[i], pos[i], pos[i + 1]) {
      NumbersDescribe(secs, bssAddr, bssLen, entry, i);
      OffsetFollows(secs, i);
      SlotWritten(file, secs, ns, i, Slot(i), pos[i], pos[i + 1]);
    }
  }

  lemma HeaderEnds(secs: seq<DolSection>, ns: seq<U32>)
    requires |secs| == 18 && |ns| == 57
    ensures ZerosTo(Written(secs, ns), 0xE4, 0x100)
  {
    var header, file := HeaderBytes(ns), Written(secs, ns);
    SectionsTiled(secs, 18);
    WriteAllKeeps(header, SectionChunks(secs, 18), HEADER_SIZE, Offset(secs, 18), 0, header);
    forall k | 0xE4 <= k < 0x100 ensures file[k] == 0 { AtIndex(file, 0, header, k); }
  }

  /** The numbers of a used slot fit their words. */
  predicate SlotFits(secs: seq<DolSection>, pos: seq<nat>, i: nat)
    requires i < |secs| && |pos| == |secs| + 1
  {
    secs[i].unused || (IsWord(pos[i]) && IsWord(secs[i].virtAddr) && pos[i + 1] < pos[i] + 0x1_0000_0000)
  }

  /** A DOL can be written exactly when it has 18 slots whose numbers fit, and so do the extent and the entry point. */
  lemma WritableIff(secs: seq<DolSection>, bssAddr: int, bssLen: int, entry: int)
    ensures |secs| == 18 && AreWords(HeaderNumbers(secs, bssAddr, bssLen, entry))
       <==> && |secs| == 18 && AreWords([bssAddr, bssLen, entry])
            && forall i :: 0 <= i < 18 ==> SlotFits(secs, Positions(secs), i)
  {
    if |secs| == 18 {
      var a, b, c, d := Offsets(secs, 18), Addresses(secs, 18), Lengths(secs, 18), [bssAddr, bssLen, entry];
      assert HeaderNumbers(secs, bssAddr, bssLen, entry) == a + b + c + d;
      FourWords(a, b, c, d);
      var pos := Positions(secs);
      forall i | 0 <= i < 18
        ensures SlotFits(secs, pos, i) <==> AreThree(a, b, c, i)
      {
        SlotFitsIff(secs, pos, i, a[i], b[i], c[i]);
      }
    }
  }

  predicate AreThree(a: seq<int>, b: seq<int>, c: seq<int>, i: nat)
    requires i < |a| == |b| == |c|
  {
    IsWord(a[i]) && IsWord(b[i]) && IsWord(c[i])
  }

  lemma SlotFitsIff(secs: seq<DolSection>, pos: seq<nat>, i: nat, a: int, b: int, c: int)
    requires i < |secs| && pos == Positions(secs)
    requires a == if secs[i].unused then 0 else pos[i]
    requires b == if secs[i].unused then 0 else secs[i].virtAddr
    requires c == if secs[i].unused then 0 else RoundUp(|secs[i].data|)
    ensures SlotFits(secs, pos, i) <==> IsWord(a) && IsWord(b) && IsWord(c)
  {
    OffsetFollows(secs, i);
  }

  predicate IsWord(n: int) {
    0 <= n < 0x1_0000_0000
  }

  lemma FourWords(a: seq<int>, b: seq<int>, c: seq<int>, d: seq<int>)
    requires |a| == |b| == |c|
    ensures AreWords(a + b + c + d) <==> AreWords(d) && forall i :: 0 <= i < |a| ==> AreThree(a, b, c, i)
  {
    TwoWords(a + b + c, d);
    TwoWords(a + b, c);
    TwoWords(a, b);
    if forall i :: 0 <= i < |a| ==> AreThree(a, b, c, i) {
      forall i | 0 <= i < |a| ensures IsWord(a[i]) && IsWord(b[i]) && IsWord(c[i]) { assert AreThree(a, b, c, i); }
    }
  }

  lemma TwoWords(a: seq<int>, b: seq<int>)
    ensures AreWords(a + b) <==> AreWords(a) && AreWords(b)
  {
    if AreWords(a + b) {
      forall i | 0 <= i < |a| ensures 0 <= a[i] < 0x1_0000_0000 { assert (a + b)[i] == a[i]; }
      forall i | 0 <= i < |b| ensures 0 <= b[i] < 0x1_0000_0000 { assert (a + b)[|a| + i] == b[i]; }
    }
  }

  // ----- reading -----

  /** The section of a slot: its address, and as many bytes from its offset on as its length says. */
  predicate SlotSays(file: seq<Byte>, slot: nat, sec: DolSection) {
    && slot + 0x94 <= |file|
    && !sec.unused && sec.virtAddr == Get32(file, slot + 0x48) && |sec.data| == Get32(file, slot + 0x90)
    && (sec.data != [] ==> At(file, Get32(file, slot), sec.data))
  }

  predicate FileSays(file: seq<Byte>, image: Image) {
    && |file| >= 0xE4 && |image.sections| == 18
    && (forall i :: 0 <= i < 18 ==> SlotSays(file, Slot(i), image.sections[i]))
    && image.bssAddr == Get32(file, 0xD8) && image.bssLen == Get32(file, 0xDC) && image.entry == Get32(file, 0xE0)
  }

  lemma SlotIff(file: seq<Byte>, slot: nat, sec: DolSection)
    requires slot + 0x94 <= |file|
    ensures SlotSays(file, slot, sec) <==> SectionFrom(file, slot) == Some(sec)
  {
    var offs, len := Get32(file, slot), Get32(file, slot + 0x90);
    if SlotSays(file, slot, sec) { ClipAt(file, offs, sec.data, len); }
  }

  lemma {:induction false} AllOfIs(all: seq<Option<DolSection>>, secs: seq<DolSection>)
    requires AllOf(all) == Some(secs)
    ensures |secs| == |all| && forall i :: 0 <= i < |all| ==> all[i] == Some(secs[i])
  {
    if all != [] {
      var n := |all| - 1;
      AllOfIs(all[..n], AllOf(all[..n]).value);
      assert secs == AllOf(all[..n]).value + [all[n].value];
    }
  }

  lemma NumberIff(file: seq<Byte>, i: nat, sec: DolSection)
    requires i < 18 && |file| >= 0xE4
    ensures SlotSays(file, Slot(i), sec) <==> SectionNumbers(file)[i] == Some(sec)
  {
    SlotIff(file, Slot(i), sec);
  }

  /** A file is read as a DOL exactly when its bytes say what is in the DOL. */
  lemma ReadMeaning(file: seq<Byte>, image: Image)
    ensures ReadDol(file) == Some(image) <==> FileSays(file, image)
  {
    if |file| >= 0xE4 {
      var all := SectionNumbers(file);
      if ReadDol(file) == Some(image) {
        AllOfIs(all, image.sections);
        forall i | 0 <= i < 18 ensures SlotSays(file, Slot(i), image.sections[i]) {
          NumberIff(file, i, image.sections[i]);
        }
      }
      if FileSays(file, image) {
        forall i | 0 <= i < 18 ensures all[i] == Some(image.sections[i]) {
          NumberIff(file, i, image.sections[i]);
        }
        AllOfSome(all, image.sections);
      }
    }
  }
}
