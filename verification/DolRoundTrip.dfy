/** The layout of a written DOL, and what reading it gives back. */
module DolRoundTrip {
  import opened Bits
  import opened Bytes
  import opened Chunks
  import opened Dol
  import opened Wrappers

  lemma PaddingShift(at: nat, n: nat)
    requires at % 0x20 == 0
    ensures Padding(at + n) == Padding(n)
  {
    DivModUnique(at + n + 0x1F, 0x20, at / 0x20 + (n + 0x1F) / 0x20, (n + 0x1F) % 0x20);
  }

  /** The section and its zeros end where the next section may start. */
  lemma NextOffset(secs: seq<DolSection>, i: nat)
    requires i < |secs|
    ensures Offset(secs, i) % 0x20 == 0
    ensures Offset(secs, i + 1) == Offset(secs, i) + |Padded(secs[i].data)|
  {
    PaddingShift(Offset(secs, i), |secs[i].data|);
  }

  lemma {:induction false} OffsetsAscend(secs: seq<DolSection>, i: nat, j: nat)
    requires i <= j <= |secs|
    ensures HEADER_SIZE <= Offset(secs, i) <= Offset(secs, j)
    decreases j
  {
    if i < j {
      OffsetsAscend(secs, i, j - 1);
      NextOffset(secs, j - 1);
    }
  }

  /** Used sections occupy disjoint ranges behind the header that start and end at multiples of 0x20. */
  lemma SlotsDisjoint(secs: seq<DolSection>, i: nat, j: nat)
    requires i < j < |secs|
    ensures HEADER_SIZE <= Offset(secs, i) && Offset(secs, i) % 0x20 == 0 && |Padded(secs[i].data)| % 0x20 == 0
    ensures Offset(secs, i) + |Padded(secs[i].data)| <= Offset(secs, j)
  {
    OffsetsAscend(secs, 0, i);
    NextOffset(secs, i);
    OffsetsAscend(secs, i + 1, j);
  }

  lemma TiledTwo(a: Chunk, b: Chunk, hi: nat)
    requires b.pos == a.pos + |a.bytes| && hi == b.pos + |b.bytes|
    ensures Tiled([a, b], a.pos, hi)
  {
    assert [a, b][1..] == [b] && [b][1..] == [];
    assert Tiled([], hi, hi) && Tiled([b], b.pos, hi);
  }

  lemma DataTiled(at: nat, data: seq<Byte>)
    requires at % 0x20 == 0
    ensures Tiled(DataChunks(at, data), at, at + |Padded(data)|)
  {
    PaddingShift(at, |data|);
    TiledTwo(Chunk(at, data), Chunk(at + |data|, Zeros(Padding(at + |data|))), at + |Padded(data)|);
  }

  lemma {:induction false} SectionsTiled(secs: seq<DolSection>, n: nat)
    requires n <= |secs|
    ensures Tiled(SectionChunks(secs, n), HEADER_SIZE, Offset(secs, n))
    decreases n
  {
    OffsetsAscend(secs, 0, n);
    if n > 0 {
      SectionsTiled(secs, n - 1);
      NextOffset(secs, n - 1);
      if !secs[n - 1].unused { DataTiled(Offset(secs, n - 1), secs[n - 1].data); }
      TiledConcat(SectionChunks(secs, n - 1), ChunksOf(secs, n - 1), HEADER_SIZE, Offset(secs, n - 1), Offset(secs, n));
    }
  }

  lemma {:induction false} ChunksOfHeld(file: seq<Byte>, secs: seq<DolSection>, i: nat, n: nat)
    requires i < n <= |secs| && Holds(file, SectionChunks(secs, n))
    ensures Holds(file, ChunksOf(secs, i))
    decreases n
  {
    HoldsConcat(file, SectionChunks(secs, n - 1), ChunksOf(secs, n - 1));
    if i < n - 1 { ChunksOfHeld(file, secs, i, n - 1); }
  }

  /** The file that `Dol.write` makes of 18 sections. */
  function Written(secs: seq<DolSection>, ns: seq<U32>): seq<Byte>
    requires |secs| == 18
  {
    WriteAll(HeaderBytes(ns), SectionChunks(secs, 18))
  }

  lemma AtJoin(file: seq<Byte>, at: nat, a: seq<Byte>, mid: nat, b: seq<Byte>)
    requires a != [] && mid == at + |a| && At(file, at, a) && (b != [] ==> At(file, mid, b))
    ensures At(file, at, a + b)
  {
    assert mid + |b| <= |file|;
    forall k | 0 <= k < |a + b| ensures file[at + k] == (a + b)[k] {
      if k < |a| { AtIndex(file, at, a, k); } else { AtIndex(file, mid, b, k - |a|); }
    }
  }

  lemma DataStands(file: seq<Byte>, at: nat, data: seq<Byte>)
    requires at % 0x20 == 0 && data != []
    requires Holds(file, DataChunks(at, data))
    ensures At(file, at, Padded(data))
  {
    PaddingShift(at, |data|);
    var b := Chunk(at + |data|, Zeros(Padding(at + |data|)));
    assert DataChunks(at, data)[1..] == [b];
    AtJoin(file, at, data, at + |data|, b.bytes);
  }

  /** Header and sections stand in the written file. */
  lemma WrittenHolds(secs: seq<DolSection>, ns: seq<U32>)
    requires |secs| == 18 && |ns| == 57
    ensures At(Written(secs, ns), 0, PackWords(ns)) && |Written(secs, ns)| >= HEADER_SIZE
    ensures forall i :: 0 <= i < 18 && !secs[i].unused && secs[i].data != [] ==>
              At(Written(secs, ns), Offset(secs, i), Padded(secs[i].data))
  {
    var header, file := HeaderBytes(ns), Written(secs, ns);
    SectionsTiled(secs, 18);
    WriteAllKeeps(header, SectionChunks(secs, 18), HEADER_SIZE, Offset(secs, 18), 0, header);
    OverwriteHolds(header, SectionChunks(secs, 18), HEADER_SIZE, Offset(secs, 18));
    AtSplit(file, 0, PackWords(ns), Zeros(28));
    forall i | 0 <= i < 18 && !secs[i].unused && secs[i].data != []
      ensures At(file, Offset(secs, i), Padded(secs[i].data))
    {
      ChunksOfHeld(file, secs, i, 18);
      NextOffset(secs, i);
      DataStands(file, Offset(secs, i), secs[i].data);
    }
  }

  /** What becomes of a section: an unused one comes back as an empty used one at address 0. */
  function ReadBack(sec: DolSection): DolSection {
    if sec.unused then DolSection(false, [], 0) else DolSection(false, Padded(sec.data), sec.virtAddr)
  }

  function AllReadBack(secs: seq<DolSection>): (r: seq<DolSection>)
    ensures |r| == |secs| && forall i :: 0 <= i < |secs| ==> r[i] == ReadBack(secs[i])
  {
    seq(|secs|, i requires 0 <= i < |secs| => ReadBack(secs[i]))
  }

  /** Slot `i` of the three tables in the header describes a section that stands at `at`. */
  predicate Describes(ns: seq<int>, i: nat, back: DolSection, at: nat) {
    && |ns| == 57 && i < 18
    && ns[i] == at && ns[18 + i] == back.virtAddr && ns[36 + i] == |back.data|
  }

  lemma NumbersDescribe(secs: seq<DolSection>, bssAddr: int, bssLen: int, entry: int, i: nat)
    requires |secs| == 18 && i < 18
    ensures Describes(HeaderNumbers(secs, bssAddr, bssLen, entry), i, ReadBack(secs[i]),
                      if secs[i].unused then 0 else Offset(secs, i))
  {
    assert |Padded(secs[i].data)| == RoundUp(|secs[i].data|);
    ThirdsIndex(Offsets(secs, |secs|), Addresses(secs, |secs|), Lengths(secs, |secs|), [bssAddr, bssLen, entry], i);
  }

  lemma ThirdsIndex(a: seq<int>, b: seq<int>, c: seq<int>, d: seq<int>, i: nat)
    requires |a| == |b| == |c| == 18 && i < 18
    ensures var ns := a + b + c + d;
            ns[i] == a[i] && ns[18 + i] == b[i] && ns[36 + i] == c[i]
  {
  }

  lemma ClipAt(file: seq<Byte>, at: nat, data: seq<Byte>, len: nat)
    requires len == |data| && (data != [] ==> At(file, at, data))
    ensures Clip(file, at, at + len) == data
  {
  }

  /** A section is read from the numbers in its header slots. */
  lemma NumberReads(file: seq<Byte>, ns: seq<U32>, back: DolSection, at: nat, i: nat)
    requires Describes(ns, i, back, at) && At(file, 0, PackWords(ns)) && |file| >= HEADER_SIZE
    requires !back.unused && (back.data != [] ==> At(file, at, back.data))
    ensures SectionNumber(file, i) == Some(back)
  {
    NumbersStand(file, ns, back, at, i, InfoOffset(i));
    SectionReads(file, back, at, InfoOffset(i));
  }

  lemma SectionReads(file: seq<Byte>, back: DolSection, at: nat, info: nat)
    requires info + 0x94 <= |file| && Get32(file, info) == at && Get32(file, info + 0x48) == back.virtAddr
    requires Get32(file, info + 0x90) == |back.data| && !back.unused && (back.data != [] ==> At(file, at, back.data))
    ensures SectionFrom(file, info) == Some(back)
  {
    ClipAt(file, at, back.data, |back.data|);
  }

  lemma NumbersStand(file: seq<Byte>, ns: seq<U32>, back: DolSection, at: nat, i: nat, info: nat)
    requires Describes(ns, i, back, at) && At(file, 0, PackWords(ns)) && |file| >= HEADER_SIZE && info == 4 * i
    ensures Get32(file, info) == at && Get32(file, info + 0x48) == back.virtAddr
    ensures Get32(file, info + 0x90) == |back.data|
  {
    WordIs(file, 0, ns, i, info);
    WordIs(file, 0, ns, 18 + i, info + 0x48);
    WordIs(file, 0, ns, 36 + i, info + 0x90);
  }

  lemma {:induction false} AllOfSome(all: seq<Option<DolSection>>, secs: seq<DolSection>)
    requires |all| == |secs| && forall i :: 0 <= i < |all| ==> all[i] == Some(secs[i])
    ensures AllOf(all) == Some(secs)
  {
    if all != [] {
      var n := |all| - 1;
      AllOfSome(all[..n], secs[..n]);
      assert secs == secs[..n] + [secs[n]];
    }
  }

  lemma Assembled(file: seq<Byte>, back: seq<DolSection>, bssAddr: int, bssLen: int, entry: int)
    requires |file| >= 0xE4 && AllOf(SectionNumbers(file)) == Some(back)
    requires Get32(file, 0xD8) == bssAddr && Get32(file, 0xDC) == bssLen && Get32(file, 0xE0) == entry
    ensures ReadDol(file) == Some(Image(back, bssAddr, bssLen, entry))
  {
  }

  lemma LastNumbers(file: seq<Byte>, ns: seq<U32>, bssAddr: int, bssLen: int, entry: int)
    requires |ns| == 57 && ns[54] == bssAddr && ns[55] == bssLen && ns[56] == entry
    requires |file| >= HEADER_SIZE && At(file, 0, PackWords(ns))
    ensures Get32(file, 0xD8) == bssAddr && Get32(file, 0xDC) == bssLen && Get32(file, 0xE0) == entry
  {
    WordIs(file, 0, ns, 54, 0xD8);
    WordIs(file, 0, ns, 55, 0xDC);
    WordIs(file, 0, ns, 56, 0xE0);
  }

  /** A written DOL reads back as the addresses and the zero-padded data of its used sections, with its bss extent
      and entry point. */
  lemma WriteThenRead(secs: seq<DolSection>, bssAddr: int, bssLen: int, entry: int)
    requires |secs| == 18 && AreWords(HeaderNumbers(secs, bssAddr, bssLen, entry))
    ensures ReadDol(Written(secs, HeaderNumbers(secs, bssAddr, bssLen, entry)))
         == Some(Image(AllReadBack(secs), bssAddr, bssLen, entry))
  {
    var ns: seq<U32> := HeaderNumbers(secs, bssAddr, bssLen, entry);
    var file := Written(secs, ns);
    WrittenHolds(secs, ns);
    forall i | 0 <= i < 18 ensures SectionNumber(file, i) == Some(ReadBack(secs[i])) {
      NumbersDescribe(secs, bssAddr, bssLen, entry, i);
      NumberReads(file, ns, ReadBack(secs[i]), if secs[i].unused then 0 else Offset(secs, i), i);
    }
    LastNumbers(file, ns, bssAddr, bssLen, entry);
    AllOfSome(SectionNumbers(file), AllReadBack(secs));
    Assembled(file, AllReadBack(secs), bssAddr, bssLen, entry);
  }

  lemma ReadBackTwice(sec: DolSection)
    ensures ReadBack(ReadBack(sec)) == ReadBack(sec)
  {
    var data := ReadBack(sec).data;
    PaddingShift(|data|, 0);
    assert Padded(data) == data;
  }

  /** Writing what was read changes the sections no more. */
  lemma RereadingIsStable(secs: seq<DolSection>, again: seq<DolSection>, bssAddr: int, bssLen: int, entry: int)
    requires |secs| == 18 && again == AllReadBack(secs)
    requires AreWords(HeaderNumbers(again, bssAddr, bssLen, entry))
    ensures ReadDol(Written(again, HeaderNumbers(again, bssAddr, bssLen, entry)))
         == Some(Image(again, bssAddr, bssLen, entry))
  {
    WriteThenRead(again, bssAddr, bssLen, entry);
    forall i | 0 <= i < 18 ensures ReadBack(again[i]) == again[i] {
      ReadBackTwice(secs[i]);
    }
    assert AllReadBack(again) == again;
  }

  // ----- writing the same bytes again -----

  /** A section that is padded on its own is followed by the same position. */
  lemma {:induction false} OffsetsStay(secs: seq<DolSection>, i: nat)
    requires i <= |secs| && forall k :: 0 <= k < i ==> !secs[k].unused
    ensures Offset(AllReadBack(secs), i) == Offset(secs, i)
    decreases i
  {
    if i > 0 {
      OffsetsStay(secs, i - 1);
      NextOffset(secs, i - 1);
      NextOffset(AllReadBack(secs), i - 1);
      PaddedOnce(secs[i - 1].data);
    }
  }

  lemma PaddedOnce(data: seq<Byte>)
    ensures |Padded(Padded(data))| == |Padded(data)|
  {
    AlignedPadding(0, |Padded(data)|);
  }

  lemma WriteJoined(file: seq<Byte>, at: nat, a: seq<Byte>, b: seq<Byte>)
    requires a != []
    ensures WriteAt(WriteAt(file, at, a), at + |a|, b) == WriteAt(file, at, a + b)
  {
    var padded := if |file| < at then file + Zeros(at - |file|) else file;
    var f := WriteAt(file, at, a);
    assert f[..at + |a|] == padded[..at] + a;
  }

  lemma PaddedWritesSame(file: seq<Byte>, at: nat, data: seq<Byte>)
    requires at % 0x20 == 0
    ensures WriteAll(file, DataChunks(at, Padded(data))) == WriteAll(file, DataChunks(at, data))
  {
    NoPadding(at, data);
    var whole := Padded(data);
    WriteTwo(file, Chunk(at, data), Chunk(at + |data|, Zeros(Padding(|data|))));
    WriteTwo(file, Chunk(at, whole), Chunk(at + |whole|, []));
    if data != [] { WriteJoined(file, at, data, Zeros(Padding(|data|))); }
  }

  lemma NoPadding(at: nat, data: seq<Byte>)
    requires at % 0x20 == 0
    ensures DataChunks(at, data) == [Chunk(at, data), Chunk(at + |data|, Zeros(Padding(|data|)))]
    ensures DataChunks(at, Padded(data)) == [Chunk(at, Padded(data)), Chunk(at + |Padded(data)|, [])]
    ensures data == [] ==> Padding(|data|) == 0
  {
    PaddingShift(at, |data|);
    AlignedPadding(at, |Padded(data)|);
    if data == [] { AlignedPadding(0, |data|); }
    assert Zeros(0) == [];
  }

  lemma AlignedPadding(at: nat, n: nat)
    requires at % 0x20 == 0 && n % 0x20 == 0
    ensures Padding(at + n) == 0
  {
    var p := Padding(at + n);
    assert p == (at + n + p) - (at + n) && p % 0x20 == 0;
  }

  lemma {:induction false} SectionsWriteSame(header: seq<Byte>, secs: seq<DolSection>, n: nat)
    requires n <= |secs| && forall k :: 0 <= k < n ==> !secs[k].unused
    ensures WriteAll(header, SectionChunks(AllReadBack(secs), n)) == WriteAll(header, SectionChunks(secs, n))
    decreases n
  {
    if n > 0 {
      var again, i := AllReadBack(secs), n - 1;
      SectionsWriteSame(header, secs, i);
      OffsetsStay(secs, i);
      ChunksStep(header, again, i, WriteAll(header, SectionChunks(again, i)));
      ChunksStep(header, secs, i, WriteAll(header, SectionChunks(secs, i)));
      PaddedWritesSame(WriteAll(header, SectionChunks(secs, i)), Offset(secs, i), secs[i].data);
    }
  }

  lemma NumbersStay(secs: seq<DolSection>, bssAddr: int, bssLen: int, entry: int)
    requires forall k :: 0 <= k < |secs| ==> !secs[k].unused
    ensures HeaderNumbers(AllReadBack(secs), bssAddr, bssLen, entry) == HeaderNumbers(secs, bssAddr, bssLen, entry)
  {
    var again, n := AllReadBack(secs), |secs|;
    forall i | 0 <= i < n
      ensures Offset(again, i) == Offset(secs, i) && RoundUp(|again[i].data|) == RoundUp(|secs[i].data|)
    {
      OffsetsStay(secs, i);
      PaddingShift(|Padded(secs[i].data)|, 0);
    }
    assert Offsets(again, n) == Offsets(secs, n) && Addresses(again, n) == Addresses(secs, n);
    assert Lengths(again, n) == Lengths(secs, n);
  }

  /** What was read from a written DOL is written as the same bytes exactly when no slot was unused; an unused slot
      gets an offset that is not 0. */
  lemma RewritingIsIdentical(secs: seq<DolSection>, bssAddr: int, bssLen: int, entry: int)
    requires |secs| == 18 && AreWords(HeaderNumbers(secs, bssAddr, bssLen, entry))
    ensures var ns := HeaderNumbers(secs, bssAddr, bssLen, entry);
            var again := AllReadBack(secs);
            var ns' := HeaderNumbers(again, bssAddr, bssLen, entry);
            (AreWords(ns') && Written(again, ns') == Written(secs, ns)) <==> forall i :: 0 <= i < 18 ==> !secs[i].unused
  {
    var ns, again := HeaderNumbers(secs, bssAddr, bssLen, entry), AllReadBack(secs);
    var ns' := HeaderNumbers(again, bssAddr, bssLen, entry);
    if forall i :: 0 <= i < 18 ==> !secs[i].unused {
      NumbersStay(secs, bssAddr, bssLen, entry);
      SectionsWriteSame(HeaderBytes(ns), secs, 18);
    } else if AreWords(ns') && Written(again, ns') == Written(secs, ns) {
      var i :| 0 <= i < 18 && secs[i].unused;
      UnusedShows(secs, ns, ns', i, bssAddr, bssLen, entry);
    }
  }

  lemma UnusedShows(secs: seq<DolSection>, ns: seq<U32>, ns': seq<U32>, i: nat, bssAddr: int, bssLen: int, entry: int)
    requires |secs| == 18 && i < 18 && secs[i].unused
    requires ns == HeaderNumbers(secs, bssAddr, bssLen, entry)
    requires ns' == HeaderNumbers(AllReadBack(secs), bssAddr, bssLen, entry)
    ensures Written(AllReadBack(secs), ns') != Written(secs, ns)
  {
    var again := AllReadBack(secs);
    var file, file' := Written(secs, ns), Written(again, ns');
    WrittenHolds(secs, ns);
    WrittenHolds(again, ns');
    NumbersDescribe(secs, bssAddr, bssLen, entry, i);
    NumbersDescribe(again, bssAddr, bssLen, entry, i);
    OffsetsAscend(again, i, i);
    NumbersStand(file, ns, ReadBack(secs[i]), 0, i, 4 * i);
    NumbersStand(file', ns', ReadBack(again[i]), Offset(again, i), i, 4 * i);
  }
}
