/** DOL executables: `Dol` and `DolSection` of tools/dolfile.py. */
module Dol {
  import opened Bits
  import opened Bytes
  import opened Chunks
  import opened Wrappers

  datatype DolSection = DolSection(unused: bool, data: seq<Byte>, virtAddr: int)

  const HEADER_SIZE: nat := 0x100

  // ----- layout -----

  /** The least multiple of 0x20 that is not below `n`. */
  function RoundUp(n: nat): (r: nat)
    ensures n <= r < n + 0x20 && r % 0x20 == 0
  {
    (n + 0x1F) / 0x20 * 0x20
  }

  lemma AlignIsRoundUp(n: nat)
    ensures Align(n, 0x20) == RoundUp(n)
  {
    AlignRounds(n, 0x20);
    RoundUpIs(n, Align(n, 0x20));
  }

  lemma RoundUpIs(n: nat, a: nat)
    requires n <= a < n + 0x20 && a % 0x20 == 0
    ensures a == RoundUp(n)
  {
  }

  /** The position behind section `i - 1`. */
  function EndBefore(secs: seq<DolSection>, i: nat): (pos: nat)
    requires i <= |secs|
    ensures pos >= HEADER_SIZE
    decreases |secs|, i, 0
  {
    if i == 0 then HEADER_SIZE else Offset(secs, i - 1) + |secs[i - 1].data|
  }

  function Offset(secs: seq<DolSection>, i: nat): nat
    requires i <= |secs|
    decreases |secs|, i, 1
  {
    RoundUp(EndBefore(secs, i))
  }

  function Padding(n: nat): (p: nat)
    ensures p < 0x20 && (n + p) % 0x20 == 0
  {
    RoundUp(n) - n
  }

  /** The data as it comes back: extended by zeros to a multiple of 0x20. */
  function Padded(data: seq<Byte>): (r: seq<Byte>)
    ensures data <= r && |r| % 0x20 == 0 && |r| < |data| + 0x20
    ensures forall i :: |data| <= i < |r| ==> r[i] == 0
  {
    data + Zeros(Padding(|data|))
  }

  /** The three tables of the header. */
  function Offsets(secs: seq<DolSection>, n: nat): (r: seq<int>)
    requires n <= |secs|
    ensures |r| == n
    ensures forall i {:trigger r[i]} :: 0 <= i < n ==> r[i] == if secs[i].unused then 0 else Offset(secs, i)
    decreases |secs|, n
  {
    if n == 0 then []
    else Offsets(secs, n - 1) + [if secs[n - 1].unused then 0 else Offset(secs, n - 1)]
  }

  function Addresses(secs: seq<DolSection>, n: nat): (r: seq<int>)
    requires n <= |secs|
    ensures |r| == n
    ensures forall i {:trigger r[i]} :: 0 <= i < n ==> r[i] == if secs[i].unused then 0 else secs[i].virtAddr
    decreases |secs|, n
  {
    if n == 0 then [] else Addresses(secs, n - 1) + [if secs[n - 1].unused then 0 else secs[n - 1].virtAddr]
  }

  function Lengths(secs: seq<DolSection>, n: nat): (r: seq<int>)
    requires n <= |secs|
    ensures |r| == n
    ensures forall i {:trigger r[i]} :: 0 <= i < n ==> r[i] == if secs[i].unused then 0 else RoundUp(|secs[i].data|)
    decreases |secs|, n
  {
    if n == 0 then [] else Lengths(secs, n - 1) + [if secs[n - 1].unused then 0 else RoundUp(|secs[n - 1].data|)]
  }

  function HeaderNumbers(secs: seq<DolSection>, bssAddr: int, bssLen: int, entry: int): (r: seq<int>)
    ensures |r| == 3 * |secs| + 3
  {
    Offsets(secs, |secs|) + Addresses(secs, |secs|) + Lengths(secs, |secs|) + [bssAddr, bssLen, entry]
  }

  predicate AreWords(ns: seq<int>) {
    forall i :: 0 <= i < |ns| ==> 0 <= ns[i] < 0x1_0000_0000
  }

  /** The header, for numbers that fit. */
  function HeaderBytes(ns: seq<U32>): (r: seq<Byte>)
    ensures |r| == 4 * |ns| + 28
  {
    PackWords(ns) + Zeros(28)
  }

  /** What is written for the first `n` sections: data, then zeros up to the alignment. */
  function SectionChunks(secs: seq<DolSection>, n: nat): seq<Chunk>
    requires n <= |secs|
    decreases |secs|, n
  {
    if n == 0 then [] else SectionChunks(secs, n - 1) + ChunksOf(secs, n - 1)
  }

  function ChunksOf(secs: seq<DolSection>, i: nat): seq<Chunk>
    requires i < |secs|
  {
    if secs[i].unused then []
    else DataChunks(Offset(secs, i), secs[i].data)
  }

  class Dol {
    var bssAddr: int
    var bssLen: int
    var entry: int
    var sections: seq<DolSection>

    constructor ()
      ensures sections == [] && bssAddr == 0 && bssLen == 0 && entry == 0
    {
      bssAddr, bssLen, entry, sections := 0, 0, 0, [];
    }

    method AddSection(section: DolSection)
      modifies this`sections
      ensures sections == old(sections) + [section]
    {
      sections := sections + [section];
    }

    /** `write`; `ok` is false where its assertion fails or a number does not fit the header. */
    method Write() returns (ok: bool, file: seq<Byte>)
      ensures ok <==> |sections| == 18 && AreWords(HeaderNumbers(sections, bssAddr, bssLen, entry))
      ensures ok ==> file == WriteAll(HeaderBytes(HeaderNumbers(sections, bssAddr, bssLen, entry)),
                                      SectionChunks(sections, 18))
    {
      if |sections| != 18 {
        return false, [];
      }
      var secOffsets, secAddresses, secLengths := PlaceSections(sections);
      var numbers := secOffsets + secAddresses + secLengths + [bssAddr, bssLen, entry];
      if !AreWords(numbers) {
        return false, [];
      }
      file := WriteSections(sections, secOffsets, HeaderBytes(numbers));
      ok := true;
    }
  }

  /** The loop of `Dol.write` over positions, addresses and lengths. */
  method PlaceSections(secs: seq<DolSection>)
    returns (secOffsets: seq<int>, secAddresses: seq<int>, secLengths: seq<int>)
    ensures secOffsets == Offsets(secs, |secs|) && secAddresses == Addresses(secs, |secs|)
    ensures secLengths == Lengths(secs, |secs|)
  {
    secOffsets, secAddresses, secLengths := [], [], [];
    var pos := HEADER_SIZE;
    for i := 0 to |secs|
      invariant pos == EndBefore(secs, i)
      invariant secOffsets == Offsets(secs, i) && secAddresses == Addresses(secs, i)
      invariant secLengths == Lengths(secs, i)
    {
      var sec := secs[i];
      AlignIsRoundUp(pos);
      AlignIsRoundUp(|sec.data|);
      pos := Align(pos, 0x20);
      secOffsets := secOffsets + [if !sec.unused then pos else 0];
      secAddresses := secAddresses + [if !sec.unused then sec.virtAddr else 0];
      secLengths := secLengths + [if !sec.unused then Align(|sec.data|, 0x20) else 0];
      pos := pos + |sec.data|;
    }
  }

  /** The loop of `Dol.write` that writes the sections behind the header. */
  method WriteSections(secs: seq<DolSection>, secOffsets: seq<int>, header: seq<Byte>) returns (file: seq<Byte>)
    requires secOffsets == Offsets(secs, |secs|)
    ensures file == WriteAll(header, SectionChunks(secs, |secs|))
  {
    file := header;
    NoChunks(header, secs);
    for i := 0 to |secs|
      invariant file == WriteAll(header, SectionChunks(secs, i))
    {
      file := WriteSection(file, secs, i, secOffsets, header);
    }
  }

  lemma NoChunks(header: seq<Byte>, secs: seq<DolSection>)
    ensures WriteAll(header, SectionChunks(secs, 0)) == header
  {
  }

  method WriteSection(before: seq<Byte>, secs: seq<DolSection>, i: nat, secOffsets: seq<int>, ghost header: seq<Byte>)
    returns (file: seq<Byte>)
    requires i < |secs| && before == WriteAll(header, SectionChunks(secs, i))
    requires secOffsets == Offsets(secs, |secs|)
    ensures file == WriteAll(header, SectionChunks(secs, i + 1))
  {
    file := before;
    ChunksStep(header, secs, i, before);
    if !secs[i].unused {
      file := WriteData(file, secOffsets[i], secs[i].data);
    }
  }

  lemma ChunksStep(header: seq<Byte>, secs: seq<DolSection>, i: nat, file: seq<Byte>)
    requires i < |secs| && file == WriteAll(header, SectionChunks(secs, i))
    ensures WriteAll(header, SectionChunks(secs, i + 1)) ==
            if secs[i].unused then file else WriteAll(file, DataChunks(Offset(secs, i), secs[i].data))
  {
    WriteAllConcat(header, SectionChunks(secs, i), ChunksOf(secs, i));
  }

  lemma WriteTwo(file: seq<Byte>, a: Chunk, b: Chunk)
    ensures WriteAll(file, [a, b]) == WriteAt(WriteAt(file, a.pos, a.bytes), b.pos, b.bytes)
  {
    var f := WriteAt(file, a.pos, a.bytes);
    assert [a, b][1..] == [b] && [b][1..] == [];
    assert WriteAll(f, [b]) == WriteAt(f, b.pos, b.bytes);
  }

  function DataChunks(at: nat, data: seq<Byte>): seq<Chunk> {
    [Chunk(at, data), Chunk(at + |data|, Zeros(Padding(at + |data|)))]
  }

  /** Writing the data of a section at its offset, and the zeros behind. */
  method WriteData(before: seq<Byte>, offset: nat, data: seq<Byte>) returns (file: seq<Byte>)
    ensures file == WriteAll(before, DataChunks(offset, data))
  {
    file := WriteAt(before, offset, data);
    var secEnd := offset + |data|;
    AlignIsRoundUp(secEnd);
    var padLen := Align(secEnd, 0x20) - secEnd;
    if padLen > 0 {
      file := WriteAt(file, secEnd, Zeros(padLen));
    }
    WriteTwo(before, Chunk(offset, data), Chunk(secEnd, Zeros(padLen)));
  }

  // ----- reading -----

  /** `from_dol_file`; `None` is its failing assertion. */
  function SectionFrom(file: seq<Byte>, infoOffset: nat): Option<DolSection>
    requires infoOffset + 0x94 <= |file|
  {
    var offs, len := Get32(file, infoOffset), Get32(file, infoOffset + 0x90);
    var data := Clip(file, offs, offs + len);
    if |data| != len then None else Some(DolSection(false, data, Get32(file, infoOffset + 0x48)))
  }

  function InfoOffset(i: nat): nat {
    i * 4
  }

  function SectionNumber(file: seq<Byte>, i: nat): Option<DolSection>
    requires i < 18 && |file| >= 0xE4
  {
    SectionFrom(file, InfoOffset(i))
  }

  function SectionNumbers(file: seq<Byte>): (r: seq<Option<DolSection>>)
    requires |file| >= 0xE4
    ensures |r| == 18 && forall i :: 0 <= i < 18 ==> r[i] == SectionNumber(file, i)
  {
    seq(18, i requires 0 <= i < 18 => SectionNumber(file, i))
  }

  /** All of them, or the failure of the first that fails. */
  function AllOf(secs: seq<Option<DolSection>>): Option<seq<DolSection>> {
    if secs == [] then Some([])
    else
      match AllOf(secs[..|secs| - 1])
      case None => None
      case Some(front) =>
        match secs[|secs| - 1]
        case None => None
        case Some(sec) => Some(front + [sec])
  }

  datatype Image = Image(sections: seq<DolSection>, bssAddr: int, bssLen: int, entry: int)

  /** What `Dol.read` makes of a file; a file that ends within the header cannot be read. */
  function ReadDol(file: seq<Byte>): Option<Image> {
    if |file| < 0xE4 then None
    else
      match AllOf(SectionNumbers(file))
      case None => None
      case Some(secs) => Some(Image(secs, Get32(file, 0xD8), Get32(file, 0xDC), Get32(file, 0xE0)))
  }

  method Read(file: seq<Byte>) returns (dol: Option<Dol>)
    ensures dol.Some? <==> ReadDol(file).Some?
    ensures dol.Some? ==> fresh(dol.value)
    ensures dol.Some? ==>
              ReadDol(file).value == Image(dol.value.sections, dol.value.bssAddr, dol.value.bssLen, dol.value.entry)
  {
    if |file| < 0xE4 {
      return None;
    }
    var sections := ReadSections(file);
    if sections.None? {
      return None;
    }
    var d := new Dol();
    d.sections := sections.value;
    d.bssAddr, d.bssLen, d.entry := Get32(file, 0xD8), Get32(file, 0xDC), Get32(file, 0xE0);
    return Some(d);
  }

  /** The loop of `Dol.read` */
  method ReadSections(file: seq<Byte>) returns (sections: Option<seq<DolSection>>)
    requires |file| >= 0xE4
    ensures sections == AllOf(SectionNumbers(file))
  {
    var secs := [];
    ghost var all := SectionNumbers(file);
    for i := 0 to 18
      invariant AllOf(all[..i]) == Some(secs)
    {
      var sec := SectionNumber(file, i);
      AllOfNext(all, i);
      if sec.None? {
        AllOfFails(all, i + 1);
        return None;
      }
      secs := secs + [sec.value];
    }
    assert all[..18] == all;
    return Some(secs);
  }

  lemma AllOfNext(all: seq<Option<DolSection>>, i: nat)
    requires i < |all| && AllOf(all[..i]).Some?
    ensures AllOf(all[..i + 1]) == if all[i].None? then None else Some(AllOf(all[..i]).value + [all[i].value])
  {
    assert all[..i + 1][..i] == all[..i];
  }

  lemma {:induction false} AllOfFails(all: seq<Option<DolSection>>, k: nat)
    requires k <= |all| && AllOf(all[..k]) == None
    ensures AllOf(all) == None
    decreases |all|
  {
    if k < |all| {
      assert all[..|all| - 1][..k] == all[..k];
      AllOfFails(all[..|all| - 1], k);
    } else {
      assert all[..k] == all;
    }
  }
}
