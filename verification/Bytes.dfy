/** Byte strings: big-endian packing as done by Python's struct module, and a binary file
    that is written at seek positions. */
module Bytes {

  type Byte = n: nat | n < 256
  type U16 = n: nat | n < 0x1_0000
  type U32 = n: nat | n < 0x1_0000_0000

  function Pack16(n: U16): (s: seq<Byte>)
    ensures |s| == 2
  {
    [n / 256, n % 256]
  }

  function Pack32(n: U32): (s: seq<Byte>)
    ensures |s| == 4
  {
    [n / 0x100_0000, n / 0x1_0000 % 256, n / 256 % 256, n % 256]
  }

  /** The first byte is the highest. */
  lemma BigEndianExample()
    ensures Pack16(0x0102) == [1, 2] && Pack32(0x0102_0304) == [1, 2, 3, 4] && FromBytes([1, 2, 3]) == 0x01_0203
  {
    assert [1, 2, 3][..2] == [1, 2] && [1, 2][..1] == [1] && FromBytes([1]) == 1 && FromBytes([1, 2]) == 0x0102;
  }

  /** `int.from_bytes(s, 'big')` for any length. */
  function FromBytes(s: seq<Byte>): nat {
    if s == [] then 0 else 256 * FromBytes(s[..|s| - 1]) + s[|s| - 1] as int
  }

  function Get16(data: seq<Byte>, pos: nat): U16
    requires pos + 2 <= |data|
  {
    data[pos] as int * 256 + data[pos + 1] as int
  }

  function Get32(data: seq<Byte>, pos: nat): U32
    requires pos + 4 <= |data|
  {
    data[pos] as int * 0x100_0000 + data[pos + 1] as int * 0x1_0000
      + data[pos + 2] as int * 256 + data[pos + 3] as int
  }

  lemma FromBytes4(s: seq<Byte>)
    requires |s| == 4
    ensures FromBytes(s) == Get32(s, 0)
  {
    var a, b, c := s[..3], s[..2], s[..1];
    assert a[..2] == b && b[..1] == c && c[..0] == [];
    assert FromBytes(c) == s[0];
    assert FromBytes(b) == 256 * (s[0] as int) + s[1] as int;
    assert FromBytes(a) == 256 * FromBytes(b) + s[2];
  }

  /** `data[lo:hi]` of Python, for bounds that are not negative */
  function Clip(data: seq<Byte>, lo: nat, hi: nat): seq<Byte> {
    if hi <= lo || |data| <= lo then [] else data[lo..if hi <= |data| then hi else |data|]
  }

  /** The bytes of `chunk` stand at position `pos` of the file. */
  predicate At(file: seq<Byte>, pos: nat, chunk: seq<Byte>) {
    pos + |chunk| <= |file| && file[pos..pos + |chunk|] == chunk
  }

  lemma AtIndex(file: seq<Byte>, pos: nat, chunk: seq<Byte>, i: nat)
    requires At(file, pos, chunk) && i < |chunk|
    ensures file[pos + i] == chunk[i]
  {
    assert file[pos..pos + |chunk|][i] == chunk[i];
  }

  lemma AtPart(file: seq<Byte>, pos: nat, a: seq<Byte>, b: seq<Byte>, c: seq<Byte>)
    requires At(file, pos, a + b + c)
    ensures At(file, pos + |a|, b)
  {
    forall i | 0 <= i < |b| ensures file[pos + |a| + i] == b[i] {
      AtIndex(file, pos, a + b + c, |a| + i);
    }
  }

  lemma AtSplit(file: seq<Byte>, pos: nat, a: seq<Byte>, b: seq<Byte>)
    requires At(file, pos, a + b)
    ensures At(file, pos, a) && At(file, pos + |a|, b)
  {
    assert [] + a + b == a + b && a + b + [] == a + b;
    AtPart(file, pos, [], a, b);
    AtPart(file, pos, a, b, []);
  }

  lemma AtRest(file: seq<Byte>, pos: nat, a: seq<Byte>, b: seq<Byte>, mid: nat)
    requires At(file, pos, a + b) && mid == pos + |a|
    ensures At(file, pos, a) && At(file, mid, b)
  {
    AtSplit(file, pos, a, b);
  }

  lemma AtAfter(front: seq<Byte>, file: seq<Byte>, pos: nat, chunk: seq<Byte>, at: nat)
    requires At(file, pos, chunk) && at == |front| + pos
    ensures At(front + file, at, chunk)
  {
    assert (front + file)[at..at + |chunk|] == file[pos..pos + |chunk|];
  }

  lemma AtBefore(file: seq<Byte>, back: seq<Byte>, pos: nat, chunk: seq<Byte>)
    requires At(file, pos, chunk)
    ensures At(file + back, pos, chunk)
  {
    assert (file + back)[pos..pos + |chunk|] == file[pos..pos + |chunk|];
  }

  lemma Get16At(file: seq<Byte>, pos: nat, n: U16)
    requires At(file, pos, Pack16(n))
    ensures Get16(file, pos) == n
  {
    AtIndex(file, pos, Pack16(n), 0);
    AtIndex(file, pos, Pack16(n), 1);
  }

  lemma Get32At(file: seq<Byte>, pos: nat, n: U32)
    requires At(file, pos, Pack32(n))
    ensures Get32(file, pos) == n
  {
    AtIndex(file, pos, Pack32(n), 0);
    AtIndex(file, pos, Pack32(n), 1);
    AtIndex(file, pos, Pack32(n), 2);
    AtIndex(file, pos, Pack32(n), 3);
    Pack32Digits(n);
  }

  lemma Pack32Digits(n: U32)
    ensures n / 0x100_0000 * 0x100_0000 + n / 0x1_0000 % 256 * 0x1_0000 + n / 256 % 256 * 256 + n % 256 == n
  {
    assert n == n / 256 * 256 + n % 256;
    assert n / 256 == n / 0x1_0000 * 256 + n / 256 % 256;
    assert n / 0x1_0000 == n / 0x100_0000 * 256 + n / 0x1_0000 % 256;
  }

  function Zeros(n: nat): (s: seq<Byte>)
    ensures |s| == n
    ensures forall i :: 0 <= i < n ==> s[i] == 0
  {
    seq(n, _ => 0)
  }

  /** Writing `chunk` at the seek position `pos`: a gap behind the old end is filled with zeros,
      and writing nothing leaves the file alone. */
  function WriteAt(file: seq<Byte>, pos: nat, chunk: seq<Byte>): seq<Byte> {
    if chunk == [] then file
    else
      var padded := if |file| < pos then file + Zeros(pos - |file|) else file;
      padded[..pos] + chunk + (if pos + |chunk| <= |file| then file[pos + |chunk|..] else [])
  }

  lemma WriteAtHere(file: seq<Byte>, pos: nat, chunk: seq<Byte>)
    requires chunk != []
    ensures At(WriteAt(file, pos, chunk), pos, chunk)
  {
  }

  /** A write keeps every chunk that ends before it or starts behind it. */
  lemma WriteAtElsewhere(file: seq<Byte>, pos: nat, chunk: seq<Byte>, p: nat, other: seq<Byte>)
    requires At(file, p, other)
    requires p + |other| <= pos || pos + |chunk| <= p
    ensures At(WriteAt(file, pos, chunk), p, other)
  {
    var f := WriteAt(file, pos, chunk);
    assert p + |other| <= |f|;
    forall i | 0 <= i < |other| ensures f[p + i] == other[i] {
      AtIndex(file, p, other, i);
    }
  }

  /** A run of big-endian 32-bit words, as `struct.pack('>nI', ...)` writes it. */
  function PackWords(ws: seq<U32>): (s: seq<Byte>)
    ensures |s| == 4 * |ws|
  {
    if ws == [] then [] else Pack32(ws[0]) + PackWords(ws[1..])
  }

  lemma {:induction false} GetWordAt(file: seq<Byte>, pos: nat, ws: seq<U32>, i: nat)
    requires At(file, pos, PackWords(ws)) && i < |ws|
    ensures Get32(file, pos + 4 * i) == ws[i]
    decreases |ws|
  {
    AtSplit(file, pos, Pack32(ws[0]), PackWords(ws[1..]));
    if i == 0 {
      Get32At(file, pos, ws[0]);
    } else {
      GetWordAt(file, pos + 4, ws[1..], i - 1);
    }
  }

  /** The same for a word at a position that is given. */
  lemma {:induction false} WordIs(file: seq<Byte>, pos: nat, ws: seq<U32>, i: nat, at: nat)
    requires At(file, pos, PackWords(ws)) && i < |ws| && at == pos + 4 * i
    ensures at + 4 <= |file| && Get32(file, at) == ws[i]
    decreases |ws|
  {
    AtRest(file, pos, Pack32(ws[0]), PackWords(ws[1..]), pos + 4);
    if i == 0 {
      Get32At(file, at, ws[0]);
    } else {
      WordIs(file, pos + 4, ws[1..], i - 1, at);
    }
  }
}
