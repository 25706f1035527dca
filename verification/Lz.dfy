/** The LZ decoder of tools/uncompress_lz.py. */
module Lz {
  import opened Bytes
  import opened Wrappers

  /** A literal byte, or a copy of `length` bytes from `distance` bytes back. */
  datatype Token = Literal(b: Byte) | Copy(length: nat, distance: nat)

  // ----- what the bytes say -----

  /** The token at position `p`, and the position behind it; `None` is the index error at the end of the data. */
  function ReadToken(src: seq<Byte>, p: nat, copy: bool): Option<(Token, nat)> {
    if p >= |src| then None
    else if !copy then Some((Literal(src[p]), p + 1))
    else
      var b: nat := src[p];
      if b / 16 == 0 then
        if p + 1 >= |src| then None
        else ReadDistance(src, p + 1, b * 16 + src[p + 1] as int / 16 + 0x11)
      else if b / 16 == 1 then
        if p + 2 >= |src| then None
        else ReadDistance(src, p + 2, b % 16 * 4096 + src[p + 1] as int * 16 + src[p + 2] as int / 16 + 0x111)
      else ReadDistance(src, p, b / 16 + 1)
  }

  function ReadDistance(src: seq<Byte>, p: nat, length: nat): Option<(Token, nat)> {
    if p + 1 >= |src| then None
    else Some((Copy(length, src[p] as int % 16 * 256 + src[p + 1] as int + 1), p + 2))
  }

  /** The masks, shifts and `|` of the program are the sums used here: their bit fields do not overlap. */
  lemma FieldsMeaning(a: bv32, b: bv32, c: bv32)
    requires a < 256 && b < 256 && c < 256
    ensures (a >> 4) == 0 ==> ((a << 4) | (b >> 4)) == a * 16 + b / 16
    ensures (((a & 0xF) << 12) | (b << 4) | (c >> 4)) == (a % 16) * 4096 + b * 16 + c / 16
    ensures (((a & 0xF) << 8) | b) == (a % 16) * 256 + b
  {
  }

  /** The decoder reads a copy in 2, 3 or 4 bytes. */
  function Payload(t: Token): seq<Byte>
    requires InRange(t)
  {
    match t
    case Literal(b) => [b]
    case Copy(length, distance) =>
      var hi, lo := (distance - 1) / 256, (distance - 1) % 256;
      if length <= 16 then [(length - 1) * 16 + hi, lo]
      else if length <= 272 then
        var n := length - 0x11;
        [n / 16, n % 16 * 16 + hi, lo]
      else
        var n := length - 0x111;
        [16 + n / 4096, n / 16 % 256, n % 16 * 16 + hi, lo]
  }

  predicate InRange(t: Token) {
    t.Copy? ==> 3 <= t.length <= 65808 && 1 <= t.distance <= 4096
  }

  /** Every token in range has exactly one spelling: reading gives it back, and what is read spells like that. The
      three forms of a copy take lengths 3..16, 17..272 and 273..65808. */
  lemma ReadPayload(src: seq<Byte>, p: nat, t: Token)
    requires InRange(t) && At(src, p, Payload(t))
    ensures ReadToken(src, p, t.Copy?) == Some((t, p + |Payload(t)|))
  {
    var bytes := Payload(t);
    AtIndex(src, p, bytes, 0);
    if t.Copy? {
      AtIndex(src, p, bytes, 1);
      if t.length <= 16 {
        HighAndLow(t.length - 1, (t.distance - 1) / 256);
      } else if t.length <= 272 {
        AtIndex(src, p, bytes, 2);
        MiddleReads(src, p, t.length - 0x11, t.distance - 1);
      } else {
        AtIndex(src, p, bytes, 2);
        AtIndex(src, p, bytes, 3);
        LongReads(src, p, t.length - 0x111, t.distance - 1);
      }
    }
  }

  lemma HighAndLow(high: nat, low: nat)
    requires low < 16
    ensures (high * 16 + low) / 16 == high && (high * 16 + low) % 16 == low
  {
  }

  lemma MiddleReads(src: seq<Byte>, p: nat, n: nat, d: nat)
    requires n < 256 && d < 4096 && p + 2 < |src|
    requires src[p] == n / 16 && src[p + 1] == n % 16 * 16 + d / 256 && src[p + 2] == d % 256
    ensures ReadToken(src, p, true) == Some((Copy(n + 0x11, d + 1), p + 3))
  {
    HighAndLow(n % 16, d / 256);
  }

  lemma LongReads(src: seq<Byte>, p: nat, n: nat, d: nat)
    requires n < 0x1_0000 && d < 4096 && p + 3 < |src|
    requires src[p] == 16 + n / 4096 && src[p + 1] == n / 16 % 256
    requires src[p + 2] == n % 16 * 16 + d / 256 && src[p + 3] == d % 256
    ensures ReadToken(src, p, true) == Some((Copy(n + 0x111, d + 1), p + 4))
  {
    HighAndLow(n % 16, d / 256);
    HighAndLow(1, n / 4096);
    assert n / 16 / 256 == n / 4096;
    assert n == n / 16 * 16 + n % 16 && n / 16 == n / 16 / 256 * 256 + n / 16 % 256;
  }

  lemma ReadUnique(src: seq<Byte>, p: nat, copy: bool)
    requires ReadToken(src, p, copy).Some?
    ensures var (t, next) := ReadToken(src, p, copy).value;
            t.Copy? == copy && InRange(t) && p < next <= |src| && src[p..next] == Payload(t)
            && (copy ==> (t.length <= 16 <==> next == p + 2) && (t.length >= 273 <==> next == p + 4))
  {
    if copy {
      var b: nat := src[p];
      if b / 16 == 0 {
        MiddleForm(src, p);
      } else if b / 16 == 1 {
        LongForm(src, p);
      } else {
        DistanceDigits(src[p], src[p + 1]);
      }
    }
  }

  lemma DistanceDigits(x: Byte, y: Byte)
    ensures var d := x as int % 16 * 256 + y as int; d / 256 == x as int % 16 && d % 256 == y && d < 4096
    ensures x as int / 16 * 16 + x as int % 16 == x as int
  {
  }

  lemma MiddleForm(src: seq<Byte>, p: nat)
    requires p + 2 < |src| && src[p] as int / 16 == 0
    ensures ReadToken(src, p, true).Some?
    ensures var (t, next) := ReadToken(src, p, true).value;
            InRange(t) && t.Copy? && 17 <= t.length <= 272 && next == p + 3 && src[p..next] == Payload(t)
  {
    var n := src[p] as int * 16 + src[p + 1] as int / 16;
    DistanceDigits(src[p + 1], src[p + 2]);
    assert n / 16 == src[p] as int && n % 16 == src[p + 1] as int / 16;
  }

  lemma LongForm(src: seq<Byte>, p: nat)
    requires p + 3 < |src| && src[p] as int / 16 == 1
    ensures ReadToken(src, p, true).Some?
    ensures var (t, next) := ReadToken(src, p, true).value;
            InRange(t) && t.Copy? && 273 <= t.length && next == p + 4 && src[p..next] == Payload(t)
  {
    var a, b, c: nat := src[p] as int % 16, src[p + 1], src[p + 2] as int / 16;
    var n := a * 4096 + b * 16 + c;
    DistanceDigits(src[p], 0);
    DistanceDigits(src[p + 2], src[p + 3]);
    assert n % 16 == c && n / 16 == a * 256 + b;
    assert n / 16 % 256 == b && n / 4096 == a;
  }

  // ----- the decoder -----

  /** The loop that copies `n` bytes from `pos` to `writeTo`; `pos` may be negative, and Python counts negative
      indices from the end. `None` is an index error. */
  function CopyRun(dst: seq<Byte>, writeTo: nat, pos: int, n: nat): (r: Option<seq<Byte>>)
    ensures r.Some? ==> |r.value| == |dst|
    decreases n
  {
    if n == 0 then Some(dst)
    else if writeTo >= |dst| || !(-|dst| <= pos < |dst|) then None
    else CopyRun(dst[writeTo := dst[if pos < 0 then |dst| + pos else pos]], writeTo + 1, pos + 1, n - 1)
  }

  /** One token written at `writeTo`. */
  function Apply(dst: seq<Byte>, writeTo: nat, t: Token): (r: Option<seq<Byte>>)
    ensures r.Some? ==> |r.value| == |dst|
  {
    match t
    case Literal(b) => if writeTo < |dst| then Some(dst[writeTo := b]) else None
    case Copy(length, distance) => CopyRun(dst, writeTo, writeTo - distance, length)
  }

  function Size(t: Token): nat {
    if t.Copy? then t.length else 1
  }

  /** The program from the head of its outer loop. */
  function Groups(src: seq<Byte>, compressedSize: nat, p: nat, dst: seq<Byte>, writeTo: nat): Option<seq<Byte>>
    decreases |src| - p, 0
  {
    if writeTo >= |dst| then Some(dst)
    else if p >= |src| then None
    else Bits(src, compressedSize, p + 1, src[p], 8, dst, writeTo)
  }

  /** The program within a group of eight tokens, `left` of them to come. */
  function Bits(src: seq<Byte>, compressedSize: nat, p: nat, flags: nat, left: nat, dst: seq<Byte>, writeTo: nat)
    : Option<seq<Byte>>
    decreases |src| - p, left + 1
  {
    if left == 0 then Groups(src, compressedSize, p, dst, writeTo)
    else
      match ReadToken(src, p, flags / 128 % 2 == 1)
      case None => None
      case Some(tp) =>
        match Apply(dst, writeTo, tp.0)
        case None => None
        case Some(d) =>
          ReadUnique(src, p, flags / 128 % 2 == 1);
          var w := writeTo + Size(tp.0);
          if w == |dst| || tp.1 >= compressedSize then Some(d)
          else Bits(src, compressedSize, tp.1, flags * 2, left - 1, d, w)
  }

  /** `int.from_bytes(s, 'little')` */
  function LittleEndian(s: seq<Byte>): nat {
    if s == [] then 0 else s[0] as int + 256 * LittleEndian(s[1..])
  }

  /** The whole program: byte 0 is ignored, three bytes hold the size of the result, the data follow. */
  function Uncompressed(file: seq<Byte>): Option<seq<Byte>> {
    Groups(Clip(file, 4, |file| + 4), |file|, 0, Zeros(LittleEndian(Clip(file, 1, 4))), 0)
  }

  method CopyBytes(dst: array<Byte>, writeTo: nat, pos: int, n: nat) returns (ok: bool)
    modifies dst
    ensures CopyRun(old(dst[..]), writeTo, pos, n) == if ok then Some(dst[..]) else None
  {
    for i := 0 to n
      invariant CopyRun(old(dst[..]), writeTo, pos, n) == CopyRun(dst[..], writeTo + i, pos + i, n - i)
    {
      if writeTo + i >= dst.Length || !(-dst.Length <= pos + i < dst.Length) {
        return false;
      }
      var b := dst[if pos + i < 0 then dst.Length + pos + i else pos + i];
      ghost var before := dst[..];
      dst[writeTo + i] := b;
      assert dst[..] == before[writeTo + i := b];
    }
    ok := true;
  }

  /** Writing a token never passes the end of the result. */
  method ApplyToken(dst: array<Byte>, writeTo: nat, t: Token) returns (ok: bool)
    requires writeTo < dst.Length
    modifies dst
    ensures Apply(old(dst[..]), writeTo, t) == if ok then Some(dst[..]) else None
    ensures ok ==> writeTo + Size(t) <= dst.Length
  {
    match t
    case Literal(b) =>
      dst[writeTo] := b;
      assert dst[..] == old(dst[..])[writeTo := b];
      ok := true;
    case Copy(length, distance) =>
      if CopyRun(dst[..], writeTo, writeTo - distance, length).Some? {
        CopyFits(dst[..], writeTo, writeTo - distance, length);
      }
      ok := CopyBytes(dst, writeTo, writeTo - distance, length);
  }

  /** The body of the inner loop up to its two exits. */
  method DecodeToken(src: seq<Byte>, compressedSize: nat, dst: array<Byte>, pos: nat, written: nat, flags: nat,
                     ghost left: nat)
    returns (ok: bool, currPos: nat, writeTo: nat)
    requires pos <= |src| && written < dst.Length && left > 0
    modifies dst
    ensures ok ==> pos < currPos <= |src| && written < writeTo <= dst.Length
    ensures Bits(src, compressedSize, pos, flags, left, old(dst[..]), written)
         == if !ok then None
            else if writeTo == dst.Length || currPos >= compressedSize then Some(dst[..])
            else Bits(src, compressedSize, currPos, flags * 2, left - 1, dst[..], writeTo)
  {
    var copy := flags / 128 % 2 == 1;
    var token := ReadToken(src, pos, copy);
    if token.None? {
      return false, pos, written;
    }
    ReadUnique(src, pos, copy);
    var (t, next) := token.value;
    ok := ApplyToken(dst, written, t);
    currPos, writeTo := next, written + Size(t);
  }

  /** The inner loop of the program: up to eight tokens. */
  method DecodeGroup(src: seq<Byte>, compressedSize: nat, dst: array<Byte>, pos: nat, written: nat, flagByte: nat)
    returns (ok: bool, currPos: nat, writeTo: nat, bytesWritten: nat)
    requires pos <= |src| && written < dst.Length
    modifies dst
    ensures !ok ==> Bits(src, compressedSize, pos, flagByte, 8, old(dst[..]), written) == None
    ensures ok ==> pos < currPos <= |src| && bytesWritten <= dst.Length
    ensures ok && bytesWritten == dst.Length ==>
              Bits(src, compressedSize, pos, flagByte, 8, old(dst[..]), written) == Some(dst[..])
    ensures ok && bytesWritten < dst.Length ==> bytesWritten == writeTo
    ensures ok && bytesWritten < dst.Length ==>
              Bits(src, compressedSize, pos, flagByte, 8, old(dst[..]), written) ==
              Groups(src, compressedSize, currPos, dst[..], writeTo)
  {
    currPos, writeTo, bytesWritten := pos, written, written;
    var flags := flagByte;
    ghost var whole := Bits(src, compressedSize, pos, flagByte, 8, dst[..], written);
    for i := 0 to 8
      invariant pos <= currPos <= |src| && (i > 0 ==> pos < currPos)
      invariant bytesWritten == writeTo < dst.Length
      invariant whole == Bits(src, compressedSize, currPos, flags, 8 - i, dst[..], writeTo)
    {
      ok, currPos, writeTo := DecodeToken(src, compressedSize, dst, currPos, writeTo, flags, 8 - i);
      if !ok {
        return;
      }
      bytesWritten := writeTo;
      flags := flags * 2;
      if bytesWritten == dst.Length {
        return;
      }
      if currPos >= compressedSize {
        bytesWritten := dst.Length;
        return;
      }
    }
    ok := true;
  }

  lemma {:induction false} CopyFits(dst: seq<Byte>, writeTo: nat, pos: int, n: nat)
    requires CopyRun(dst, writeTo, pos, n).Some? && writeTo <= |dst|
    ensures writeTo + n <= |dst|
    decreases n
  {
    if n > 0 {
      CopyFits(dst[writeTo := dst[if pos < 0 then |dst| + pos else pos]], writeTo + 1, pos + 1, n - 1);
    }
  }

  /** The program's loops; `ok` is false where an index error ends it. */
  method Decompress(src: seq<Byte>, compressedSize: nat, dst: array<Byte>) returns (ok: bool)
    modifies dst
    ensures Groups(src, compressedSize, 0, old(dst[..]), 0) == if ok then Some(dst[..]) else None
  {
    var currPos, writeTo, bytesWritten := 0, 0, 0;
    ghost var whole := Groups(src, compressedSize, 0, dst[..], 0);
    while bytesWritten < dst.Length
      invariant currPos <= |src| && bytesWritten <= dst.Length
      invariant bytesWritten < dst.Length ==>
                  bytesWritten == writeTo && whole == Groups(src, compressedSize, currPos, dst[..], writeTo)
      invariant bytesWritten == dst.Length ==> whole == Some(dst[..])
      decreases |src| - currPos, dst.Length - bytesWritten
    {
      if currPos >= |src| {
        return false;
      }
      var flags := src[currPos];
      var decoded;
      decoded, currPos, writeTo, bytesWritten :=
        DecodeGroup(src, compressedSize, dst, currPos + 1, writeTo, flags);
      if !decoded {
        return false;
      }
    }
    ok := true;
  }

  method UncompressLZ(file: seq<Byte>) returns (out: Option<seq<Byte>>)
    ensures out == Uncompressed(file)
  {
    var dst := new Byte[LittleEndian(Clip(file, 1, 4))](_ => 0);
    assert dst[..] == Zeros(LittleEndian(Clip(file, 1, 4)));
    var ok := Decompress(Clip(file, 4, |file| + 4), |file|, dst);
    out := if ok then Some(dst[..]) else None;
  }
}
