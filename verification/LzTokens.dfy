/** What the LZ decoder computes: the expansion of the tokens that its data spell. */
module LzTokens {
  import Arith = Bits
  import opened Bytes
  import opened Lz
  import opened Wrappers

  // ----- the meaning of tokens -----

  /** A copy appends byte after byte, so that it may read what it has just written. */
  function CopyFrom(out: seq<Byte>, n: nat, distance: nat): (r: seq<Byte>)
    requires 1 <= distance <= |out|
    ensures |r| == |out| + n
    decreases n
  {
    if n == 0 then out else CopyFrom(out + [out[|out| - distance]], n - 1, distance)
  }

  function Expand(out: seq<Byte>, ts: seq<Token>): (r: seq<Byte>)
    requires WellFormed(|out|, ts)
    ensures |r| == |out| + TotalSize(ts)
    decreases |ts|
  {
    if ts == [] then out
    else
      match ts[0]
      case Literal(b) => Expand(out + [b], ts[1..])
      case Copy(length, distance) => Expand(CopyFrom(out, length, distance), ts[1..])
  }

  function TotalSize(ts: seq<Token>): nat {
    if ts == [] then 0 else Size(ts[0]) + TotalSize(ts[1..])
  }

  /** Behind `n` bytes of output, every copy starts within the output. */
  predicate WellFormed(n: nat, ts: seq<Token>)
    decreases |ts|
  {
    ts == []
    || (InRange(ts[0]) && (ts[0].Copy? ==> ts[0].distance <= n) && WellFormed(n + Size(ts[0]), ts[1..]))
  }

  lemma {:induction false} CopyKeeps(out: seq<Byte>, n: nat, d: nat)
    requires 1 <= d <= |out|
    ensures CopyFrom(out, n, d)[..|out|] == out
    decreases n
  {
    if n > 0 {
      var next := out + [out[|out| - d]];
      CopyKeeps(next, n - 1, d);
      assert CopyFrom(next, n - 1, d)[..|out|] == CopyFrom(next, n - 1, d)[..|next|][..|out|];
    }
  }

  /** The byte at place `k` of what a copy of distance `d` appends. */
  lemma {:induction false} CopiedByte(out: seq<Byte>, n: nat, d: nat, i: nat, k: nat)
    requires 1 <= d <= |out| && i < n && k == |out| + i
    ensures CopyFrom(out, n, d)[k] == out[|out| - d + i % d]
    decreases n
  {
    var next := out + [out[|out| - d]];
    if i == 0 {
      CopyKeeps(next, n - 1, d);
      assert CopyFrom(next, n - 1, d)[k] == CopyFrom(next, n - 1, d)[..|next|][k];
    } else {
      CopiedByte(next, n - 1, d, i - 1, k);
      PeriodStep(i, d);
    }
  }

  /** An overlapping copy repeats the last `d` bytes with period `d`; earlier output stays. */
  lemma CopyIsPeriodic(out: seq<Byte>, n: nat, d: nat)
    requires 1 <= d <= |out|
    ensures CopyFrom(out, n, d)[..|out|] == out
    ensures forall i :: 0 <= i < n ==> CopyFrom(out, n, d)[|out| + i] == out[|out| - d + i % d]
  {
    CopyKeeps(out, n, d);
    forall i | 0 <= i < n ensures CopyFrom(out, n, d)[|out| + i] == out[|out| - d + i % d] {
      CopiedByte(out, n, d, i, |out| + i);
    }
  }

  lemma PeriodStep(i: nat, d: nat)
    requires i >= 1 && d >= 1
    ensures i % d == if (i - 1) % d == d - 1 then 0 else (i - 1) % d + 1
  {
    var q, r := (i - 1) / d, (i - 1) % d;
    if r == d - 1 { Arith.DivModUnique(i, d, q + 1, 0); } else { Arith.DivModUnique(i, d, q, r + 1); }
  }

  // ----- writing tokens into the buffer -----

  function ApplyAll(dst: seq<Byte>, writeTo: nat, ts: seq<Token>): Option<seq<Byte>>
    decreases |ts|
  {
    if ts == [] then Some(dst)
    else
      match Apply(dst, writeTo, ts[0])
      case None => None
      case Some(d) => ApplyAll(d, writeTo + Size(ts[0]), ts[1..])
  }

  lemma {:induction false} CopyRunCopies(dst: seq<Byte>, w: nat, n: nat, d: nat)
    requires 1 <= d <= w && w + n <= |dst|
    ensures CopyRun(dst, w, w - d, n) == Some(CopyFrom(dst[..w], n, d) + dst[w + n..])
    decreases n
  {
    if n == 0 {
      assert dst[..w] + dst[w..] == dst;
    } else {
      var next := dst[w := dst[w - d]];
      CopyRunCopies(next, w + 1, n - 1, d);
      assert next[..w + 1] == dst[..w] + [dst[w - d]];
      assert next[w + n..] == dst[w + n..];
    }
  }

  /** A copy succeeds exactly when it ends within the buffer and, counted from the end where negative, starts in it. */
  lemma {:induction false} CopyRunSucceeds(dst: seq<Byte>, w: nat, pos: int, n: nat)
    requires pos < w <= |dst|
    ensures CopyRun(dst, w, pos, n).Some? <==> n == 0 || (w + n <= |dst| && -|dst| <= pos)
    decreases n
  {
    if n > 0 && w < |dst| && -|dst| <= pos {
      CopyRunSucceeds(dst[w := dst[if pos < 0 then |dst| + pos else pos]], w + 1, pos + 1, n - 1);
    }
  }

  /** The distances stay within the buffer even when counted from its end. */
  predicate InBuffer(size: nat, n: nat, ts: seq<Token>)
    decreases |ts|
  {
    ts == [] || ((ts[0].Copy? ==> ts[0].distance <= n + size) && InBuffer(size, n + Size(ts[0]), ts[1..]))
  }

  predicate AllInRange(ts: seq<Token>) {
    forall i :: 0 <= i < |ts| ==> InRange(ts[i])
  }

  lemma {:induction false} ApplyAllSucceeds(dst: seq<Byte>, w: nat, ts: seq<Token>)
    requires w + TotalSize(ts) <= |dst| && AllInRange(ts)
    ensures ApplyAll(dst, w, ts).Some? <==> InBuffer(|dst|, w, ts)
    decreases |ts|
  {
    if ts != [] {
      var t := ts[0];
      if t.Copy? { CopyRunSucceeds(dst, w, w - t.distance, t.length); }
      var d := Apply(dst, w, t);
      if d.Some? { ApplyAllSucceeds(d.value, w + Size(t), ts[1..]); }
    }
  }

  lemma {:induction false} ApplyAllExpands(dst: seq<Byte>, w: nat, ts: seq<Token>)
    requires WellFormed(w, ts) && w + TotalSize(ts) <= |dst|
    ensures ApplyAll(dst, w, ts) == Some(Expand(dst[..w], ts) + dst[w + TotalSize(ts)..])
    decreases |ts|
  {
    if ts == [] {
      assert dst[..w] + dst[w..] == dst;
    } else {
      var t, next := ts[0], w + Size(ts[0]);
      var d: seq<Byte>;
      if t.Copy? {
        CopyRunCopies(dst, w, t.length, t.distance);
        d := CopyFrom(dst[..w], t.length, t.distance) + dst[next..];
        assert d[..next] == CopyFrom(dst[..w], t.length, t.distance);
      } else {
        d := dst[w := t.b];
        assert d[..next] == dst[..w] + [t.b];
      }
      assert d[next + TotalSize(ts[1..])..] == dst[w + TotalSize(ts)..];
      ApplyAllExpands(d, next, ts[1..]);
    }
  }

  // ----- the tokens that the data spell -----

  /** The tokens up to `n` bytes of output; `None` where the data end early or a copy passes the `n` bytes. */
  function Stream(src: seq<Byte>, p: nat, n: nat): Option<seq<Token>>
    decreases |src| - p, 0
  {
    if n == 0 then Some([])
    else if p >= |src| then None
    else StreamBits(src, p + 1, src[p], 8, n)
  }

  function StreamBits(src: seq<Byte>, p: nat, flags: nat, left: nat, n: nat): Option<seq<Token>>
    decreases |src| - p, left + 1
  {
    if left == 0 then Stream(src, p, n)
    else
      match ReadToken(src, p, flags / 128 % 2 == 1)
      case None => None
      case Some(tp) =>
        ReadUnique(src, p, flags / 128 % 2 == 1);
        if Size(tp.0) > n then None
        else if Size(tp.0) == n then Some([tp.0])
        else
          match StreamBits(src, tp.1, flags * 2, left - 1, n - Size(tp.0))
          case None => None
          case Some(rest) => Some([tp.0] + rest)
  }

  lemma {:induction false} StreamShape(src: seq<Byte>, p: nat, n: nat)
    requires Stream(src, p, n).Some?
    ensures TotalSize(Stream(src, p, n).value) == n && AllInRange(Stream(src, p, n).value)
    decreases |src| - p, 0
  {
    if n > 0 { StreamBitsShape(src, p + 1, src[p], 8, n); }
  }

  lemma {:induction false} StreamBitsShape(src: seq<Byte>, p: nat, flags: nat, left: nat, n: nat)
    requires StreamBits(src, p, flags, left, n).Some?
    ensures TotalSize(StreamBits(src, p, flags, left, n).value) == n
    ensures AllInRange(StreamBits(src, p, flags, left, n).value)
    decreases |src| - p, left + 1
  {
    if left == 0 {
      StreamShape(src, p, n);
    } else {
      ReadUnique(src, p, flags / 128 % 2 == 1);
      var (t, next) := ReadToken(src, p, flags / 128 % 2 == 1).value;
      if Size(t) < n {
        StreamBitsShape(src, next, flags * 2, left - 1, n - Size(t));
        var rest := StreamBits(src, next, flags * 2, left - 1, n - Size(t)).value;
        assert ([t] + rest)[1..] == rest;
      } else {
        assert [t][1..] == [];
      }
    }
  }

  function Applied(dst: seq<Byte>, writeTo: nat, ts: Option<seq<Token>>): Option<seq<Byte>> {
    match ts
    case None => None
    case Some(s) => ApplyAll(dst, writeTo, s)
  }

  lemma ApplyFirst(dst: seq<Byte>, w: nat, t: Token, rest: seq<Token>)
    ensures ApplyAll(dst, w, [t] + rest)
         == match Apply(dst, w, t) case None => None case Some(d) => ApplyAll(d, w + Size(t), rest)
  {
    assert ([t] + rest)[1..] == rest;
  }

  /** The decoder writes the tokens that the data spell. Its test for the end of the compressed data never fires,
      because it compares with the length of the whole file. */
  lemma {:induction false} GroupsApply(src: seq<Byte>, compressedSize: nat, p: nat, dst: seq<Byte>, w: nat)
    requires |src| < compressedSize && w <= |dst|
    ensures Groups(src, compressedSize, p, dst, w) == Applied(dst, w, Stream(src, p, |dst| - w))
    decreases |src| - p, 0
  {
    if w < |dst| && p < |src| {
      BitsApply(src, compressedSize, p + 1, src[p], 8, dst, w);
    }
  }

  lemma {:induction false} BitsApply(src: seq<Byte>, compressedSize: nat, p: nat, flags: nat, left: nat,
                                     dst: seq<Byte>, w: nat)
    requires |src| < compressedSize && w < |dst|
    ensures Bits(src, compressedSize, p, flags, left, dst, w)
         == Applied(dst, w, StreamBits(src, p, flags, left, |dst| - w))
    decreases |src| - p, left + 1
  {
    if left == 0 {
      GroupsApply(src, compressedSize, p, dst, w);
    } else {
      var copy := flags / 128 % 2 == 1;
      if ReadToken(src, p, copy).Some? {
        ReadUnique(src, p, copy);
        var (t, next) := ReadToken(src, p, copy).value;
        var n, d := w + Size(t), Apply(dst, w, t);
        if d.Some? && n < |dst| {
          BitsApply(src, compressedSize, next, flags * 2, left - 1, d.value, n);
        }
        StreamToken(src, p, flags, left, dst, w, t, next, n);
      }
    }
  }

  /** What the tokens from `t` on do to the buffer. */
  lemma StreamToken(src: seq<Byte>, p: nat, flags: nat, left: nat, dst: seq<Byte>, w: nat, t: Token, next: nat, n: nat)
    requires left > 0 && w < |dst| && n == w + Size(t)
    requires ReadToken(src, p, flags / 128 % 2 == 1) == Some((t, next))
    ensures Applied(dst, w, StreamBits(src, p, flags, left, |dst| - w))
         == match Apply(dst, w, t)
            case None => None
            case Some(d) =>
              if n >= |dst| then Some(d)
              else Applied(d, n, StreamBits(src, next, flags * 2, left - 1, |dst| - n))
  {
    if t.Copy? { CopyRunSucceeds(dst, w, w - t.distance, t.length); }
    ApplyFirst(dst, w, t, []);
    assert [t] + [] == [t];
    if n < |dst| {
      var rest := StreamBits(src, next, flags * 2, left - 1, |dst| - n);
      if rest.Some? { ApplyFirst(dst, w, t, rest.value); }
    }
  }

  /** The program succeeds exactly on data that spell tokens of the promised size whose copies start in the
      buffer; and where they start in what is written, the result is the expansion of the tokens. */
  lemma UncompressMeaning(file: seq<Byte>)
    ensures var n, src := LittleEndian(Clip(file, 1, 4)), Clip(file, 4, |file| + 4);
            var ts := Stream(src, 0, n);
            && (Uncompressed(file).Some? <==> ts.Some? && InBuffer(n, 0, ts.value))
            && (ts.Some? && WellFormed(0, ts.value) ==> Uncompressed(file) == Some(Expand([], ts.value)))
  {
    var n, src := LittleEndian(Clip(file, 1, 4)), Clip(file, 4, |file| + 4);
    var dst, ts := Zeros(n), Stream(src, 0, n);
    if |file| <= 4 {
      GroupsNoData(|file|, dst);
    } else {
      GroupsApply(src, |file|, 0, dst, 0);
    }
    if ts.Some? {
      StreamShape(src, 0, n);
      ApplyAllSucceeds(dst, 0, ts.value);
      if WellFormed(0, ts.value) {
        ApplyAllExpands(dst, 0, ts.value);
        assert dst[..0] == [] && dst[n..] == [];
        assert Expand([], ts.value) + [] == Expand([], ts.value);
      }
    }
  }

  lemma GroupsNoData(compressedSize: nat, dst: seq<Byte>)
    ensures Groups([], compressedSize, 0, dst, 0) == Applied(dst, 0, Stream([], 0, |dst|))
  {
  }

  // ----- spelling tokens -----

  /** The flag byte, highest bit first: set for copies. */
  function FlagBits(ts: seq<Token>, n: nat, weight: nat): nat {
    if ts == [] || n == 0 then 0
    else (if ts[0].Copy? then weight else 0) + FlagBits(ts[1..], n - 1, weight / 2)
  }

  lemma {:induction false} FlagBitsBelow(ts: seq<Token>, n: nat, weight: nat)
    ensures FlagBits(ts, n, weight) <= 2 * weight
    ensures weight >= 1 ==> FlagBits(ts, n, weight) < 2 * weight
    decreases n
  {
    if ts != [] && n > 0 { FlagBitsBelow(ts[1..], n - 1, weight / 2); }
  }

  predicate Halves(weight: nat, n: nat) {
    n <= 1 || (weight % 2 == 0 && Halves(weight / 2, n - 1))
  }

  lemma {:induction false} FlagBitsDouble(ts: seq<Token>, n: nat, weight: nat)
    requires Halves(weight, n)
    ensures FlagBits(ts, n, 2 * weight) == 2 * FlagBits(ts, n, weight)
    decreases n
  {
    if ts != [] && n > 1 { FlagBitsDouble(ts[1..], n - 1, weight / 2); }
  }

  /** The tokens from a group's flag byte on. */
  function Encode(ts: seq<Token>): seq<Byte>
    requires AllInRange(ts)
    decreases |ts|, 1
  {
    if ts == [] then [] else [FlagByte(ts)] + Coded(ts, 8)
  }

  function FlagByte(ts: seq<Token>): Byte {
    FlagBitsBelow(ts, 8, 128);
    FlagBits(ts, 8, 128)
  }

  /** The tokens with `left` of them to come in the present group. */
  function Coded(ts: seq<Token>, left: nat): seq<Byte>
    requires AllInRange(ts)
    decreases |ts|, if left == 0 then 2 else 0
  {
    if ts == [] then [] else if left == 0 then Encode(ts) else Payload(ts[0]) + Coded(ts[1..], left - 1)
  }

  lemma HalvesOfByte(n: nat)
    requires n <= 7
    ensures Halves(64, n)
  {
    assert Halves(64, 7) && Halves(64, 6) && Halves(64, 5) && Halves(64, 4);
    assert Halves(64, 3) && Halves(64, 2) && Halves(64, 1) && Halves(64, 0);
  }

  /** The flag bits that are still to be used stand at the top of the low byte. */
  lemma FlagStep(flags: nat, ts: seq<Token>, left: nat)
    requires 1 <= left <= 8 && ts != [] && flags % 256 == FlagBits(ts, left, 128)
    ensures flags / 128 % 2 == 1 <==> ts[0].Copy?
    ensures flags * 2 % 256 == FlagBits(ts[1..], left - 1, 128)
  {
    var f := FlagBits(ts[1..], left - 1, 64);
    FlagBitsBelow(ts[1..], left - 1, 64);
    HalvesOfByte(left - 1);
    FlagBitsDouble(ts[1..], left - 1, 64);
    FlagShift(flags, ts[0].Copy?, f);
  }

  lemma FlagShift(flags: nat, top: bool, f: nat)
    requires f < 128 && flags % 256 == (if top then 128 else 0) + f
    ensures flags / 128 % 2 == 1 <==> top
    ensures flags * 2 % 256 == 2 * f
  {
    var q, bit := flags / 256, if top then 1 else 0;
    Arith.DivModUnique(flags, 128, 2 * q + bit, f);
    Arith.DivModUnique(flags * 2, 256, 2 * q + bit, 2 * f);
  }

  /** Data that encode tokens spell them. */
  lemma {:induction false} EncodeSpells(src: seq<Byte>, p: nat, ts: seq<Token>)
    requires AllInRange(ts) && At(src, p, Encode(ts))
    ensures Stream(src, p, TotalSize(ts)) == Some(ts)
    decreases |ts|, 1
  {
    if ts != [] {
      SizePositive(ts);
      var flag: seq<Byte> := [FlagByte(ts)];
      AtSplit(src, p, flag, Coded(ts, 8));
      AtIndex(src, p, flag, 0);
      CodedSpells(src, p + 1, src[p], 8, ts);
    }
  }

  lemma SizePositive(ts: seq<Token>)
    requires AllInRange(ts) && ts != []
    ensures TotalSize(ts) > 0 && Size(ts[0]) > 0
    ensures AllInRange(ts[1..]) && TotalSize(ts) == Size(ts[0]) + TotalSize(ts[1..])
    ensures ts[1..] != [] ==> TotalSize(ts[1..]) > 0
  {
    assert InRange(ts[0]);
    if ts[1..] != [] { assert InRange(ts[1]) && ts[1..][0] == ts[1]; }
  }

  /** The first token of some coded ones is read, and the rest of them stands behind it. */
  lemma FirstReads(src: seq<Byte>, p: nat, flags: nat, left: nat, ts: seq<Token>, next: nat)
    requires AllInRange(ts) && ts != [] && 1 <= left <= 8 && At(src, p, Coded(ts, left))
    requires flags % 256 == FlagBits(ts, left, 128) && next == p + |Payload(ts[0])|
    ensures AllInRange(ts[1..]) && At(src, next, Coded(ts[1..], left - 1))
    ensures flags * 2 % 256 == FlagBits(ts[1..], left - 1, 128)
    ensures ReadToken(src, p, flags / 128 % 2 == 1) == Some((ts[0], next))
  {
    SizePositive(ts);
    FlagStep(flags, ts, left);
    AtRest(src, p, Payload(ts[0]), Coded(ts[1..], left - 1), next);
    ReadPayload(src, p, ts[0]);
  }

  lemma {:induction false} CodedSpells(src: seq<Byte>, p: nat, flags: nat, left: nat, ts: seq<Token>)
    requires AllInRange(ts) && ts != [] && left <= 8 && At(src, p, Coded(ts, left))
    requires left > 0 ==> flags % 256 == FlagBits(ts, left, 128)
    ensures StreamBits(src, p, flags, left, TotalSize(ts)) == Some(ts)
    decreases |ts|, if left == 0 then 2 else 0
  {
    if left == 0 {
      EncodeSpells(src, p, ts);
    } else {
      var next, rest := p + |Payload(ts[0])|, ts[1..];
      FirstReads(src, p, flags, left, ts, next);
      SizePositive(ts);
      if rest != [] {
        CodedSpells(src, next, flags * 2, left - 1, rest);
      }
      TokenSpells(src, p, flags, left, ts, next, flags * 2, left - 1, TotalSize(ts), TotalSize(rest));
    }
  }

  lemma TokenSpells(src: seq<Byte>, p: nat, flags: nat, left: nat, ts: seq<Token>, next: nat, flags': nat, left': nat,
                    n: nat, n': nat)
    requires ts != [] && left == left' + 1 && flags' == flags * 2 && n == Size(ts[0]) + n'
    requires ReadToken(src, p, flags / 128 % 2 == 1) == Some((ts[0], next))
    requires ts[1..] == [] ==> n' == 0
    requires ts[1..] != [] ==> n' > 0 && StreamBits(src, next, flags', left', n') == Some(ts[1..])
    ensures StreamBits(src, p, flags, left, n) == Some(ts)
  {
    if ts[1..] == [] { assert ts == [ts[0]]; } else { assert ts == [ts[0]] + ts[1..]; }
  }

  /** The size in three bytes, lowest first. */
  function Little3(n: nat): seq<Byte>
    requires n < 0x100_0000
  {
    [n % 256, n / 256 % 256, n / 0x1_0000]
  }

  lemma Little3Reads(n: nat)
    requires n < 0x100_0000
    ensures LittleEndian(Little3(n)) == n
  {
    var s := Little3(n);
    var a, b := s[1..], s[2..];
    assert a[1..] == b && b[1..] == [] && a[0] == s[1] && b[0] == s[2];
    assert LittleEndian(b) == s[2] as int;
    assert LittleEndian(a) == s[1] as int + 256 * (s[2] as int);
    assert n / 256 == n / 0x1_0000 * 256 + n / 256 % 256;
  }

  /** Decoding the encoding of well-formed tokens yields their expansion. */
  lemma DecodeEncode(magic: Byte, ts: seq<Token>)
    requires AllInRange(ts) && WellFormed(0, ts) && TotalSize(ts) < 0x100_0000
    ensures Uncompressed([magic] + Little3(TotalSize(ts)) + Encode(ts)) == Some(Expand([], ts))
  {
    var size, code := Little3(TotalSize(ts)), Encode(ts);
    var file := [magic] + size + code;
    assert Clip(file, 1, 4) == size && Clip(file, 4, |file| + 4) == code;
    Little3Reads(TotalSize(ts));
    assert code[0..|code|] == code;
    EncodeSpells(code, 0, ts);
    UncompressMeaning(file);
  }

  // ----- a file, byte by byte -----

  /** One copy of each form: the lengths 3, 0x11 + 0x2A and 0x111 + 0x2345, and the distances 0x124, 1 and 0x1000. */
  lemma CopyExamples()
    ensures ReadToken([0x21, 0x23], 0, true) == Some((Copy(3, 0x124), 2))
    ensures ReadToken([0x02, 0xA0, 0x00], 0, true) == Some((Copy(0x3B, 1), 3))
    ensures ReadToken([0x12, 0x34, 0x5F, 0xFF], 0, true) == Some((Copy(0x2456, 0x1000), 4))
  {
  }

  /** A file of 10 bytes of output: two literals, a copy of three bytes from two back, a literal, and a copy of four
      bytes from one back; the flags 0x28 have the bits of the third and the fifth token set. */
  lemma FileExample()
    ensures Uncompressed([0x11, 10, 0, 0, 0x28, 0x41, 0x42, 0x20, 0x01, 0x43, 0x30, 0x00])
         == Some([0x41, 0x42, 0x41, 0x42, 0x41, 0x43, 0x43, 0x43, 0x43, 0x43])
  {
    var file: seq<Byte> := [0x11, 10, 0, 0, 0x28, 0x41, 0x42, 0x20, 0x01, 0x43, 0x30, 0x00];
    var src: seq<Byte> := [0x28, 0x41, 0x42, 0x20, 0x01, 0x43, 0x30, 0x00];
    var size: seq<Byte> := [10, 0, 0];
    assert Clip(file, 1, 4) == size && Clip(file, 4, |file| + 4) == src;
    assert size[1..] == [0, 0] && size[1..][1..] == [0] && size[1..][1..][1..] == [];
    assert LittleEndian([0]) == 0 && LittleEndian([0, 0]) == 0 && LittleEndian(size) == 10;
    ExampleTokens(src);
    ExampleExpands();
    UncompressMeaning(file);
  }

  const Example: seq<Token> := [Literal(0x41), Literal(0x42), Copy(3, 2), Literal(0x43), Copy(4, 1)]

  lemma ExampleTokens(src: seq<Byte>)
    requires src == [0x28, 0x41, 0x42, 0x20, 0x01, 0x43, 0x30, 0x00]
    ensures Stream(src, 0, 10) == Some(Example)
  {
    var t4, t3 := [Literal(0x43)] + [Copy(4, 1)], [Copy(3, 2)] + ([Literal(0x43)] + [Copy(4, 1)]);
    assert StreamBits(src, 6, 0x28 * 16, 4, 4) == Some([Copy(4, 1)]);
    assert StreamBits(src, 5, 0x28 * 8, 5, 5) == Some(t4);
    assert StreamBits(src, 3, 0x28 * 4, 6, 8) == Some(t3);
    assert StreamBits(src, 2, 0x28 * 2, 7, 9) == Some([Literal(0x42)] + t3);
    assert Example == [Literal(0x41)] + ([Literal(0x42)] + t3);
  }

  lemma ExampleExpands()
    ensures WellFormed(0, Example)
    ensures Expand([], Example) == [0x41, 0x42, 0x41, 0x42, 0x41, 0x43, 0x43, 0x43, 0x43, 0x43]
  {
    var e5, e4 := [Copy(4, 1)], [Literal(0x43), Copy(4, 1)];
    var e3, e2 := [Copy(3, 2)] + e4, [Literal(0x42), Copy(3, 2)] + e4;
    assert Example[1..] == e2 && e2[1..] == e3 && e3[1..] == e4 && e4[1..] == e5 && e5[1..] == [];
    assert WellFormed(10, []) && WellFormed(6, e5) && WellFormed(5, e4) && WellFormed(2, e3) && WellFormed(1, e2);
    var o1: seq<Byte>, o2: seq<Byte> := [0x41], [0x41, 0x42];
    var o3: seq<Byte>, o4: seq<Byte> := [0x41, 0x42, 0x41, 0x42, 0x41], [0x41, 0x42, 0x41, 0x42, 0x41, 0x43];
    var o5: seq<Byte> := [0x41, 0x42, 0x41, 0x42, 0x41, 0x43, 0x43, 0x43, 0x43, 0x43];
    ExampleCopies();
    assert Expand(o5, []) == o5;
    assert Expand(o4, e5) == o5;
    assert o3 + [0x43] == o4 && Expand(o3, e4) == o5;
    assert Expand(o2, e3) == o5;
    assert o1 + [0x42] == o2 && Expand(o1, e2) == o5;
    assert [] + [0x41] == o1;
  }

  lemma ExampleCopies()
    ensures CopyFrom([0x41, 0x42], 3, 2) == [0x41, 0x42, 0x41, 0x42, 0x41]
    ensures CopyFrom([0x41, 0x42, 0x41, 0x42, 0x41, 0x43], 4, 1)
         == [0x41, 0x42, 0x41, 0x42, 0x41, 0x43, 0x43, 0x43, 0x43, 0x43]
  {
    var a: seq<Byte>, b: seq<Byte> := [0x41, 0x42], [0x41, 0x42, 0x41, 0x42, 0x41, 0x43];
    CopyKeeps(a, 3, 2);
    CopyKeeps(b, 4, 1);
    CopiedByte(a, 3, 2, 0, 2);
    CopiedByte(a, 3, 2, 1, 3);
    CopiedByte(a, 3, 2, 2, 4);
    CopiedByte(b, 4, 1, 0, 6);
    CopiedByte(b, 4, 1, 1, 7);
    CopiedByte(b, 4, 1, 2, 8);
    CopiedByte(b, 4, 1, 3, 9);
    assert CopyFrom(a, 3, 2) == a + CopyFrom(a, 3, 2)[2..] && CopyFrom(b, 4, 1) == b + CopyFrom(b, 4, 1)[6..];
  }
}
