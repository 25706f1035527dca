/** UTF-8 as Python's codec encodes and strictly decodes it (RFC 3629, section 3). */
module Utf8Text {
  import opened Bytes
  import opened Wrappers

  function Utf8Char(c: char): (s: seq<Byte>)
    ensures 1 <= |s| <= 4
    ensures |s| == 1 <==> c as int < 128
    ensures c as int < 128 ==> s == [c as int]
  {
    var n := c as int;
    if n < 0x80 then [n]
    else if n < 0x800 then [0xC0 + n / 64, 0x80 + n % 64]
    else if n < 0x1_0000 then [0xE0 + n / 4096, 0x80 + n / 64 % 64, 0x80 + n % 64]
    else [0xF0 + n / 26_2144, 0x80 + n / 4096 % 64, 0x80 + n / 64 % 64, 0x80 + n % 64]
  }

  function Utf8(s: string): seq<Byte> {
    if s == [] then [] else Utf8Char(s[0]) + Utf8(s[1..])
  }

  predicate Ascii(s: string) {
    forall i :: 0 <= i < |s| ==> s[i] as int < 128
  }

  // ----- decoding -----

  /** The number of bytes that a first byte announces; 0 for a byte that cannot come first. */
  function Announced(b: Byte): nat {
    if b < 0x80 then 1 else if b < 0xC2 then 0 else if b < 0xE0 then 2 else if b < 0xF0 then 3 else if b < 0xF5 then 4
    else 0
  }

  predicate Continues(b: Byte) {
    0x80 <= b < 0xC0
  }

  /** The number that the bytes spell, six bits for each byte behind the first. */
  function Spelled(s: seq<Byte>): int
    requires 1 <= |s| <= 4
  {
    if |s| == 1 then s[0]
    else if |s| == 2 then More(s[0] as int - 0xC0, s[1])
    else if |s| == 3 then More(More(s[0] as int - 0xE0, s[1]), s[2])
    else More(More(More(s[0] as int - 0xF0, s[1]), s[2]), s[3])
  }

  function More(n: int, b: Byte): int {
    n * 64 + (b as int - 0x80)
  }

  /** The least number that needs `k` bytes. */
  function Least(k: nat): nat {
    if k <= 1 then 0 else if k == 2 then 0x80 else if k == 3 then 0x800 else 0x1_0000
  }

  /** The bytes are one character: complete, no longer than needed, no surrogate, and within Unicode. */
  predicate IsChar(s: seq<Byte>) {
    && 1 <= |s| <= 4 && Announced(s[0]) == |s|
    && (forall i :: 1 <= i < |s| ==> Continues(s[i]))
    && Least(|s|) <= Spelled(s) < 0x11_0000
    && !(0xD800 <= Spelled(s) < 0xE000)
  }

  /** `data.decode('utf-8')`; `None` is the error of the strict decoder. */
  function Decoded(data: seq<Byte>): Option<string>
    decreases |data|
  {
    if data == [] then Some([])
    else
      var k := Announced(data[0]);
      if k > |data| || !IsChar(data[..k]) then None
      else
        match Decoded(data[k..])
        case None => None
        case Some(rest) => Some([Spelled(data[..k]) as char] + rest)
  }

  // ----- decoding undoes encoding, and nothing else -----

  lemma CharSpells(c: char)
    ensures IsChar(Utf8Char(c)) && Spelled(Utf8Char(c)) == c as int
  {
    var n := c as int;
    assert n == n / 64 * 64 + n % 64;
    assert n / 64 == n / 4096 * 64 + n / 64 % 64;
    assert n / 4096 == n / 26_2144 * 64 + n / 4096 % 64;
  }

  lemma MoreDigits(a: int, b: Byte)
    requires Continues(b)
    ensures More(a, b) / 64 == a && More(a, b) % 64 == b as int - 0x80
  {
  }

  lemma TwoBytes(a: int, b: Byte, c: Byte)
    requires Continues(b) && Continues(c)
    ensures var n := More(More(a, b), c);
            n / 4096 == a && n / 64 % 64 == b as int - 0x80 && n % 64 == c as int - 0x80
  {
    MoreDigits(More(a, b), c);
    MoreDigits(a, b);
    var n := More(More(a, b), c);
    assert n / 4096 == n / 64 / 64;
  }

  lemma ThreeBytes(a: int, b: Byte, c: Byte, d: Byte)
    requires Continues(b) && Continues(c) && Continues(d)
    ensures var n := More(More(More(a, b), c), d);
            && n / 26_2144 == a && n / 4096 % 64 == b as int - 0x80
            && n / 64 % 64 == c as int - 0x80 && n % 64 == d as int - 0x80
  {
    var m := More(More(a, b), c);
    MoreDigits(m, d);
    TwoBytes(a, b, c);
    var n := More(m, d);
    assert n / 4096 == n / 64 / 64 && n / 26_2144 == n / 64 / 4096;
  }

  lemma SpellsChar(s: seq<Byte>)
    requires IsChar(s)
    ensures Utf8Char(Spelled(s) as char) == s
  {
    if |s| == 2 {
      MoreDigits(s[0] as int - 0xC0, s[1]);
    } else if |s| == 3 {
      TwoBytes(s[0] as int - 0xE0, s[1], s[2]);
    } else if |s| == 4 {
      ThreeBytes(s[0] as int - 0xF0, s[1], s[2], s[3]);
    }
  }

  lemma {:induction false} TextDecodes(s: string)
    ensures Decoded(Utf8(s)) == Some(s)
  {
    if s != [] {
      var c, data := Utf8Char(s[0]), Utf8(s);
      CharSpells(s[0]);
      TextDecodes(s[1..]);
      assert data[..|c|] == c && data[|c|..] == Utf8(s[1..]);
      assert [s[0]] + s[1..] == s;
    }
  }

  lemma {:induction false} DecodedEncodes(data: seq<Byte>)
    requires Decoded(data).Some?
    ensures Utf8(Decoded(data).value) == data
    decreases |data|
  {
    if data != [] {
      var k := Announced(data[0]);
      var first, rest := data[..k], data[k..];
      SpellsChar(first);
      DecodedEncodes(rest);
      Utf8Cons(Spelled(first) as char, Decoded(rest).value);
      assert data == first + rest;
    }
  }

  lemma Utf8Cons(c: char, s: string)
    ensures Utf8([c] + s) == Utf8Char(c) + Utf8(s)
  {
    assert ([c] + s)[1..] == s;
  }

  /** The strict decoder accepts exactly the encodings, each as the text it encodes. */
  lemma DecodedIffEncoded(data: seq<Byte>, s: string)
    ensures Decoded(data) == Some(s) <==> data == Utf8(s)
  {
    TextDecodes(s);
    if Decoded(data) == Some(s) { DecodedEncodes(data); }
  }

  lemma {:induction false} Utf8Concat(a: string, b: string)
    ensures Utf8(a + b) == Utf8(a) + Utf8(b)
  {
    if a == [] {
      assert a + b == b;
    } else {
      assert (a + b)[0] == a[0] && (a + b)[1..] == a[1..] + b;
      Utf8Concat(a[1..], b);
    }
  }

  lemma {:induction false} Utf8Length(s: string)
    ensures |Utf8(s)| >= |s|
    ensures |Utf8(s)| == |s| <==> Ascii(s)
  {
    if s != [] {
      Utf8Length(s[1..]);
      assert s == [s[0]] + s[1..];
      assert Ascii(s) <==> s[0] as int < 128 && Ascii(s[1..]);
    }
  }

  /** One character of each length: U+0041, U+00E9, U+20AC and U+1F600. */
  lemma EncodedExamples()
    ensures Utf8Char(0x41 as char) == [0x41] && Utf8Char(0xE9 as char) == [0xC3, 0xA9]
    ensures Utf8Char(0x20AC as char) == [0xE2, 0x82, 0xAC] && Utf8Char(0x1_F600 as char) == [0xF0, 0x9F, 0x98, 0x80]
  {
  }
}
