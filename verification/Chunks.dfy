/** Files written as a list of chunks at seek positions. */
module Chunks {
  import opened Bytes

  datatype Chunk = Chunk(pos: nat, bytes: seq<Byte>)

  function WriteAll(file: seq<Byte>, chunks: seq<Chunk>): seq<Byte>
    decreases |chunks|
  {
    if chunks == [] then file
    else WriteAll(WriteAt(file, chunks[0].pos, chunks[0].bytes), chunks[1..])
  }

  /** The chunks occupy disjoint ascending ranges between `lo` and `hi`; empty chunks occupy nothing. */
  predicate Tiled(chunks: seq<Chunk>, lo: nat, hi: nat) {
    if chunks == [] then lo <= hi
    else if chunks[0].bytes == [] then Tiled(chunks[1..], lo, hi)
    else lo <= chunks[0].pos && Tiled(chunks[1..], chunks[0].pos + |chunks[0].bytes|, hi)
  }

  lemma {:induction false} TiledConcat(a: seq<Chunk>, b: seq<Chunk>, lo: nat, mid: nat, hi: nat)
    requires Tiled(a, lo, mid) && Tiled(b, mid, hi)
    ensures Tiled(a + b, lo, hi)
  {
    if a == [] {
      assert a + b == b;
      TiledWiden(b, mid, lo, hi, hi);
    } else {
      assert (a + b)[0] == a[0] && (a + b)[1..] == a[1..] + b;
      TiledConcat(a[1..], b, if a[0].bytes == [] then lo else a[0].pos + |a[0].bytes|, mid, hi);
    }
  }

  lemma {:induction false} TiledWiden(a: seq<Chunk>, lo: nat, lo': nat, hi: nat, hi': nat)
    requires Tiled(a, lo, hi) && lo' <= lo && hi <= hi'
    ensures Tiled(a, lo', hi')
  {
    if a != [] {
      if a[0].bytes == [] {
        TiledWiden(a[1..], lo, lo', hi, hi');
      } else {
        var e := a[0].pos + |a[0].bytes|;
        TiledWiden(a[1..], e, e, hi, hi');
      }
    }
  }

  lemma {:induction false} WriteAllConcat(file: seq<Byte>, a: seq<Chunk>, b: seq<Chunk>)
    ensures WriteAll(file, a + b) == WriteAll(WriteAll(file, a), b)
    decreases |a|
  {
    if a == [] {
      assert a + b == b;
    } else {
      assert (a + b)[0] == a[0] && (a + b)[1..] == a[1..] + b;
      WriteAllConcat(WriteAt(file, a[0].pos, a[0].bytes), a[1..], b);
    }
  }

  lemma WriteAllSnoc(file: seq<Byte>, a: seq<Chunk>, c: Chunk)
    ensures WriteAll(file, a + [c]) == WriteAt(WriteAll(file, a), c.pos, c.bytes)
  {
    WriteAllConcat(file, a, [c]);
    assert [c][1..] == [];
  }

  /** Writing one more chunk of a list. */
  lemma WriteAllPrefix(file: seq<Byte>, chunks: seq<Chunk>, i: nat)
    requires i < |chunks|
    ensures WriteAll(file, chunks[..i + 1]) == WriteAt(WriteAll(file, chunks[..i]), chunks[i].pos, chunks[i].bytes)
  {
    assert chunks[..i + 1] == chunks[..i] + [chunks[i]];
    WriteAllSnoc(file, chunks[..i], chunks[i]);
  }

  /** A position of the file that no chunk covers keeps its byte, or is zero behind the old end. */
  lemma {:induction false} GapsAreZero(file: seq<Byte>, chunks: seq<Chunk>, k: nat)
    requires k < |WriteAll(file, chunks)|
    requires forall c | c in chunks :: k < c.pos || c.pos + |c.bytes| <= k
    ensures WriteAll(file, chunks)[k] == if k < |file| then file[k] else 0
    decreases |chunks|
  {
    if chunks != [] {
      var c := chunks[0];
      assert c in chunks && forall d :: d in chunks[1..] ==> d in chunks;
      GapsAreZero(WriteAt(file, c.pos, c.bytes), chunks[1..], k);
    }
  }

  /** The chunks stand in the file where they were written. */
  predicate Holds(file: seq<Byte>, chunks: seq<Chunk>) {
    chunks == []
    || ((chunks[0].bytes != [] ==> At(file, chunks[0].pos, chunks[0].bytes)) && Holds(file, chunks[1..]))
  }

  lemma {:induction false} HoldsIndex(file: seq<Byte>, chunks: seq<Chunk>, i: nat)
    requires Holds(file, chunks) && i < |chunks| && chunks[i].bytes != []
    ensures At(file, chunks[i].pos, chunks[i].bytes)
  {
    if i > 0 {
      HoldsIndex(file, chunks[1..], i - 1);
    }
  }

  lemma {:induction false} HoldsConcat(file: seq<Byte>, a: seq<Chunk>, b: seq<Chunk>)
    ensures Holds(file, a + b) <==> Holds(file, a) && Holds(file, b)
  {
    if a == [] {
      assert a + b == b;
    } else {
      assert (a + b)[0] == a[0] && (a + b)[1..] == a[1..] + b;
      HoldsConcat(file, a[1..], b);
    }
  }

  // ----- writing over an older file -----

  lemma {:induction false} TiledEnd(chunks: seq<Chunk>, lo: nat, hi: nat)
    requires Tiled(chunks, lo, hi)
    ensures lo <= hi
  {
    if chunks != [] {
      var c := chunks[0];
      TiledEnd(chunks[1..], if c.bytes == [] then lo else c.pos + |c.bytes|, hi);
    }
  }

  /** Writing behind `lo` keeps what stands before it. */
  lemma {:induction false} WriteAllKeeps(file: seq<Byte>, chunks: seq<Chunk>, lo: nat, hi: nat, p: nat, kept: seq<Byte>)
    requires Tiled(chunks, lo, hi) && At(file, p, kept) && p + |kept| <= lo
    ensures At(WriteAll(file, chunks), p, kept)
    decreases |chunks|
  {
    if chunks != [] {
      var c := chunks[0];
      if c.bytes == [] {
        WriteAllKeeps(file, chunks[1..], lo, hi, p, kept);
      } else {
        WriteAtElsewhere(file, c.pos, c.bytes, p, kept);
        WriteAllKeeps(WriteAt(file, c.pos, c.bytes), chunks[1..], c.pos + |c.bytes|, hi, p, kept);
      }
    }
  }

  /** Chunks written in ascending ranges all stand in the file, whatever was there before. */
  lemma {:induction false} OverwriteHolds(file: seq<Byte>, chunks: seq<Chunk>, lo: nat, hi: nat)
    requires Tiled(chunks, lo, hi)
    ensures Holds(WriteAll(file, chunks), chunks)
    decreases |chunks|
  {
    if chunks != [] {
      var c := chunks[0];
      if c.bytes == [] {
        OverwriteHolds(file, chunks[1..], lo, hi);
      } else {
        var next, e := WriteAt(file, c.pos, c.bytes), c.pos + |c.bytes|;
        WriteAtHere(file, c.pos, c.bytes);
        WriteAllKeeps(next, chunks[1..], e, hi, c.pos, c.bytes);
        OverwriteHolds(next, chunks[1..], e, hi);
      }
    }
  }

  /** Chunks before `mid` stay when only ranges behind it are written. */
  lemma {:induction false} HoldsKept(file: seq<Byte>, a: seq<Chunk>, lo: nat, mid: nat, chunks: seq<Chunk>, hi: nat)
    requires Holds(file, a) && Tiled(a, lo, mid) && Tiled(chunks, mid, hi)
    ensures Holds(WriteAll(file, chunks), a)
    decreases |a|
  {
    if a != [] {
      var c := a[0];
      if c.bytes == [] {
        HoldsKept(file, a[1..], lo, mid, chunks, hi);
      } else {
        TiledEnd(a[1..], c.pos + |c.bytes|, mid);
        WriteAllKeeps(file, chunks, mid, hi, c.pos, c.bytes);
        HoldsKept(file, a[1..], c.pos + |c.bytes|, mid, chunks, hi);
      }
    }
  }

  /** Writing once more what is there changes nothing. */
  lemma {:induction false} RewriteSame(file: seq<Byte>, chunks: seq<Chunk>)
    requires Holds(file, chunks)
    ensures WriteAll(file, chunks) == file
    decreases |chunks|
  {
    if chunks != [] {
      var c := chunks[0];
      assert WriteAt(file, c.pos, c.bytes) == file;
      RewriteSame(file, chunks[1..]);
    }
  }

  /** Where ranges ascend, nothing is written twice. */
  lemma {:induction false} TiledApart(a: seq<Chunk>, b: seq<Chunk>, lo: nat, hi: nat)
    requires Tiled(a + b, lo, hi)
    ensures forall c, d :: c in a && d in b && c.bytes != [] && d.bytes != [] ==> lo <= c.pos < d.pos
    decreases |a|
  {
    if a == [] {
      assert a + b == b;
    } else {
      var c := a[0];
      assert (a + b)[0] == c && (a + b)[1..] == a[1..] + b && a == [c] + a[1..];
      TiledApart(a[1..], b, if c.bytes == [] then lo else c.pos + |c.bytes|, hi);
      TiledAfter(a[1..] + b, if c.bytes == [] then lo else c.pos + |c.bytes|, hi);
      assert forall d :: d in b ==> d in a[1..] + b;
    }
  }

  lemma {:induction false} TiledAfter(chunks: seq<Chunk>, lo: nat, hi: nat)
    requires Tiled(chunks, lo, hi)
    ensures forall c :: c in chunks && c.bytes != [] ==> lo <= c.pos
  {
    if chunks != [] {
      var c := chunks[0];
      assert chunks == [c] + chunks[1..];
      TiledAfter(chunks[1..], if c.bytes == [] then lo else c.pos + |c.bytes|, hi);
    }
  }
}
