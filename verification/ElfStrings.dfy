/** String tables of ELF objects: `ElfStrtab` of tools/elffile.py. */
module ElfStrings {
  import opened Bytes
  import opened Utf8Text
  import opened Wrappers

  /** A name that can be told apart in a string table. */
  predicate PlainName(s: string) {
    forall i :: 0 <= i < |s| ==> s[i] != '\0'
  }

  /** `'\0'.join(strs)`, encoded */
  function Join(strs: seq<string>): seq<Byte> {
    if strs == [] then []
    else if |strs| == 1 then Utf8(strs[0])
    else Utf8(strs[0]) + [0] + Join(strs[1..])
  }

  /** The bytes of a string table section. */
  function Emit(strs: seq<string>): (s: seq<Byte>)
    ensures |s| >= 2
  {
    [0] + (Join(strs) + [0])
  }

  /** The field `pos` after the strings were added: positions count characters. */
  function Pos(strs: seq<string>): (p: nat)
    ensures p >= 1
  {
    if strs == [] then 1 else Pos(strs[..|strs| - 1]) + |strs[|strs| - 1]| + 1
  }

  function AddedTo(strs: seq<string>, s: string): seq<string> {
    if s == "" then strs else strs + [s]
  }

  function OffsetIn(strs: seq<string>, s: string): nat {
    if s == "" then 0 else Pos(strs)
  }

  lemma PosSnoc(strs: seq<string>, s: string)
    ensures Pos(strs + [s]) == Pos(strs) + |s| + 1
  {
    assert (strs + [s])[..|strs|] == strs;
  }

  /** The dictionary `lookup` from positions to strings. */
  function Lookup(strs: seq<string>): map<nat, string> {
    if strs == [] then map[]
    else
      var front := strs[..|strs| - 1];
      Lookup(front)[Pos(front) := strs[|strs| - 1]]
  }

  lemma LookupSnoc(strs: seq<string>, s: string)
    ensures Lookup(strs + [s]) == Lookup(strs)[Pos(strs) := s]
  {
    assert (strs + [s])[..|strs|] == strs;
  }

  lemma {:induction false} LookupBelow(strs: seq<string>, p: nat)
    ensures p in Lookup(strs) ==> p < Pos(strs)
  {
    if strs != [] { LookupBelow(strs[..|strs| - 1], p); }
  }

  /** A position handed out stays valid whatever is added later. */
  lemma {:induction false} LookupAt(strs: seq<string>, k: nat)
    requires k < |strs|
    ensures Pos(strs[..k]) in Lookup(strs) && Lookup(strs)[Pos(strs[..k])] == strs[k]
    decreases |strs|
  {
    var front := strs[..|strs| - 1];
    if k < |front| {
      LookupAt(front, k);
      assert front[..k] == strs[..k];
      LookupBelow(front, Pos(strs[..k]));
    }
  }

  function AtOffset(strs: seq<string>, index: nat): string {
    if index == 0 then "" else if index in Lookup(strs) then Lookup(strs)[index] else ""
  }

  class Strtab {
    var strs: seq<string>
    var pos: nat
    var lookup: map<nat, string>

    ghost predicate Valid()
      reads this
    {
      pos == Pos(strs) && lookup == Lookup(strs)
    }

    constructor (strs: seq<string>)
      ensures Valid() && this.strs == strs
    {
      this.strs := strs;
      pos := 1;
      lookup := map[];
      new;
      var i := 0;
      while i < |strs|
        invariant 0 <= i <= |strs|
        invariant this.strs == strs
        invariant pos == Pos(strs[..i]) && lookup == Lookup(strs[..i])
      {
        PosSnoc(strs[..i], strs[i]);
        LookupSnoc(strs[..i], strs[i]);
        assert strs[..i + 1] == strs[..i] + [strs[i]];
        lookup := lookup[pos := strs[i]];
        pos := pos + |strs[i]| + 1;
        i := i + 1;
      }
      assert strs[..i] == strs;
    }

    method Clear()
      modifies this
      ensures Valid() && strs == []
    {
      strs := [];
      pos := 1;
      lookup := map[];
    }

    /** `add_string`: the returned offset denotes the string, and every offset returned earlier
        still denotes what it did. */
    method AddString(s: string) returns (offset: nat)
      requires Valid()
      modifies this
      ensures Valid() && strs == AddedTo(old(strs), s)
      ensures offset == OffsetIn(old(strs), s)
      ensures AtOffset(strs, offset) == s
      ensures forall p: nat | p in old(lookup) :: p in lookup && lookup[p] == old(lookup[p])
    {
      if s == "" { return 0; }
      offset := pos;
      LookupSnoc(strs, s);
      PosSnoc(strs, s);
      forall p: nat | p in lookup ensures p < pos { LookupBelow(strs, p); }
      strs := strs + [s];
      lookup := lookup[offset := s];
      pos := pos + |s| + 1;
    }

    method GetAtOffset(index: nat) returns (s: string)
      requires Valid()
      ensures s == AtOffset(strs, index)
    {
      if index == 0 { return ""; }
      s := if index in lookup then lookup[index] else "";
    }
  }

  // ----- where the strings stand -----

  /** Where string `k` really stands in the emitted bytes. */
  function Place(strs: seq<string>, k: nat): nat
    requires k <= |strs|
  {
    if k == 0 then 1 else Place(strs, k - 1) + |Utf8(strs[k - 1])| + 1
  }

  lemma {:induction false} PlaceTail(strs: seq<string>, k: nat)
    requires 1 <= k <= |strs|
    ensures Place(strs, k) == |Utf8(strs[0])| + 1 + Place(strs[1..], k - 1)
  {
    if k > 1 { PlaceTail(strs, k - 1); }
  }

  /** The strings one after the other, each ended by a NUL. */
  function CellBytes(strs: seq<string>): seq<Byte> {
    if strs == [] then [] else (Utf8(strs[0]) + [0]) + CellBytes(strs[1..])
  }

  lemma {:induction false} JoinIsCells(strs: seq<string>)
    requires strs != []
    ensures Join(strs) + [0] == CellBytes(strs)
  {
    if |strs| == 1 {
      assert CellBytes(strs[1..]) == [];
    } else {
      JoinIsCells(strs[1..]);
      assert Join(strs) + [0] == (Utf8(strs[0]) + [0]) + (Join(strs[1..]) + [0]);
    }
  }

  lemma {:induction false} CellsHold(strs: seq<string>, k: nat, pos: nat)
    requires k < |strs| && pos + 1 == Place(strs, k)
    ensures At(CellBytes(strs), pos, Utf8(strs[k]) + [0])
    decreases |strs|
  {
    var first, rest := Utf8(strs[0]) + [0], CellBytes(strs[1..]);
    if k == 0 {
      assert first[0..|first|] == first;
      AtBefore(first, rest, 0, first);
    } else {
      PlaceTail(strs, k);
      CellsHold(strs[1..], k - 1, pos - |first|);
      AtAfter(first, rest, pos - |first|, Utf8(strs[k]) + [0], pos);
    }
  }

  /** Every string stands in the table at its place, ended by a NUL. */
  lemma EmitHolds(strs: seq<string>, k: nat)
    requires k < |strs|
    ensures At(Emit(strs), Place(strs, k), Utf8(strs[k]) + [0])
  {
    JoinIsCells(strs);
    CellsHold(strs, k, Place(strs, k) - 1);
    AtAfter([0], CellBytes(strs), Place(strs, k) - 1, Utf8(strs[k]) + [0], Place(strs, k));
  }

  /** The offset handed out for string `k` is where it stands exactly when all earlier strings are ASCII. */
  lemma {:induction false} OffsetIsPlace(strs: seq<string>, k: nat)
    requires k <= |strs|
    ensures Place(strs, k) >= Pos(strs[..k])
    ensures Place(strs, k) == Pos(strs[..k]) <==> forall j :: 0 <= j < k ==> Ascii(strs[j])
  {
    if k > 0 {
      OffsetIsPlace(strs, k - 1);
      Utf8Length(strs[k - 1]);
      PosNext(strs, k);
      FirstAscii(strs, k);
    }
  }

  lemma PosNext(strs: seq<string>, k: nat)
    requires 1 <= k <= |strs|
    ensures Pos(strs[..k]) == Pos(strs[..k - 1]) + |strs[k - 1]| + 1
  {
    assert strs[..k] == strs[..k - 1] + [strs[k - 1]];
    PosSnoc(strs[..k - 1], strs[k - 1]);
  }

  lemma FirstAscii(strs: seq<string>, k: nat)
    requires 1 <= k <= |strs|
    ensures (forall j :: 0 <= j < k ==> Ascii(strs[j]))
       <==> Ascii(strs[k - 1]) && forall j :: 0 <= j < k - 1 ==> Ascii(strs[j])
  {
  }

  // ----- reading a table back -----

  function FirstNul(s: string): (k: nat)
    ensures k <= |s|
    ensures k < |s| ==> s[k] == '\0'
    ensures forall i :: 0 <= i < k ==> s[i] != '\0'
  {
    if s == [] || s[0] == '\0' then 0 else 1 + FirstNul(s[1..])
  }

  /** `s.split('\0')` */
  function Split(s: string): seq<string>
    decreases |s|
  {
    var k := FirstNul(s);
    if k == |s| then [s] else [s[..k]] + Split(s[k + 1..])
  }

  function NonEmpty(strs: seq<string>): (r: seq<string>)
    ensures |r| <= |strs|
  {
    if strs == [] then []
    else (if strs[0] == "" then [] else [strs[0]]) + NonEmpty(strs[1..])
  }

  function ReadStrings(data: seq<Byte>): Option<seq<string>> {
    match Decoded(data)
    case None => None
    case Some(s) => Some(NonEmpty(Split(s)))
  }

  /** The characters of a table, one cell after the other. */
  function Cells(strs: seq<string>): string {
    if strs == [] then [] else strs[0] + ['\0'] + Cells(strs[1..])
  }

  lemma SplitCell(s: string, rest: string)
    requires PlainName(s)
    ensures Split(s + ['\0'] + rest) == [s] + Split(rest)
  {
    var t := s + ['\0'] + rest;
    assert t[|s|] == '\0';
    assert FirstNul(t) == |s|;
    assert t[..|s|] == s && t[|s| + 1..] == rest;
  }

  lemma FirstOfAll(strs: seq<string>, last: string)
    requires strs != []
    ensures [strs[0]] + (strs[1..] + [last]) == strs + [last]
  {
  }

  lemma {:induction false} SplitCells(strs: seq<string>)
    requires forall i :: 0 <= i < |strs| ==> PlainName(strs[i])
    ensures Split(Cells(strs)) == strs + [""]
  {
    if strs != [] {
      SplitCell(strs[0], Cells(strs[1..]));
      SplitCells(strs[1..]);
      FirstOfAll(strs, "");
    }
  }

  lemma {:induction false} NonEmptyKeeps(strs: seq<string>)
    requires "" !in strs
    ensures NonEmpty(strs + [""]) == strs
  {
    if strs != [] {
      assert (strs + [""])[1..] == strs[1..] + [""];
      NonEmptyKeeps(strs[1..]);
    } else {
      assert (strs + [""])[1..] == [];
    }
  }

  lemma {:induction false} CellsEncoded(strs: seq<string>)
    ensures CellBytes(strs) == Utf8(Cells(strs))
  {
    if strs != [] {
      var rest := Cells(strs[1..]);
      CellsEncoded(strs[1..]);
      Utf8Concat(strs[0] + ['\0'], rest);
      Utf8Concat(strs[0], ['\0']);
      NulEncoded([]);
    }
  }

  lemma NulEncoded(s: string)
    ensures Utf8(['\0'] + s) == [0] + Utf8(s)
  {
    Utf8Cons('\0', s);
  }

  lemma EmptyText()
    ensures NonEmpty(Split("\0\0")) == []
  {
    SplitCell("", "\0");
    SplitCell("", "");
    assert [] + ['\0'] + "\0" == "\0\0" && [] + ['\0'] + "" == "\0";
    assert ["", "", ""][1..] == ["", ""] && ["", ""][1..] == [""] && [""][1..] == [];
  }

  lemma EmptyTable()
    ensures ReadStrings(Emit([])) == Some([])
  {
    NulEncoded([]);
    NulEncoded("\0");
    assert "\0\0" == ['\0'] + "\0" && ['\0'] + [] == "\0" && Emit([]) == [0, 0];
    TextDecodes("\0\0");
    EmptyText();
  }

  /** The characters of a table with at least one string. */
  lemma TableText(strs: seq<string>)
    requires strs != []
    ensures Decoded(Emit(strs)) == Some(['\0'] + Cells(strs))
  {
    JoinIsCells(strs);
    CellsEncoded(strs);
    NulEncoded(Cells(strs));
    TextDecodes(['\0'] + Cells(strs));
  }

  lemma NonEmptyPadded(strs: seq<string>)
    requires "" !in strs
    ensures NonEmpty([""] + (strs + [""])) == strs
  {
    assert ([""] + (strs + [""]))[1..] == strs + [""];
    NonEmptyKeeps(strs);
  }

  lemma TableSplits(strs: seq<string>)
    requires forall i :: 0 <= i < |strs| ==> PlainName(strs[i]) && strs[i] != ""
    ensures NonEmpty(Split(['\0'] + Cells(strs))) == strs
  {
    NulFirst(Cells(strs));
    SplitCells(strs);
    NonEmptyPadded(strs);
  }

  lemma NulFirst(rest: string)
    ensures Split(['\0'] + rest) == [""] + Split(rest)
  {
    SplitCell("", rest);
    assert [] + ['\0'] + rest == ['\0'] + rest;
  }

  lemma {:induction false} SplitPlain(s: string)
    ensures forall i :: 0 <= i < |Split(s)| ==> PlainName(Split(s)[i])
    decreases |s|
  {
    var k := FirstNul(s);
    if k < |s| { SplitPlain(s[k + 1..]); }
  }

  lemma {:induction false} NonEmptyOnly(strs: seq<string>)
    requires forall i :: 0 <= i < |strs| ==> PlainName(strs[i])
    ensures forall i :: 0 <= i < |NonEmpty(strs)| ==> PlainName(NonEmpty(strs)[i]) && NonEmpty(strs)[i] != ""
  {
    if strs != [] { NonEmptyOnly(strs[1..]); }
  }

  /** A string table reads back as the strings that were added to it exactly when none is empty or contains a NUL. */
  lemma StringsRoundTrip(strs: seq<string>)
    ensures ReadStrings(Emit(strs)) == Some(strs)
       <==> forall i :: 0 <= i < |strs| ==> PlainName(strs[i]) && strs[i] != ""
  {
    if forall i :: 0 <= i < |strs| ==> PlainName(strs[i]) && strs[i] != "" {
      if strs == [] {
        EmptyTable();
      } else {
        TableText(strs);
        TableSplits(strs);
      }
    } else if ReadStrings(Emit(strs)) == Some(strs) {
      var text := Decoded(Emit(strs)).value;
      SplitPlain(text);
      NonEmptyOnly(Split(text));
    }
  }

  /** A first name that is not ASCII: the second one gets the offset 3, and stands at 4. */
  lemma OffsetExample()
    ensures var strs := ["\U{E9}", "b"];
            !Ascii(strs[0]) && OffsetIn(strs[..1], strs[1]) == 3 && Place(strs, 1) == 4
  {
    var strs := ["\U{E9}", "b"];
    OffsetIsPlace(strs, 1);
    assert strs[..1] == [strs[0]] && [strs[0]][..0] == [];
    assert strs[0][0] as int == 0xE9;
    assert Utf8(strs[0]) == Utf8Char(strs[0][0]) + Utf8([]);
    assert Place(strs, 0) == 1;
  }
}
