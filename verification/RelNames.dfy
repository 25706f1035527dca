/** Names of relocation targets, `R_<module>_<section>_<addend>` in hexadecimal: class RelocSym of
    tools/slice_rel.py prints them, the pattern REL_SYM of tools/elfconsts.py finds them again. */
module RelNames {
  import opened Wrappers

  function HexDigit(d: nat): char
    requires d < 16
  {
    "0123456789abcdef"[d]
  }

  /** `f'{n:0x}'` */
  function Hex(n: nat): (s: string)
    ensures s != ""
  {
    if n < 16 then [HexDigit(n)] else Hex(n / 16) + [HexDigit(n % 16)]
  }

  /** `f'{n}'` */
  function Decimal(n: nat): string {
    if n < 10 then ["0123456789"[n]] else Decimal(n / 10) + ["0123456789"[n % 10]]
  }

  predicate IsHexChar(c: char) {
    '0' <= c <= '9' || 'a' <= c <= 'f' || 'A' <= c <= 'F'
  }

  function HexValue(c: char): nat
    requires IsHexChar(c)
  {
    if c <= '9' then (c - '0') as nat else if c >= 'a' then 10 + (c - 'a') as nat else 10 + (c - 'A') as nat
  }

  predicate IsHex(s: string) {
    forall i :: 0 <= i < |s| ==> IsHexChar(s[i])
  }

  /** `int(s, 16)` of a hexadecimal string. */
  function ParseHex(s: string): nat
    requires IsHex(s)
  {
    if s == "" then 0 else 16 * ParseHex(s[..|s| - 1]) + HexValue(s[|s| - 1])
  }

  /** The longest hexadecimal prefix, as a greedy `[0-9a-fA-F]+` takes it. */
  function HexRun(s: string): (n: nat)
    ensures n <= |s| && IsHex(s[..n])
    ensures n < |s| ==> !IsHexChar(s[n])
  {
    if s == "" || !IsHexChar(s[0]) then 0
    else
      var n := HexRun(s[1..]);
      assert forall i :: 1 <= i < n + 1 ==> s[i] == s[1..][..n][i - 1];
      n + 1
  }

  datatype Target = Target(mod: nat, section: nat, addend: nat)

  function Name(t: Target): string {
    "R_" + (Hex(t.mod) + ("_" + (Hex(t.section) + ("_" + Hex(t.addend)))))
  }

  /** A match of REL_SYM at the beginning of the string. Underscores are not hexadecimal, so greedy runs
      need no backtracking. */
  function MatchAt(s: string): Option<Target> {
    if |s| < 2 || s[..2] != "R_" then None
    else
      var a := s[2..];
      var n := HexRun(a);
      if n == 0 || n == |a| || a[n] != '_' then None
      else
        var b := a[n + 1..];
        var k := HexRun(b);
        if k == 0 || k == |b| || b[k] != '_' then None
        else
          var c := b[k + 1..];
          var l := HexRun(c);
          if l == 0 then None
          else Some(Target(ParseHex(a[..n]), ParseHex(b[..k]), ParseHex(c[..l])))
  }

  /** `REL_SYM.search(s)`: the leftmost match. */
  function Search(s: string): Option<Target> {
    if MatchAt(s).Some? then MatchAt(s) else if s == "" then None else Search(s[1..])
  }

  // ----- printing and parsing -----

  lemma DigitParses(d: nat)
    requires d < 16
    ensures IsHexChar(HexDigit(d)) && HexValue(HexDigit(d)) == d
  {
  }

  lemma {:induction false} HexParses(n: nat)
    ensures IsHex(Hex(n)) && ParseHex(Hex(n)) == n
  {
    DigitParses(n % 16);
    if n < 16 {
      assert Hex(n)[..0] == "";
    } else {
      HexParses(n / 16);
      var h := Hex(n);
      assert h[..|h| - 1] == Hex(n / 16) && h[|h| - 1] == HexDigit(n % 16);
    }
  }

  lemma {:induction false} RunOf(h: string, rest: string)
    requires IsHex(h) && (rest == "" || !IsHexChar(rest[0]))
    ensures HexRun(h + rest) == |h|
  {
    if h == "" {
      assert h + rest == rest;
    } else {
      assert (h + rest)[0] == h[0] && (h + rest)[1..] == h[1..] + rest;
      RunOf(h[1..], rest);
    }
  }

  lemma Field(h: string, rest: string)
    requires IsHex(h) && (rest == "" || !IsHexChar(rest[0]))
    ensures HexRun(h + rest) == |h| && (h + rest)[..|h|] == h
    ensures rest != "" ==> |h| < |h + rest| && (h + rest)[|h|] == rest[0] && (h + rest)[|h| + 1..] == rest[1..]
  {
    RunOf(h, rest);
  }

  /** Three hexadecimal fields between the separators of a name are found again, in either letter case. */
  lemma MatchFields(x: string, y: string, z: string)
    requires IsHex(x) && IsHex(y) && IsHex(z) && x != "" && y != "" && z != ""
    ensures MatchAt("R_" + (x + ("_" + (y + ("_" + z))))) == Some(Target(ParseHex(x), ParseHex(y), ParseHex(z)))
  {
    var b := y + ("_" + z);
    var a := x + ("_" + b);
    TwoChars("R_", a);
    FieldBefore(x, b);
    FieldBefore(y, z);
    WholeField(z);
    ThreeFields("R_" + a, a, b, z, |x|, |y|, |z|);
  }

  lemma FieldBefore(x: string, b: string)
    requires IsHex(x) && x != ""
    ensures var a := x + ("_" + b);
            |x| < |a| && HexRun(a) == |x| && a[..|x|] == x && a[|x|] == '_' && a[|x| + 1..] == b
  {
    OneChar("_", b);
    Field(x, "_" + b);
  }

  lemma WholeField(z: string)
    requires IsHex(z)
    ensures HexRun(z) == |z| && z[..|z|] == z
  {
    Field(z, "");
    assert z + "" == z;
  }

  lemma TwoChars(h: string, rest: string)
    requires |h| == 2
    ensures (h + rest)[..2] == h && (h + rest)[2..] == rest
  {
  }

  lemma OneChar(h: string, rest: string)
    requires |h| == 1
    ensures (h + rest)[0] == h[0] && (h + rest)[1..] == rest
  {
  }

  lemma ThreeFields(s: string, a: string, b: string, c: string, n: nat, k: nat, l: nat)
    requires |s| >= 2 && s[..2] == "R_" && s[2..] == a
    requires 0 < n < |a| && HexRun(a) == n && a[n] == '_' && a[n + 1..] == b
    requires 0 < k < |b| && HexRun(b) == k && b[k] == '_' && b[k + 1..] == c
    requires 0 < l <= |c| && HexRun(c) == l
    ensures MatchAt(s) == Some(Target(ParseHex(a[..n]), ParseHex(b[..k]), ParseHex(c[..l])))
  {
  }

  /** Searching a printed name gives back the target it was printed for. */
  lemma NameRoundTrip(t: Target)
    ensures Search(Name(t)) == Some(t)
  {
    HexParses(t.mod);
    HexParses(t.section);
    HexParses(t.addend);
    MatchFields(Hex(t.mod), Hex(t.section), Hex(t.addend));
  }

  /** Different targets have different names, so one undefined symbol stands for one target. */
  lemma NamesDiffer(a: Target, b: Target)
    ensures Name(a) == Name(b) <==> a == b
  {
    NameRoundTrip(a);
    NameRoundTrip(b);
  }

  // ----- what is found in any text -----

  /** The text begins with three hexadecimal fields between the separators of a name; the last one goes on as far as it
      can. */
  predicate Spelling(s: string, x: string, y: string, z: string, rest: string) {
    && IsHex(x) && IsHex(y) && IsHex(z) && x != "" && y != "" && z != "" && (rest == "" || !IsHexChar(rest[0]))
    && s == "R_" + (x + ("_" + (y + ("_" + (z + rest)))))
  }

  ghost predicate Spells(s: string, t: Target) {
    exists x, y, z, rest :: Spelling(s, x, y, z, rest) && t == Target(ParseHex(x), ParseHex(y), ParseHex(z))
  }

  lemma SpellingMatches(s: string, x: string, y: string, z: string, rest: string)
    requires Spelling(s, x, y, z, rest)
    ensures MatchAt(s) == Some(Target(ParseHex(x), ParseHex(y), ParseHex(z)))
  {
    var c := z + rest;
    var b := y + ("_" + c);
    var a := x + ("_" + b);
    TwoChars("R_", a);
    FieldBefore(x, b);
    FieldBefore(y, c);
    Field(z, rest);
    ThreeFields(s, a, b, c, |x|, |y|, |z|);
  }

  /** The parts of a match: what is behind the prefix and behind each separator, and how far the fields go. */
  lemma MatchParts(s: string) returns (a: string, b: string, c: string, n: nat, k: nat, l: nat)
    requires MatchAt(s).Some?
    ensures |s| >= 2 && s[..2] == "R_" && s[2..] == a
    ensures 0 < n < |a| && IsHex(a[..n]) && a[n] == '_' && a[n + 1..] == b
    ensures 0 < k < |b| && IsHex(b[..k]) && b[k] == '_' && b[k + 1..] == c
    ensures 0 < l <= |c| && IsHex(c[..l]) && (l < |c| ==> !IsHexChar(c[l]))
  {
    a := s[2..];
    n := HexRun(a);
    b := a[n + 1..];
    k := HexRun(b);
    c := b[k + 1..];
    l := HexRun(c);
  }

  lemma PartsSpell(s: string, a: string, b: string, c: string, n: nat, k: nat, l: nat)
    requires |s| >= 2 && s[..2] == "R_" && s[2..] == a
    requires 0 < n < |a| && IsHex(a[..n]) && a[n] == '_' && a[n + 1..] == b
    requires 0 < k < |b| && IsHex(b[..k]) && b[k] == '_' && b[k + 1..] == c
    requires 0 < l <= |c| && IsHex(c[..l]) && (l < |c| ==> !IsHexChar(c[l]))
    ensures Spelling(s, a[..n], b[..k], c[..l], c[l..])
  {
    Rejoined(a, n);
    Rejoined(b, k);
    assert c == c[..l] + c[l..];
    assert s == s[..2] + a;
  }

  lemma Rejoined(a: string, n: nat)
    requires n < |a| && a[n] == '_'
    ensures a == a[..n] + ("_" + a[n + 1..])
  {
  }

  lemma MatchIsSpelled(s: string)
    requires MatchAt(s).Some?
    ensures Spells(s, MatchAt(s).value)
  {
    var a, b, c, n, k, l := MatchParts(s);
    PartsSpell(s, a, b, c, n, k, l);
    SpellingMatches(s, a[..n], b[..k], c[..l], c[l..]);
  }

  lemma SpelledIsMatch(s: string, t: Target)
    requires Spells(s, t)
    ensures MatchAt(s) == Some(t)
  {
    var x, y, z, rest :| Spelling(s, x, y, z, rest) && t == Target(ParseHex(x), ParseHex(y), ParseHex(z));
    SpellingMatches(s, x, y, z, rest);
  }

  /** Nothing is spelled at the places before `i`. */
  ghost predicate SilentBefore(s: string, i: nat)
    requires i <= |s|
  {
    forall j, u :: 0 <= j < i ==> !Spells(s[j..], u)
  }

  ghost predicate SilentFrom(s: string) {
    forall j, u :: 0 <= j <= |s| ==> !Spells(s[j..], u)
  }

  ghost predicate FirstSpelled(s: string, i: nat, t: Target) {
    i <= |s| && Spells(s[i..], t) && SilentBefore(s, i)
  }

  /** The search finds what is spelled first in the text, and nothing exactly when nothing is spelled anywhere. */
  lemma {:induction false} SearchMeaning(s: string)
    ensures Search(s).Some? ==> exists i :: FirstSpelled(s, i, Search(s).value)
    ensures Search(s).None? ==> SilentFrom(s)
  {
    if MatchAt(s).Some? {
      SpelledHere(s);
    } else {
      NoMatch(s);
      if s == "" {
        SilentEnd(s);
      } else {
        SearchMeaning(s[1..]);
        if Search(s).Some? {
          var i :| FirstSpelled(s[1..], i, Search(s).value);
          SpelledLater(s, i, Search(s).value);
        } else {
          NothingLater(s);
        }
      }
    }
  }

  lemma SpelledHere(s: string)
    requires MatchAt(s).Some?
    ensures FirstSpelled(s, 0, MatchAt(s).value)
  {
    MatchIsSpelled(s);
    assert s[0..] == s;
  }

  lemma SilentEnd(s: string)
    requires s == "" && forall u :: !Spells(s, u)
    ensures SilentFrom(s)
  {
    assert forall j :: 0 <= j <= |s| ==> s[j..] == s;
  }

  lemma NoMatch(s: string)
    requires MatchAt(s).None?
    ensures forall u :: !Spells(s, u)
  {
    forall u ensures !Spells(s, u) {
      if Spells(s, u) { SpelledIsMatch(s, u); }
    }
  }

  lemma NothingLater(s: string)
    requires s != "" && (forall u :: !Spells(s, u)) && SilentFrom(s[1..])
    ensures SilentFrom(s)
  {
    forall j, u | 0 <= j <= |s| ensures !Spells(s[j..], u) {
      if j > 0 { assert s[j..] == s[1..][j - 1..]; } else { assert s[0..] == s; }
    }
  }

  lemma SpelledLater(s: string, i: nat, t: Target)
    requires s != "" && FirstSpelled(s[1..], i, t) && forall u :: !Spells(s, u)
    ensures FirstSpelled(s, i + 1, t)
  {
    var rest := s[1..];
    assert s[0..] == s && s[i + 1..] == rest[i..];
    forall j, u | 0 <= j < i + 1 ensures !Spells(s[j..], u) {
      if j > 0 { assert s[j..] == rest[j - 1..]; }
    }
  }

  // ----- the upper-case spelling of aliases -----

  function UpperChar(c: char): char {
    if 'a' <= c <= 'z' then 'A' + (c - 'a') else c
  }

  function Upper(s: string): (r: string)
    ensures |r| == |s| && forall i :: 0 <= i < |s| ==> r[i] == UpperChar(s[i])
  {
    seq(|s|, i requires 0 <= i < |s| => UpperChar(s[i]))
  }

  lemma {:induction false} UpperParses(s: string)
    requires IsHex(s)
    ensures IsHex(Upper(s)) && ParseHex(Upper(s)) == ParseHex(s)
  {
    if s != "" {
      var t := s[..|s| - 1];
      UpperParses(t);
      assert Upper(s)[..|s| - 1] == Upper(t);
      assert Upper(s)[|s| - 1] == UpperChar(s[|s| - 1]);
    }
  }

  lemma UpperConcat(a: string, b: string)
    ensures Upper(a + b) == Upper(a) + Upper(b)
  {
  }

  /** The key under which an alias is stored denotes the same target as the name. */
  lemma AliasKeyDenotesTarget(t: Target)
    ensures Search(Upper(Name(t))) == Some(t)
  {
    var x, y, z := Hex(t.mod), Hex(t.section), Hex(t.addend);
    HexParses(t.mod);
    HexParses(t.section);
    HexParses(t.addend);
    UpperParses(x);
    UpperParses(y);
    UpperParses(z);
    UpperName(x, y, z);
    MatchFields(Upper(x), Upper(y), Upper(z));
  }

  lemma UpperName(x: string, y: string, z: string)
    ensures Upper("R_" + (x + ("_" + (y + ("_" + z)))))
         == "R_" + (Upper(x) + ("_" + (Upper(y) + ("_" + Upper(z)))))
  {
    assert Upper("R_") == "R_" && Upper("_") == "_";
    UpperConcat("R_", x + ("_" + (y + ("_" + z))));
    UpperConcat(x, "_" + (y + ("_" + z)));
    UpperConcat("_", y + ("_" + z));
    UpperConcat(y, "_" + z);
    UpperConcat("_", z);
  }

  /** The number is printed without the letters a to f. */
  predicate DecimalDigits(n: nat) {
    n % 16 < 10 && (n < 16 || DecimalDigits(n / 16))
  }

  lemma {:induction false} UpperHex(n: nat)
    ensures Upper(Hex(n)) == Hex(n) <==> DecimalDigits(n)
  {
    var d := Hex(n)[|Hex(n)| - 1];
    assert d == HexDigit(n % 16) && (UpperChar(d) == d <==> n % 16 < 10);
    if n >= 16 {
      UpperHex(n / 16);
      UpperConcat(Hex(n / 16), [d]);
      assert Upper([d]) == [UpperChar(d)] && Hex(n) == Hex(n / 16) + [d];
      SameSplit(Upper(Hex(n / 16)), Hex(n / 16), [UpperChar(d)], [d]);
    } else {
      assert Upper(Hex(n)) == [UpperChar(d)];
    }
  }

  /** A relocation finds the alias of its target under its own, lower-case name exactly when no letter occurs
      in the three numbers. */
  lemma AliasFoundIffNoLetters(t: Target)
    ensures Upper(Name(t)) == Name(t)
       <==> DecimalDigits(t.mod) && DecimalDigits(t.section) && DecimalDigits(t.addend)
  {
    var x, y, z := Hex(t.mod), Hex(t.section), Hex(t.addend);
    UpperHex(t.mod);
    UpperHex(t.section);
    UpperHex(t.addend);
    UpperName(x, y, z);
    SameParts(Upper(x), Upper(y), Upper(z), x, y, z);
  }

  /** An alias of alias_db.txt that is never found: the key is printed with a capital letter. */
  lemma LostAliasExample()
    ensures Name(Target(2, 1, 0xF0)) == "R_2_1_f0"
    ensures Upper(Name(Target(2, 1, 0xF0))) == "R_2_1_F0" != Name(Target(2, 1, 0xF0))
  {
    assert Hex(2) == "2" && Hex(1) == "1";
    assert Hex(0xF) == "f" && Hex(0xF0) == "f" + "0";
    AliasFoundIffNoLetters(Target(2, 1, 0xF0));
    assert "R_2_1_f0"[6] == 'f' && Upper("R_2_1_f0")[6] == 'F';
  }

  lemma SameParts(x: string, y: string, z: string, x': string, y': string, z': string)
    requires |x| == |x'| && |y| == |y'| && |z| == |z'|
    ensures "R_" + (x + ("_" + (y + ("_" + z)))) == "R_" + (x' + ("_" + (y' + ("_" + z'))))
       <==> x == x' && y == y' && z == z'
  {
    var a, b := "_" + (y + ("_" + z)), "_" + (y' + ("_" + z'));
    SameSplit("R_", "R_", x + a, x' + b);
    SameSplit(x, x', a, b);
    SameSplit("_", "_", y + ("_" + z), y' + ("_" + z'));
    SameSplit(y, y', "_" + z, "_" + z');
    SameSplit("_", "_", z, z');
  }

  lemma SameSplit(a: string, b: string, c: string, d: string)
    requires |a| == |b|
    ensures a + c == b + d <==> a == b && c == d
  {
    if a + c == b + d {
      assert (a + c)[..|a|] == a && (a + c)[|a|..] == c;
      assert (b + d)[..|b|] == b && (b + d)[|b|..] == d;
    }
  }
}
