/** World Wide Name conversions for Fibre Channel ports
    (plugins/fc/utils.py): the `0x…`, `naa.…` and `aa:bb:…:hh` spellings of
    a 64-bit name, the virtual-port name derived from a physical port name,
    and the `fc.fc_hosts` filter built from port names. */
module FcUtils {

  import opened Wrappers
  import opened Bits
  import opened HexText

  predicate StartsWith(s: string, prefix: string) {
    |prefix| <= |s| && s[..|prefix|] == prefix
  }

  /** Pairs of hex digits separated by colons, without anchors:
      `([0-9a-fA-F][0-9a-fA-F]:)*[0-9a-fA-F][0-9a-fA-F]`. */
  predicate ColonGroups(s: string) {
    |s| % 3 == 2 &&
    forall i :: 0 <= i < |s| ==> if i % 3 == 2 then s[i] == ':' else IsHexDigit(s[i])
  }

  /** Eight such pairs, the body of HEX_COLON. */
  predicate ColonHexBody(s: string) {
    |s| == 23 && ColonGroups(s)
  }

  /** `HEX_COLON.match(s)`.  Python's `$` also matches just before a newline
      that ends the string, so one trailing "\n" is accepted. */
  predicate MatchesHexColon(s: string) {
    ColonHexBody(s) || (|s| == 24 && s[23] == '\n' && ColonHexBody(s[..23]))
  }

  /** The body of NAA_PATTERN: "naa", then any character but a newline (the
      `.` is not escaped), then 16 hex digits. */
  predicate NaaBody(s: string) {
    |s| == 20 && s[..3] == "naa" && s[3] != '\n' && AllHex(s[4..])
  }

  /** `NAA_PATTERN.match(s)`, with the same trailing-newline rule as above. */
  predicate MatchesNaa(s: string) {
    NaaBody(s) || (|s| == 21 && s[20] == '\n' && NaaBody(s[..20]))
  }

  /** `':'.join(s[i:i + 2] for i in range(0, len(s), 2))`. */
  function ColonPairs(s: string): (r: string)
    ensures |s| <= 2 ==> r == s
  {
    if |s| <= 2 then s else s[..2] + ":" + ColonPairs(s[2..])
  }

  /** `''.join(s.split(':'))`. */
  function RemoveColons(s: string): (r: string)
    ensures ':' !in r
    ensures |r| <= |s|
  {
    if s == [] then [] else (if s[0] == ':' then [] else [s[0]]) + RemoveColons(s[1..])
  }

  /** `wwn_as_colon_hex`: `0x…` and `naa.…` are cut into colon-separated
      pairs after the prefix; a colon-hex string is returned as it is. */
  function WwnAsColonHex(s: string): (r: Option<string>)
    ensures r.None? <==> !StartsWith(s, "0x") && !StartsWith(s, "naa.") && !MatchesHexColon(s)
    ensures MatchesHexColon(s) ==> r == Some(s)
    ensures StartsWith(s, "0x") ==> RemoveColons(r.value) == RemoveColons(s[2..])
    ensures StartsWith(s, "naa.") ==> RemoveColons(r.value) == RemoveColons(s[4..])
  {
    ShapesDisjoint(s);
    if StartsWith(s, "0x") then
      ColonPairsKeepsDigits(s[2..]);
      Some(ColonPairs(s[2..]))
    else if StartsWith(s, "naa.") then
      ColonPairsKeepsDigits(s[4..]);
      Some(ColonPairs(s[4..]))
    else if MatchesHexColon(s) then
      Some(s)
    else
      None
  }

  /** `colon_hex_as_naa`. */
  function ColonHexAsNaa(s: string): (r: Option<string>)
    ensures r.Some? <==> MatchesHexColon(s)
    ensures r.Some? ==> StartsWith(r.value, "naa.") && MatchesNaa(r.value)
    ensures r.Some? ==> |r.value| == |s| - 3
    ensures r.Some? && ColonHexBody(s) ==> |r.value| == 20 && ColonPairs(r.value[4..]) == s
  {
    if MatchesHexColon(s) then
      ColonHexDigits(s);
      Some("naa." + RemoveColons(s))
    else
      None
  }

  /** `str_to_naa`. */
  function StrToNaa(s: string): (r: Option<string>)
    ensures r.None? <==> !StartsWith(s, "0x") && !MatchesHexColon(s) && !MatchesNaa(s)
    ensures r.Some? ==> StartsWith(r.value, "naa")
    ensures r.Some? && !MatchesNaa(s) ==> StartsWith(r.value, "naa.")
    ensures StartsWith(s, "0x") ==> r == Some("naa." + s[2..])
    ensures MatchesHexColon(s) ==> MatchesNaa(r.value) && r.value == Lower(ColonHexAsNaa(s).value)
    ensures MatchesNaa(s) ==> r == Some(s)
  {
    ShapesDisjoint(s);
    if StartsWith(s, "0x") then
      Some("naa." + s[2..])
    else if MatchesHexColon(s) then
      var n := "naa." + RemoveColons(s);
      ColonHexDigits(s);
      LowerKeepsNaa(n);
      LowerAppend("naa.", RemoveColons(s));
      Some("naa." + Lower(RemoveColons(s)))
    else if MatchesNaa(s) then
      Some(s)
    else
      None
  }

  /** `naa_to_int`: the 16 hex digits after the four-character prefix. */
  function NaaToInt(s: string): (r: Option<nat>)
    ensures r.Some? <==> MatchesNaa(s)
    ensures r.Some? ==> r.value < 0x1_0000_0000_0000_0000
    ensures r.Some? ==> AllHex(s[4..20]) && r.value == ParseHex(s[4..20])
  {
    if MatchesNaa(s) then
      ParseHexBound(s[4..20]);
      Pow16IsPow2(16);
      PowersOfTwo();
      Some(ParseHex(s[4..20]))
    else
      None
  }

  /** The argument of `wwpn_to_vport_naa`: a string, an int, or None. */
  datatype Wwpn = WwpnStr(text: string) | WwpnInt(number: int) | WwpnNone

  /** The integer the function works on: a string goes through
      `naa_to_int(str_to_naa(...))`. */
  function WwpnValue(w: Wwpn): (r: Option<int>)
    ensures w.WwpnInt? ==> r == Some(w.number)
    ensures w.WwpnStr? && r.Some? ==> 0 <= r.value < 0x1_0000_0000_0000_0000
  {
    match w
    case WwpnStr(s) =>
      (match StrToNaa(s)
       case None => None
       case Some(t) => if NaaToInt(t).Some? then Some(NaaToInt(t).value) else None)
    case WwpnInt(n) => Some(n)
    case WwpnNone => None
  }

  /** The XOR steps of `wwpn_to_vport_naa`: flip bit 56, then XOR the low
      nibble of `chan + 1` into bits 56-59 and its next nibble into bits
      52-55.  `& 0xf` is `% 16` and `>> 4` is floor division by 16, also for
      a negative channel. */
  function VportSeed(w: int, chan: int): (seed: int)
    ensures seed % Pow2(52) == w % Pow2(52)
    ensures seed / Pow2(60) == w / Pow2(60)
    ensures seed < 0 <==> w < 0
    ensures seed / Pow2(52) ==
      Xor(Xor(Xor(w / Pow2(52), 0x10), ((chan + 1) % 16) * 16), ((chan + 1) / 16) % 16)
  {
    var s1 := Xor(w, Shl(1, 56));  // 0x0100000000000000
    var s2 := Xor(s1, Shl((chan + 1) % 16, 56));
    var s3 := Xor(s2, Shl(((chan + 1) / 16) % 16, 52));
    ShlNibble(1);
    ShlNibble((chan + 1) % 16);
    XorSteps(w, 16, ((chan + 1) % 16) * 16, ((chan + 1) / 16) % 16);
    s3
  }

  /** A nibble shifted to bits 56-59 is that nibble times 16 at bit 52. */
  lemma ShlNibble(n: nat)
    requires n < 16
    ensures Shl(n, 56) == (n * 16) * Pow2(52)
  {
    Pow2Add(52, 4);
    assert Pow2(4) == 16;
    assert n * (Pow2(52) * 16) == (n * 16) * Pow2(52);
  }

  /** Three XORs into the byte at bit 52 keep the bits below and above it
      and XOR the three values into the bits from 52 up. */
  lemma XorSteps(w: int, m1: nat, m2: nat, m3: nat)
    requires m1 < 256 && m2 < 256 && m3 < 256
    ensures var s3 := Xor(Xor(Xor(w, m1 * Pow2(52)), m2 * Pow2(52)), m3 * Pow2(52));
      s3 % Pow2(52) == w % Pow2(52) && s3 / Pow2(60) == w / Pow2(60) &&
      (s3 < 0 <==> w < 0) &&
      s3 / Pow2(52) == Xor(Xor(Xor(w / Pow2(52), m1), m2), m3)
  {
    var s1 := Xor(w, m1 * Pow2(52));
    var s2 := Xor(s1, m2 * Pow2(52));
    var s3 := Xor(s2, m3 * Pow2(52));
    XorField(w, m1);
    XorField(s1, m2);
    XorField(s2, m3);
    DivSign(s3, Pow2(60));
    DivSign(w, Pow2(60));
  }

  /** Python's `hex(n)`: an optional minus sign, `0x`, and lower-case
      digits that read back as the magnitude. */
  function HexLiteral(n: int): (s: string)
    ensures n >= 0 ==> StartsWith(s, "0x") && AllHex(s[2..]) && ParseHex(s[2..]) == n
    ensures n < 0 ==> StartsWith(s, "-0x") && AllHex(s[3..]) && ParseHex(s[3..]) == -n
  {
    if n < 0 then
      var s := "-0x" + PyHex(-n);
      ParsePyHex(-n);
      assert s[3..] == PyHex(-n);
      s
    else
      var s := "0x" + PyHex(n);
      ParsePyHex(n);
      assert s[2..] == PyHex(n);
      s
  }

  /** `wwpn_to_vport_naa`. */
  function WwpnToVportNaa(wwpn: Wwpn, chan: int): (r: Option<string>)
    ensures r.Some? <==> WwpnValue(wwpn).Some? && WwpnValue(wwpn).value >= 0
    ensures r.Some? ==> r.value == "naa." + PyHex(VportSeed(WwpnValue(wwpn).value, chan))
  {
    var w := WwpnValue(wwpn);
    if w.None? then None else VportNaaOf(w.value, chan)
  }

  /** `str_to_naa(hex(seed))` for the seed derived from an integer name. */
  function VportNaaOf(w: int, chan: int): (r: Option<string>)
    ensures r.Some? <==> w >= 0
    ensures r.Some? ==> r.value == "naa." + PyHex(VportSeed(w, chan))
  {
    var seed := VportSeed(w, chan);
    StrToNaaOfHex(seed);
    StrToNaa(HexLiteral(seed))
  }

  /** `str_to_naa(hex(n))` swaps `0x` for `naa.`; a negative number is
      written `-0x…` and gives None. */
  lemma StrToNaaOfHex(n: int)
    ensures StrToNaa(HexLiteral(n)) == if n < 0 then None else Some("naa." + PyHex(n))
  {
    var h := HexLiteral(n);
    if n < 0 {
      assert h[0] == '-';
      ShapesDisjoint(h);
    } else {
      assert StartsWith(h, "0x") && h[2..] == PyHex(n);
    }
  }

  /** One clause of a `filter_list` filter. */
  datatype Filter = Eq(field: string, value: string) | Or(clauses: seq<Filter>)

  /** Python truthiness of an optional string. */
  predicate Truthy(s: Option<string>) {
    s.Some? && s.value != ""
  }

  /** Python's `s[4:]`, which is empty for a shorter string. */
  function DropPrefix4(s: string): string {
    if |s| >= 4 then s[4..] else ""
  }

  function PortNameEq(naa: string): (f: Filter)
    ensures f.Eq? && f.field == "port_name" && StartsWith(f.value, "0x")
  {
    Eq("port_name", "0x" + DropPrefix4(naa))
  }

  /** `filter_by_wwpns_hex_string`. */
  function FilterByWwpns(wwpnNaa: Option<string>, wwpnBNaa: Option<string>): (r: seq<Filter>)
    ensures |r| <= 1
    ensures r == [] <==> !Truthy(wwpnNaa) && !Truthy(wwpnBNaa)
    ensures r != [] ==> (r[0].Or? <==> Truthy(wwpnNaa) && Truthy(wwpnBNaa))
    ensures r != [] && r[0].Or? ==>
      r[0].clauses == [PortNameEq(wwpnNaa.value), PortNameEq(wwpnBNaa.value)]
    ensures r != [] && r[0].Eq? ==>
      r[0] == PortNameEq(if Truthy(wwpnNaa) then wwpnNaa.value else wwpnBNaa.value)
  {
    if Truthy(wwpnNaa) && Truthy(wwpnBNaa) then
      [Or([PortNameEq(wwpnNaa.value), PortNameEq(wwpnBNaa.value)])]
    else if Truthy(wwpnNaa) then
      [PortNameEq(wwpnNaa.value)]
    else if Truthy(wwpnBNaa) then
      [PortNameEq(wwpnBNaa.value)]
    else
      []
  }

  /** `is_fc_addr`: the shapes `str_to_naa` normalises, less the unchecked
      `0x` prefix. */
  function IsFcAddr(s: string): (b: bool)
    ensures b <==> StrToNaa(s).Some? && !StartsWith(s, "0x")
  {
    ShapesDisjoint(s);
    MatchesHexColon(s) || MatchesNaa(s)
  }

  // ---------------------------------------------------------------------
  // Helper lemmas on the text shapes

  /** HEX_COLON accepts exactly sixteen hex digits cut into colon pairs,
      optionally followed by one newline. */
  lemma HexColonShape(s: string)
    ensures MatchesHexColon(s) <==>
      exists h :: |h| == 16 && AllHex(h) && (s == ColonPairs(h) || s == ColonPairs(h) + "\n")
  {
    if MatchesHexColon(s) {
      var body := if ColonHexBody(s) then s else s[..23];
      ColonGroupsDigits(body);
      var h := RemoveColons(body);
      assert s == ColonPairs(h) || s == ColonPairs(h) + "\n";
    }
    if exists h :: |h| == 16 && AllHex(h) && (s == ColonPairs(h) || s == ColonPairs(h) + "\n") {
      var h :| |h| == 16 && AllHex(h) && (s == ColonPairs(h) || s == ColonPairs(h) + "\n");
      ColonPairsGroups(h);
      if s != ColonPairs(h) {
        assert s[..23] == ColonPairs(h);
      }
    }
  }

  /** NAA_PATTERN accepts exactly `naa`, one character other than a newline,
      and sixteen hex digits, optionally followed by one newline. */
  lemma NaaShape(s: string)
    ensures MatchesNaa(s) <==>
      exists sep, h :: sep != '\n' && |h| == 16 && AllHex(h) &&
        (s == NaaSpelling(sep, h) || s == NaaSpelling(sep, h) + "\n")
  {
    if MatchesNaa(s) {
      var body := if NaaBody(s) then s else s[..20];
      assert body == NaaSpelling(body[3], body[4..]);
      assert s == NaaSpelling(body[3], body[4..]) || s == NaaSpelling(body[3], body[4..]) + "\n";
    }
    if exists sep, h :: sep != '\n' && |h| == 16 && AllHex(h) &&
        (s == NaaSpelling(sep, h) || s == NaaSpelling(sep, h) + "\n") {
      var sep, h :| sep != '\n' && |h| == 16 && AllHex(h) &&
        (s == NaaSpelling(sep, h) || s == NaaSpelling(sep, h) + "\n");
      var body := NaaSpelling(sep, h);
      assert body[..3] == "naa" && body[3] == sep && body[4..] == h;
      assert NaaBody(body);
      if s != body {
        assert s[..20] == body;
      }
    }
  }

  /** `naa`, one separator character, then the digits. */
  function NaaSpelling(sep: char, h: string): string {
    "naa" + [sep] + h
  }

  /** The four shapes `wwn_as_colon_hex` and `str_to_naa` test for: only
      NAA_PATTERN and the `naa.` prefix can hold together. */
  lemma ShapesDisjoint(s: string)
    ensures StartsWith(s, "0x") ==> !StartsWith(s, "naa.") && !MatchesHexColon(s) && !MatchesNaa(s)
    ensures StartsWith(s, "naa.") ==> !MatchesHexColon(s)
    ensures MatchesNaa(s) ==> !MatchesHexColon(s)
    ensures StartsWith(s, "0x") ==> s[0] == '0'
    ensures MatchesHexColon(s) ==> IsHexDigit(s[0])
    ensures MatchesNaa(s) ==> s[0] == 'n' && StartsWith(s, "naa")
  {
    if StartsWith(s, "0x") {
      assert s[0] == s[..2][0] == '0' && s[1] == s[..2][1] == 'x';
    }
    if StartsWith(s, "naa.") {
      assert s[0] == s[..4][0] == 'n';
    }
    if MatchesNaa(s) {
      assert s[0] == s[..3][0] == 'n';
      if !NaaBody(s) {
        assert s[..3] == s[..20][..3];
      }
    }
    if MatchesHexColon(s) {
      assert IsHexDigit(s[0]) && IsHexDigit(s[1]) by {
        if !ColonHexBody(s) {
          assert s[0] == s[..23][0] && s[1] == s[..23][1];
        }
      }
    }
  }

  lemma {:induction false} RemoveColonsAppend(a: string, b: string)
    ensures RemoveColons(a + b) == RemoveColons(a) + RemoveColons(b)
  {
    if a == [] {
      assert a + b == b;
    } else {
      assert (a + b)[0] == a[0];
      assert (a + b)[1..] == a[1..] + b;
      RemoveColonsAppend(a[1..], b);
    }
  }

  lemma {:induction false} RemoveColonsNone(s: string)
    requires ':' !in s
    ensures RemoveColons(s) == s
  {
    if s != [] {
      RemoveColonsNone(s[1..]);
    }
  }

  /** Cutting into pairs only inserts colons. */
  lemma {:induction false} ColonPairsKeepsDigits(s: string)
    ensures RemoveColons(ColonPairs(s)) == RemoveColons(s)
    decreases |s|
  {
    if |s| > 2 {
      ColonPairsKeepsDigits(s[2..]);
      RemoveColonsAppend(s[..2] + ":", ColonPairs(s[2..]));
      RemoveColonsAppend(s[..2], ":");
      assert RemoveColons(":") == [] by {
        assert ":"[1..] == [];
      }
      RemoveColonsAppend(s[..2], s[2..]);
      assert s == s[..2] + s[2..];
    }
  }

  /** Colon groups read back as their digits, and re-cut into the same
      groups. */
  lemma {:induction false} ColonGroupsDigits(s: string)
    requires ColonGroups(s)
    ensures AllHex(RemoveColons(s)) && |RemoveColons(s)| == 2 * ((|s| + 1) / 3)
    ensures ColonPairs(RemoveColons(s)) == s
    decreases |s|
  {
    if |s| == 2 {
      assert IsHexDigit(s[0]) && IsHexDigit(s[1]);
      RemoveColonsNone(s);
    } else {
      var rest := s[3..];
      ColonGroupsTail(s);
      ColonGroupsDigits(rest);
      RemoveColonsGroup(s);
      var d := RemoveColons(s);
      assert d[..2] == s[..2] && d[2..] == RemoveColons(rest);
    }
  }

  /** Dropping the first pair and its colon leaves colon groups. */
  lemma ColonGroupsTail(s: string)
    requires ColonGroups(s) && |s| > 2
    ensures ColonGroups(s[3..])
    ensures IsHexDigit(s[0]) && IsHexDigit(s[1]) && s[2] == ':'
  {
    var rest := s[3..];
    forall i | 0 <= i < |rest|
      ensures if i % 3 == 2 then rest[i] == ':' else IsHexDigit(rest[i])
    {
      assert rest[i] == s[i + 3] && (i + 3) % 3 == i % 3;
    }
    assert s[2] == ':' by {
      assert 2 % 3 == 2;
    }
  }

  /** Removing the colons of `ab:rest` gives `ab` and the digits of `rest`. */
  lemma RemoveColonsGroup(s: string)
    requires |s| > 2 && s[2] == ':' && s[0] != ':' && s[1] != ':'
    ensures RemoveColons(s) == s[..2] + RemoveColons(s[3..])
  {
    assert s == s[..2] + ":" + s[3..];
    RemoveColonsAppend(s[..2] + ":", s[3..]);
    RemoveColonsAppend(s[..2], ":");
    RemoveColonsNone(s[..2]);
  }

  /** The converse: an even number of hex digits cut into pairs gives colon
      groups. */
  lemma {:induction false} ColonPairsGroups(h: string)
    requires AllHex(h) && |h| >= 2 && |h| % 2 == 0
    ensures ColonGroups(ColonPairs(h)) && |ColonPairs(h)| == |h| + |h| / 2 - 1
    decreases |h|
  {
    if |h| > 2 {
      ColonPairsGroups(h[2..]);
      var c := ColonPairs(h);
      var rest := ColonPairs(h[2..]);
      assert c == h[..2] + ":" + rest;
      forall i | 0 <= i < |c|
        ensures if i % 3 == 2 then c[i] == ':' else IsHexDigit(c[i])
      {
        if i >= 3 {
          assert c[i] == rest[i - 3] && (i - 3) % 3 == i % 3;
        }
      }
    }
  }

  /** The layout of `':'.join(...)` over pairs: after every two characters
      of `h` comes a colon, so position i holds a colon when i % 3 == 2 and
      otherwise character 2 * (i / 3) + i % 3 of `h`. */
  lemma {:induction false} ColonPairsLayout(h: string)
    requires |h| >= 1
    ensures var c := ColonPairs(h);
      |c| == |h| + (|h| - 1) / 2 &&
      forall i :: 0 <= i < |c| ==> c[i] == if i % 3 == 2 then ':' else h[2 * (i / 3) + i % 3]
    decreases |h|
  {
    if |h| > 2 {
      ColonPairsLayout(h[2..]);
      var c := ColonPairs(h);
      var rest := ColonPairs(h[2..]);
      assert c == h[..2] + ":" + rest;
      forall i | 0 <= i < |c|
        ensures c[i] == if i % 3 == 2 then ':' else h[2 * (i / 3) + i % 3]
      {
        if i >= 3 {
          var j := i - 3;
          assert c[i] == rest[j];
          assert j % 3 == i % 3 && j / 3 == i / 3 - 1;
          if j % 3 != 2 {
            assert h[2..][2 * (j / 3) + j % 3] == h[2 * (i / 3) + i % 3];
          }
        }
      }
    }
  }

  /** `wwn_as_colon_hex` on the prefixed forms: with 16 hex digits after the
      prefix the result is the 23-character colon form, with the digits in
      order and a colon exactly at every third position. */
  lemma WwnColonLayout(s: string)
    requires StartsWith(s, "0x") || StartsWith(s, "naa.")
    requires var h := if StartsWith(s, "0x") then s[2..] else s[4..]; |h| == 16 && AllHex(h)
    ensures var h := if StartsWith(s, "0x") then s[2..] else s[4..];
      var r := WwnAsColonHex(s).value;
      |r| == 23 && ColonHexBody(r) &&
      forall i :: 0 <= i < 23 ==> (r[i] == ':' <==> i % 3 == 2) && (i % 3 != 2 ==> r[i] == h[2 * (i / 3) + i % 3])
  {
    var h := if StartsWith(s, "0x") then s[2..] else s[4..];
    ShapesDisjoint(s);
    assert WwnAsColonHex(s).value == ColonPairs(h);
    ColonPairsLayout(h);
    ColonPairsGroups(h);
  }

  /** What HEX_COLON accepts is 16 hex digits, possibly followed by the
      newline that `$` lets through. */
  lemma ColonHexDigits(s: string)
    requires MatchesHexColon(s)
    ensures ColonHexBody(s) ==> |RemoveColons(s)| == 16 && AllHex(RemoveColons(s))
    ensures ColonHexBody(s) ==> ColonPairs(RemoveColons(s)) == s
    ensures !ColonHexBody(s) ==>
      RemoveColons(s) == RemoveColons(s[..23]) + "\n" &&
      |RemoveColons(s[..23])| == 16 && AllHex(RemoveColons(s[..23]))
    ensures MatchesNaa("naa." + RemoveColons(s))
  {
    if ColonHexBody(s) {
      ColonGroupsDigits(s);
      var n := "naa." + RemoveColons(s);
      assert n[4..] == RemoveColons(s);
    } else {
      ColonGroupsDigits(s[..23]);
      assert s == s[..23] + "\n";
      RemoveColonsAppend(s[..23], "\n");
      var n := "naa." + RemoveColons(s);
      assert n[..20][4..] == RemoveColons(s[..23]);
    }
  }

  /** Lower-casing keeps a string inside NAA_PATTERN. */
  lemma LowerKeepsNaa(s: string)
    requires MatchesNaa(s)
    ensures MatchesNaa(Lower(s)) && StartsWith(Lower(s), "naa.") == StartsWith(s, "naa.")
  {
    var l := Lower(s);
    assert l[..3] == s[..3];
    assert forall i :: 4 <= i < |s| && s[i] != '\n' ==> IsHexDigit(s[i]) ==> IsHexDigit(l[i]);
    if NaaBody(s) {
      assert AllHex(l[4..]) by {
        forall i | 0 <= i < |l[4..]| ensures IsHexDigit(l[4..][i]) {
          assert s[4..][i] == s[i + 4];
        }
      }
    } else {
      assert l[..20] == Lower(s[..20]);
      assert AllHex(l[..20][4..]) by {
        forall i | 0 <= i < 16 ensures IsHexDigit(l[..20][4..][i]) {
          assert s[..20][4..][i] == s[i + 4];
        }
      }
    }
  }

  /** Each XOR step of `VportSeed` leaves bits 0-51 and bits 60 and up
      alone, and XORs `m` into the bits from 52 up. */
  lemma XorField(a: int, m: nat)
    requires m < 256
    ensures Xor(a, m * Pow2(52)) % Pow2(52) == a % Pow2(52)
    ensures Xor(a, m * Pow2(52)) / Pow2(52) == Xor(a / Pow2(52), m)
    ensures Xor(a, m * Pow2(52)) / Pow2(60) == a / Pow2(60)
  {
    var p := Pow2(52);
    var x := Xor(a, m * p);
    var y := Xor(a / p, m);
    XorShifted(a, m, 52);
    DivModUnique(x, p, y, a % p);
    PowersOfTwo();
    XorBelow(a / p, m, 8);
    DivideTwice(x, 52, 8);
    DivideTwice(a, 52, 8);
  }

  // ---------------------------------------------------------------------
  // Properties

  /** For a port name whose top hex digit is not zero, the virtual-port name
      is a full NAA string that reads back as the seed: it differs from the
      port name only in bits 52-59. */
  lemma VportNaaRoundTrip(wwpn: Wwpn, chan: int)
    requires WwpnValue(wwpn).Some?
    requires 0x1000_0000_0000_0000 <= WwpnValue(wwpn).value < 0x1_0000_0000_0000_0000
    ensures WwpnToVportNaa(wwpn, chan).Some?
    ensures MatchesNaa(WwpnToVportNaa(wwpn, chan).value)
    ensures NaaToInt(WwpnToVportNaa(wwpn, chan).value) == Some(VportSeed(WwpnValue(wwpn).value, chan))
  {
    var w := WwpnValue(wwpn).value;
    var seed := VportSeed(w, chan);
    PowersOfTwo();
    SeedInTopDigitRange(w, seed);
    Pow16IsPow2(15);
    Pow16IsPow2(16);
    SixteenDigitNaa(seed);
  }

  /** The number that the virtual-port name reads back as differs from the
      port name only in the byte at bit 52, which holds the port's byte
      XOR-ed with 0x10, with the low nibble of `chan + 1` shifted up four
      bits, and with its next nibble. */
  lemma VportNaaChannelBits(wwpn: Wwpn, chan: int)
    requires WwpnValue(wwpn).Some?
    requires 0x1000_0000_0000_0000 <= WwpnValue(wwpn).value < 0x1_0000_0000_0000_0000
    ensures WwpnToVportNaa(wwpn, chan).Some?
    ensures NaaToInt(WwpnToVportNaa(wwpn, chan).value).Some?
    ensures var w := WwpnValue(wwpn).value;
      var n := NaaToInt(WwpnToVportNaa(wwpn, chan).value).value;
      n % Pow2(52) == w % Pow2(52) && n / Pow2(60) == w / Pow2(60) &&
      n / Pow2(52) == Xor(Xor(Xor(w / Pow2(52), 0x10), ((chan + 1) % 16) * 16), ((chan + 1) / 16) % 16)
  {
    VportNaaRoundTrip(wwpn, chan);
  }

  /** Channel 0, and every channel that is a multiple of 256, XORs the
      same bit in twice, so its virtual port keeps the physical port's name. */
  lemma VportChannelZero(w: int, chan: int)
    requires chan % 256 == 0
    ensures VportSeed(w, chan) == w
  {
    var p := Pow2(52);
    var k := chan / 256;
    DivModUnique(chan + 1, 16, 16 * k, 1);
    DivModUnique(16 * k, 16, k, 0);
    var m2: nat := ((chan + 1) % 16) * 16;
    var m3: nat := ((chan + 1) / 16) % 16;
    assert m2 == 0x10 && m3 == 0;
    var seed := VportSeed(w, chan);
    assert seed / p == Xor(Xor(Xor(w / p, 0x10), m2), m3);
    XorTwice(w / p, 0x10);
    SameQuotientAndRemainder(seed, w, p);
  }

  lemma SameQuotientAndRemainder(a: int, b: int, p: int)
    requires p > 0 && a / p == b / p && a % p == b % p
    ensures a == b
  {
    assert a == (a / p) * p + a % p;
    assert b == (b / p) * p + b % p;
  }

  /** A number with exactly sixteen hex digits, written by `hex` after
      `naa.`, is a full NAA string that reads back as the number. */
  lemma SixteenDigitNaa(n: nat)
    requires Pow16(15) <= n < Pow16(16)
    ensures MatchesNaa("naa." + PyHex(n))
    ensures NaaToInt("naa." + PyHex(n)) == Some(n)
  {
    PyHexLength(n, 16);
    ParsePyHex(n);
    NaaOfDigits(PyHex(n));
  }

  /** Sixteen hex digits after `naa.` make an NAA string that reads back as
      their value. */
  lemma NaaOfDigits(h: string)
    requires |h| == 16 && AllHex(h)
    ensures MatchesNaa("naa." + h)
    ensures NaaToInt("naa." + h) == Some(ParseHex(h))
  {
    var r := "naa." + h;
    SplitAt("naa.", h);
    assert r[..3] == "naa";
    assert NaaBody(r);
  }

  /** Two numbers that agree in bits 60 and up lie in [2^60, 2^64) together. */
  lemma SeedInTopDigitRange(w: int, seed: int)
    requires Pow2(60) <= w < Pow2(64)
    requires seed / Pow2(60) == w / Pow2(60)
    ensures Pow2(60) <= seed < Pow2(64)
  {
    var p60, p64 := Pow2(60), Pow2(64);
    DivRange(w, p60);
    DivRange(seed, p60);
    DivSign(seed, p60);
    DivideTwice(seed, 60, 4);
    DivideTwice(w, 60, 4);
    DivRange(w, p64);
    DivRange(seed, p64);
  }

  /** `hex()` drops leading zeros, so a port name whose top hex digit is zero
      gives a virtual-port name shorter than NAA_PATTERN allows. */
  lemma VportNaaShort(wwpn: Wwpn, chan: int)
    requires WwpnValue(wwpn).Some?
    requires 0 <= WwpnValue(wwpn).value < 0x1000_0000_0000_0000
    ensures WwpnToVportNaa(wwpn, chan).Some?
    ensures |WwpnToVportNaa(wwpn, chan).value| < 20
    ensures !MatchesNaa(WwpnToVportNaa(wwpn, chan).value)
    ensures NaaToInt(WwpnToVportNaa(wwpn, chan).value).None?
  {
    var w := WwpnValue(wwpn).value;
    var seed := VportSeed(w, chan);
    PowersOfTwo();
    SeedBelowTopDigit(w, seed);
    Pow16IsPow2(15);
    ShortHexNaa(seed);
  }

  /** Fewer than sixteen hex digits after `naa.` do not make an NAA string. */
  lemma ShortHexNaa(n: nat)
    requires n < Pow16(15)
    ensures |"naa." + PyHex(n)| < 20
    ensures !MatchesNaa("naa." + PyHex(n))
  {
    PyHexAtMost(n, 15);
  }

  /** Two numbers that agree in bits 60 and up lie in [0, 2^60) together. */
  lemma SeedBelowTopDigit(w: int, seed: int)
    requires 0 <= w < Pow2(60)
    requires seed / Pow2(60) == w / Pow2(60)
    ensures 0 <= seed < Pow2(60)
  {
    DivRange(w, Pow2(60));
    DivRange(seed, Pow2(60));
  }

  /** An `naa.` name with 16 hex digits survives the trip through the colon
      form. */
  lemma NaaColonRoundTrip(h: string)
    requires |h| == 16 && AllHex(h)
    ensures WwnAsColonHex("naa." + h).Some?
    ensures ColonHexBody(WwnAsColonHex("naa." + h).value)
    ensures ColonHexAsNaa(WwnAsColonHex("naa." + h).value) == Some("naa." + h)
    ensures ColonHexAsNaa(WwnAsColonHex("0x" + h).value) == Some("naa." + h)
  {
    var s := "naa." + h;
    assert StartsWith(s, "naa.") && s[4..] == h;
    ShapesDisjoint(s);
    ColonPairsGroups(h);
    ColonPairsKeepsDigits(h);
    assert ':' !in h by {
      forall i | 0 <= i < |h| ensures h[i] != ':' {
        assert IsHexDigit(h[i]);
      }
    }
    RemoveColonsNone(h);
    var t := "0x" + h;
    assert StartsWith(t, "0x") && t[2..] == h;
  }

  /** A colon-hex name survives the trip through the `naa.` form. */
  lemma ColonNaaRoundTrip(c: string)
    requires ColonHexBody(c)
    ensures WwnAsColonHex(ColonHexAsNaa(c).value) == Some(c)
  {
    var n := ColonHexAsNaa(c).value;
    ShapesDisjoint(n);
  }

  /** `str_to_naa` is idempotent on what it returns for any input not
      starting with `0x` (for `0x…` the digits are not checked). */
  lemma StrToNaaIdempotent(s: string)
    requires StrToNaa(s).Some? && !StartsWith(s, "0x")
    ensures StrToNaa(StrToNaa(s).value) == StrToNaa(s)
  {
  }

  /** The `port_name` value in the filter names the same port as the
      `naa.` string it came from. */
  lemma PortNameSamePort(naa: string)
    requires StartsWith(naa, "naa.")
    ensures StrToNaa(PortNameEq(naa).value) == Some(naa)
    ensures WwnAsColonHex(PortNameEq(naa).value) == WwnAsColonHex(naa)
  {
    var v := PortNameEq(naa).value;
    assert v[2..] == naa[4..];
    assert naa == "naa." + naa[4..];
    ShapesDisjoint(naa);
    ShapesDisjoint(v);
  }

  /** Every Fibre Channel address converts to an integer name; it converts
      to the colon form unless it is an NAA-pattern string whose fourth
      character is not a dot, which the unescaped `.` of NAA_PATTERN lets
      through. */
  lemma FcAddrConverts(s: string)
    requires IsFcAddr(s)
    ensures StrToNaa(s).Some? && NaaToInt(StrToNaa(s).value).Some?
    ensures WwnAsColonHex(s).Some? <==> MatchesHexColon(s) || StartsWith(s, "naa.")
  {
    ShapesDisjoint(s);
  }

  /** The dot in NAA_PATTERN matches any character but a newline, so
      `naa` followed by another separator and sixteen hex digits (say
      `naa-0123456789abcdef`) is accepted by `is_fc_addr` while
      `wwn_as_colon_hex` rejects it. */
  lemma NaaWildcardSeparator(sep: char, digits: string)
    requires sep != '.' && sep != '\n' && |digits| == 16 && AllHex(digits)
    ensures IsFcAddr("naa" + [sep] + digits)
    ensures WwnAsColonHex("naa" + [sep] + digits).None?
  {
    var s := "naa" + [sep] + digits;
    SplitAt("naa" + [sep], digits);
    assert s[..3] == "naa" && s[3] == sep;
    assert NaaBody(s);
    assert !StartsWith(s, "naa.") by {
      assert s[..4][3] == sep;
    }
    assert !StartsWith(s, "0x") by {
      assert s[..2][0] == 'n';
    }
    assert !MatchesHexColon(s) by {
      ShapesDisjoint(s);
    }
  }
}
