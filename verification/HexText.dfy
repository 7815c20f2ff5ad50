/** Hexadecimal text as Python writes and reads it: `int(s, 16)`, `hex(n)`,
    `bytes.hex().upper()` and ASCII `str.lower()`. */
module HexText {

  import opened Bits

  predicate IsHexDigit(c: char) {
    '0' <= c <= '9' || 'a' <= c <= 'f' || 'A' <= c <= 'F'
  }

  predicate AllHex(s: string) {
    forall i :: 0 <= i < |s| ==> IsHexDigit(s[i])
  }

  function DigitValue(c: char): (v: nat)
    requires IsHexDigit(c)
    ensures v < 16
  {
    if '0' <= c <= '9' then c as nat - '0' as nat
    else if 'a' <= c <= 'f' then c as nat - 'a' as nat + 10
    else c as nat - 'A' as nat + 10
  }

  function Pow16(k: nat): (p: nat)
    ensures p >= 1
  {
    if k == 0 then 1 else 16 * Pow16(k - 1)
  }

  lemma {:induction false} Pow16IsPow2(k: nat)
    ensures Pow16(k) == Pow2(4 * k)
  {
    if k > 0 {
      Pow16IsPow2(k - 1);
      Pow2Add(4, 4 * (k - 1));
      PowersOfTwo();
    }
  }

  /** `int(s, 16)` for a string of hex digits, most significant first. */
  function ParseHex(s: string): nat
    requires AllHex(s)
  {
    if s == [] then 0 else ParseHex(s[..|s| - 1]) * 16 + DigitValue(s[|s| - 1])
  }

  /** k hex digits hold a value below 16^k. */
  lemma {:induction false} ParseHexBound(s: string)
    requires AllHex(s)
    ensures ParseHex(s) < Pow16(|s|)
  {
    if s != [] {
      ParseHexBound(s[..|s| - 1]);
    }
  }

  /** The hex digit for a value below 16, in lower or upper case. */
  function HexDigit(d: nat, upper: bool): (c: char)
    requires d < 16
    ensures IsHexDigit(c) && DigitValue(c) == d
    ensures upper ==> !('a' <= c <= 'z')
    ensures !upper ==> !('A' <= c <= 'Z')
  {
    if d < 10 then ('0' as nat + d) as char
    else if upper then ('A' as nat + d - 10) as char
    else ('a' as nat + d - 10) as char
  }

  /** The digits of Python's `hex(n)` after the `0x`: lower case, no leading
      zeros, and "0" for zero. */
  function PyHex(n: nat): (s: string)
    ensures |s| >= 1 && AllHex(s)
    ensures forall i :: 0 <= i < |s| ==> !('A' <= s[i] <= 'Z')
  {
    if n < 16 then [HexDigit(n, false)] else PyHex(n / 16) + [HexDigit(n % 16, false)]
  }

  /** Reading back what `hex` wrote gives the number again. */
  lemma {:induction false} ParsePyHex(n: nat)
    ensures ParseHex(PyHex(n)) == n
  {
    if n >= 16 {
      ParsePyHex(n / 16);
      var s := PyHex(n);
      assert s[..|s| - 1] == PyHex(n / 16);
    }
  }

  /** `hex(n)` has exactly k digits when 16^(k-1) <= n < 16^k. */
  lemma {:induction false} PyHexLength(n: nat, k: nat)
    requires k >= 1 && (k == 1 || Pow16(k - 1) <= n) && n < Pow16(k)
    ensures |PyHex(n)| == k
  {
    if k > 1 {
      assert n >= 16;
      PyHexLength(n / 16, k - 1);
    }
  }

  /** `hex(n)` has at most k digits when n < 16^k. */
  lemma {:induction false} PyHexAtMost(n: nat, k: nat)
    requires k >= 1 && n < Pow16(k)
    ensures |PyHex(n)| <= k
  {
    if n >= 16 {
      PyHexAtMost(n / 16, k - 1);
    }
  }

  /** Two upper-case hex digits for one byte, high nibble first. */
  function UpperHexByte(b: bv8): (s: string)
    ensures |s| == 2 && AllHex(s)
    ensures ParseHex(s) == b as nat
    ensures !('a' <= s[0] <= 'z') && !('a' <= s[1] <= 'z')
  {
    var hi, lo := b as nat / 16, b as nat % 16;
    var s := [HexDigit(hi, true), HexDigit(lo, true)];
    assert s[..1] == [HexDigit(hi, true)];
    assert ParseHex(s[..1]) == hi by {
      assert s[..1][..0] == [];
    }
    s
  }

  /** Python's `bytes.hex().upper()`. */
  function HexUpper(bs: seq<bv8>): (s: string)
    ensures |s| == 2 * |bs| && AllHex(s)
  {
    if bs == [] then [] else UpperHexByte(bs[0]) + HexUpper(bs[1..])
  }

  /** The text of `hex().upper()` holds no lower-case letter. */
  lemma {:induction false} HexUpperIsUpper(bs: seq<bv8>)
    ensures forall i :: 0 <= i < |HexUpper(bs)| ==> !('a' <= HexUpper(bs)[i] <= 'z')
  {
    if bs != [] {
      HexUpperIsUpper(bs[1..]);
      var s := HexUpper(bs);
      var b := UpperHexByte(bs[0]);
      assert s == b + HexUpper(bs[1..]);
      forall i | 0 <= i < |s| ensures !('a' <= s[i] <= 'z') {
        if i >= 2 {
          assert s[i] == HexUpper(bs[1..])[i - 2];
        }
      }
    }
  }

  /** Byte i of the input is written at characters 2i and 2i+1, so the text
      can be read back byte by byte. */
  lemma {:induction false} HexUpperAt(bs: seq<bv8>, i: nat)
    requires i < |bs|
    ensures HexUpper(bs)[2 * i..2 * i + 2] == UpperHexByte(bs[i])
    ensures ParseHex(HexUpper(bs)[2 * i..2 * i + 2]) == bs[i] as nat
  {
    if i > 0 {
      HexUpperAt(bs[1..], i - 1);
      var s := HexUpper(bs);
      assert s == UpperHexByte(bs[0]) + HexUpper(bs[1..]);
      assert s[2 * i..2 * i + 2] == HexUpper(bs[1..])[2 * (i - 1)..2 * (i - 1) + 2];
    }
  }

  /** Python's `str.lower()` restricted to ASCII letters. */
  function LowerChar(c: char): (l: char)
    ensures !('A' <= l <= 'Z')
    ensures !('A' <= c <= 'Z') ==> l == c
  {
    if 'A' <= c <= 'Z' then (c as int - 'A' as int + 'a' as int) as char else c
  }

  function Lower(s: string): (l: string)
    ensures |l| == |s|
    ensures forall i :: 0 <= i < |s| ==> l[i] == LowerChar(s[i])
  {
    if s == [] then [] else [LowerChar(s[0])] + Lower(s[1..])
  }

  lemma LowerAppend(a: string, b: string)
    ensures Lower(a + b) == Lower(a) + Lower(b)
  {
    assert forall i :: 0 <= i < |a + b| ==> Lower(a + b)[i] == (Lower(a) + Lower(b))[i];
  }

  /** The pieces of a concatenation are slices of it. */
  lemma ConcatSlices(a: string, b: string, c: string)
    ensures (a + b + c)[..|a|] == a && (a + b + c)[|a|..|a| + |b|] == b
  {
  }

  lemma SplitAt(a: string, b: string)
    ensures (a + b)[..|a|] == a && (a + b)[|a|..] == b && (a + b)[|a|..|a| + |b|] == b
  {
  }
}
