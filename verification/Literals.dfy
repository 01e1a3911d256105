/**
  The code of `\uXXXX` escapes: hex digits, surrogate pairs, and UTF-8 written to the
  output block.
  */
module Literals {
  import opened Strings
  import Utf

  // ---------- Code points as UTF-8 ----------

  // What is left of a code point once `k` trailing bytes have taken their six bits.
  function Shifted(codepoint: nat, k: nat): nat {
    if k == 0 then codepoint else Shifted(codepoint, k - 1) / 0x40
  }

  lemma TrailingBytes(codepoint: nat)
    requires codepoint <= 0x10FFFF
    ensures var bytes := Utf.Encode(codepoint);
      && |bytes| ==
        (if codepoint < 0x80 then 1 else if codepoint < 0x800 then 2 else if codepoint < 0x1_0000 then 3 else 4)
      && (forall j | 1 <= j < |bytes| :: bytes[j] == (0x80 + Shifted(codepoint, |bytes| - 1 - j) % 0x40) as char)
      && bytes[0] as nat ==
        (if |bytes| == 1 then 0 else if |bytes| == 2 then 0xC0 else if |bytes| == 3 then 0xE0 else 0xF0)
                            + Shifted(codepoint, |bytes| - 1)
  {
    assert Shifted(codepoint, 1) == codepoint / 0x40;
    assert Shifted(codepoint, 2) == codepoint / 0x40 / 0x40;
    assert Shifted(codepoint, 3) == codepoint / 0x40 / 0x40 / 0x40;
  }

  // The encoding loop of utf16_literal_to_utf8, from the last byte to the first. The
  // marks are or-ed into bits that are clear, which here is an addition.
  method EncodeInto(output: array<char>, o: nat, codepoint: nat) returns (length: nat)
    requires codepoint <= 0x10FFFF && o + |Utf.Encode(codepoint)| <= output.Length
    modifies output
    ensures length == |Utf.Encode(codepoint)|
    ensures forall j | 0 <= j < length :: output[o + j] == Utf.Encode(codepoint)[j]
    ensures forall k | 0 <= k < output.Length && !(o <= k < o + length) :: output[k] == old(output[k])
  {
    hide Utf.Encode;
    var mark;
    if codepoint < 0x80 {
      length, mark := 1, 0;
    } else if codepoint < 0x800 {
      length, mark := 2, 0xC0;
    } else if codepoint < 0x1_0000 {
      length, mark := 3, 0xE0;
    } else {
      length, mark := 4, 0xF0;
    }
    TrailingBytes(codepoint);
    var position, left := length - 1, codepoint;
    while position > 0
      invariant 0 <= position < length && left == Shifted(codepoint, length - 1 - position)
      invariant forall j | position < j < length :: output[o + j] == Utf.Encode(codepoint)[j]
      invariant forall k | 0 <= k < output.Length && !(o < k < o + length) :: output[k] == old(output[k])
    {
      output[o + position] := (0x80 + left % 0x40) as char;
      left := left / 0x40;
      position := position - 1;
    }
    output[o] := (left + mark) as char;
  }

  predicate HexRun(c: string, p: nat, n: nat)
    requires p + n <= |c|
  {
    n == 0 || (HexRun(c, p, n - 1) && IsHex(c[p + n - 1]))
  }

  // The value of `n` hex digits.
  function HexPrefix(c: string, p: nat, n: nat): nat
    requires p + n <= |c| && HexRun(c, p, n)
  {
    if n == 0 then 0 else HexPrefix(c, p, n - 1) * 0x10 + HexValue(c[p + n - 1])
  }

  lemma FourDigits(c: string, p: nat)
    requires p + 4 <= |c|
    ensures HexRun(c, p, 4) <==> AllHex(c, p)
    ensures HexRun(c, p, 4) ==> HexPrefix(c, p, 4) == Hex4(c, p)
  {
    hide HexValue, IsHex;
    assert HexRun(c, p, 1) <==> IsHex(c[p]);
    assert HexRun(c, p, 2) <==> HexRun(c, p, 1) && IsHex(c[p + 1]);
    assert HexRun(c, p, 3) <==> HexRun(c, p, 2) && IsHex(c[p + 2]);
    if HexRun(c, p, 4) {
      assert HexPrefix(c, p, 1) == HexValue(c[p]);
      assert HexPrefix(c, p, 2) == HexValue(c[p]) * 0x10 + HexValue(c[p + 1]);
      assert HexPrefix(c, p, 3) == HexValue(c[p]) * 0x100 + HexValue(c[p + 1]) * 0x10 + HexValue(c[p + 2]);
    }
  }

  lemma NoHex(c: string, p: nat, i: nat)
    requires i < 4 && p + 4 <= |c| && !IsHex(c[p + i])
    ensures Hex4(c, p) == 0
  {}

  method ParseHex4(content: string, p: nat) returns (h: nat)
    requires p + 4 <= |content|
    ensures h == Hex4(content, p)
    ensures if AllHex(content, p) then SpellsHex(content[p..p + 4], h) else h == 0
  {
    hide Hex4, AllHex, SpellsHex;
    HexSpelled(content, p, Hex4(content, p));
    FourDigits(content, p);
    h := 0;
    var i := 0;
    while i < 4
      invariant i <= 4 && HexRun(content, p, i)
      invariant h == HexPrefix(content, p, i) * (if i == 0 || i == 4 then 1 else 0x10)
    {
      var digit := content[p + i];
      if '0' <= digit <= '9' {
        h := h + (digit as nat - '0' as nat);
      } else if 'A' <= digit <= 'F' {
        h := h + (10 + digit as nat - 'A' as nat);
      } else if 'a' <= digit <= 'f' {
        h := h + (10 + digit as nat - 'a' as nat);
      } else {
        NoHex(content, p, i);
        return 0;
      }
      if i < 3 {
        h := h * 0x10;
      }
      i := i + 1;
    }
  }

  // Reads the escape at `p` and writes its bytes at `o`; `length` is 0 on failure.
  method Utf16LiteralToUtf8(content: string, p: nat, end: nat, output: array<char>,
          o: nat) returns (length: nat, written: nat)
    requires p <= end <= |content|
    requires Utf16Literal(content, p, end).0 > 0 ==> o + |Utf16Literal(content, p, end).1| <= output.Length
    modifies output
    ensures length == Utf16Literal(content, p, end).0
    ensures length > 0 ==> Written(output, o, written, Utf16Literal(content, p, end).1)
    ensures forall k | 0 <= k < output.Length && k < o :: output[k] == old(output[k])
  {
    hide SpellsHex, AllHex, Hex4;
    if end - p < 6 {
      return 0, 0;
    }
    var first := ParseHex4(content, p + 2);
    var codepoint;
    if 0xDC00 <= first <= 0xDFFF {
      return 0, 0;
    }
    if 0xD800 <= first <= 0xDBFF {
      length := 12;
      if end - (p + 6) < 6 {
        return 0, 0;
      }
      if content[p + 6] != '\\' || content[p + 7] != 'u' {
        return 0, 0;
      }
      var second := ParseHex4(content, p + 8);
      if second < 0xDC00 || second > 0xDFFF {
        return 0, 0;
      }
      codepoint := 0x1_0000 + first % 0x400 * 0x400 + second % 0x400;
      assert codepoint == Utf.Combine(first, second);
    } else {
      length := 6;
      codepoint := first;
    }
    written := EncodeInto(output, o, codepoint);
  }

  // `bytes` stand in the array from `o` on.
  ghost predicate Written(output: array<char>, o: nat, n: nat, bytes: string)
    reads output
  {
    n == |bytes| && o + n <= output.Length && forall j | 0 <= j < n :: output[o + j] == bytes[j]
  }
}
