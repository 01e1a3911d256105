/**
  UTF-16 code units to code points to UTF-8 bytes, and back (section 3 of RFC 3629).
  */
module Utf {
  import opened Text

  predicate IsHigh(u: nat) { 0xD800 <= u <= 0xDBFF }

  predicate IsLow(u: nat) { 0xDC00 <= u <= 0xDFFF }

  type Unit = u: nat | u < 0x1_0000

  type Scalar = p: nat | p < 0xD800 || 0xE000 <= p <= 0x10FFFF

  // ---------- UTF-8 as tabulated in RFC 3629 ----------

  function Encode(p: nat): (bytes: string)
    requires p <= 0x10FFFF
    ensures 1 <= |bytes| <= 4
  {
    if p < 0x80 then [p as char]
    else if p < 0x800 then [(0xC0 + p / 0x40) as char, (0x80 + p % 0x40) as char]
    else if p < 0x1_0000 then
      [(0xE0 + p / 0x40 / 0x40) as char, (0x80 + p / 0x40 % 0x40) as char, (0x80 + p % 0x40) as char]
    else
      [(0xF0 + p / 0x40 / 0x40 / 0x40) as char, (0x80 + p / 0x40 / 0x40 % 0x40) as char,
       (0x80 + p / 0x40 % 0x40) as char, (0x80 + p % 0x40) as char]
  }

  function EncodeAll(ps: seq<Scalar>): string {
    if ps == [] then "" else Encode(ps[0]) + EncodeAll(ps[1..])
  }

  // A strict decoder: no overlong form, no surrogate, nothing above 0x10FFFF.
  predicate IsTrail(s: string, k: nat) { k < |s| && 0x80 <= s[k] as nat < 0xC0 }

  function DecodeOne(s: string): (r: Option<(Scalar, nat)>)
    requires s != ""
    ensures r.Some? ==> 1 <= r.value.1 <= |s|
  {
    var b := s[0] as nat;
    if b < 0x80 then Some((b, 1))
    else if 0xC2 <= b < 0xE0 && IsTrail(s, 1) then Some(((b - 0xC0) * 0x40 + Low6(s, 1), 2))
    else if 0xE0 <= b < 0xF0 && IsTrail(s, 1) && IsTrail(s, 2) then
      var p := ((b - 0xE0) * 0x40 + Low6(s, 1)) * 0x40 + Low6(s, 2);
      if p >= 0x800 && !IsHigh(p) && !IsLow(p) then Some((p, 3)) else None
    else if 0xF0 <= b < 0xF5 && IsTrail(s, 1) && IsTrail(s, 2) && IsTrail(s, 3) then
      var p := (((b - 0xF0) * 0x40 + Low6(s, 1)) * 0x40 + Low6(s, 2)) * 0x40 + Low6(s, 3);
      if 0x1_0000 <= p <= 0x10FFFF then Some((p, 4)) else None
    else None
  }

  function Low6(s: string, k: nat): (n: nat)
    requires IsTrail(s, k)
    ensures n < 0x40
  {
    s[k] as nat - 0x80
  }

  function DecodeAll(s: string): Option<seq<Scalar>> {
    if s == "" then Some([])
    else
      match DecodeOne(s)
      case None => None
      case Some((p, n)) =>
        match DecodeAll(s[n..])
        case None => None
        case Some(ps) => Some([p] + ps)
  }

  lemma DecodeOneInverts(p: Scalar, rest: string)
    ensures DecodeOne(Encode(p) + rest) == Some((p, |Encode(p)|))
  {
    if p >= 0x1_0000 {
      FourBytes(p, rest);
    } else if p >= 0x800 {
      ThreeBytes(p, rest);
    }
  }

  lemma ThreeBytes(p: Scalar, rest: string)
    requires 0x800 <= p < 0x1_0000
    ensures DecodeOne(Encode(p) + rest) == Some((p, 3))
  {}

  lemma FourBytes(p: Scalar, rest: string)
    requires p >= 0x1_0000
    ensures DecodeOne(Encode(p) + rest) == Some((p, 4))
  {}

  // Decoding undoes encoding, for every sequence of scalar values.
  lemma {:induction false} DecodeInvertsEncode(ps: seq<Scalar>)
    ensures DecodeAll(EncodeAll(ps)) == Some(ps)
  {
    if ps != [] {
      var s := EncodeAll(ps);
      DecodeOneInverts(ps[0], EncodeAll(ps[1..]));
      assert s[|Encode(ps[0])|..] == EncodeAll(ps[1..]);
      assert ps == [ps[0]] + ps[1..];
      DecodeInvertsEncode(ps[1..]);
    }
  }

  // The table of section 3 of RFC 3629: the range of the first byte says how many follow,
  // those lie from 0x80 to 0xBF, and all bits together are the code point, in the fewest
  // bytes that hold it.
  lemma EncodedBits(p: nat)
    requires p <= 0x10FFFF
    ensures var b := Encode(p);
      && (forall k | 1 <= k < |b| :: 0x80 <= b[k] as int <= 0xBF)
      && match |b|
         case 1 => b[0] as int == p < 0x80
         case 2 => 0x80 <= p < 0x800 && 0xC0 <= b[0] as int <= 0xDF
           && p == (b[0] as int - 0xC0) * 0x40 + (b[1] as int - 0x80)
         case 3 => 0x800 <= p < 0x1_0000 && 0xE0 <= b[0] as int <= 0xEF
           && p == (b[0] as int - 0xE0) * 0x1000 + (b[1] as int - 0x80) * 0x40 + (b[2] as int - 0x80)
         case 4 => 0x1_0000 <= p && 0xF0 <= b[0] as int <= 0xF4
           && p == (b[0] as int - 0xF0) * 0x4_0000 + (b[1] as int - 0x80) * 0x1000
                   + (b[2] as int - 0x80) * 0x40 + (b[3] as int - 0x80)
         case _ => false
  {}

  // ---------- UTF-16 ----------

  function Combine(high: nat, low: nat): (p: Scalar)
    requires IsHigh(high) && IsLow(low)
    ensures p >= 0x1_0000
  {
    0x1_0000 + high % 0x400 * 0x400 + low % 0x400
  }

  // The pairs of surrogates number the code points from 0x10000 on, one by one.
  lemma PairsInOrder(high: nat, low: nat)
    requires 0xD800 <= high <= 0xDBFF && 0xDC00 <= low <= 0xDFFF
    ensures Combine(0xD800, 0xDC00) == 0x1_0000
    ensures low < 0xDFFF ==> Combine(high, low + 1) == Combine(high, low) + 1
    ensures high < 0xDBFF ==> Combine(high + 1, 0xDC00) == Combine(high, 0xDFFF) + 1
  {}

  // The code points of well-formed UTF-16; None as soon as a surrogate stands alone.
  function Utf16(us: seq<Unit>): Option<seq<Scalar>> {
    if us == [] then Some([])
    else if IsLow(us[0]) then None
    else if IsHigh(us[0]) then
      if |us| < 2 || !IsLow(us[1]) then None
      else
        match Utf16(us[2..])
        case None => None
        case Some(ps) => Some([Combine(us[0], us[1])] + ps)
    else
      match Utf16(us[1..])
      case None => None
      case Some(ps) => Some([us[0]] + ps)
  }

  function Units(p: Scalar): seq<Unit> {
    if p < 0x1_0000 then [p as Unit]
    else [(0xD800 + (p - 0x1_0000) / 0x400) as Unit, (0xDC00 + (p - 0x1_0000) % 0x400) as Unit]
  }

  function UnitsAll(ps: seq<Scalar>): seq<Unit> {
    if ps == [] then [] else Units(ps[0]) + UnitsAll(ps[1..])
  }

  lemma Utf16Step(p: Scalar, us: seq<Unit>)
    ensures Utf16(Units(p) + us) == match Utf16(us) { case None => None case Some(ps) => Some([p] + ps) }
  {
    var all := Units(p) + us;
    assert all[0] == Units(p)[0];
    if p >= 0x1_0000 {
      assert all[1] == Units(p)[1] && all[2..] == us;
      assert Combine(all[0], all[1]) == p;
    } else {
      assert all[1..] == us;
    }
  }

  lemma {:induction false} Utf16InvertsUnits(ps: seq<Scalar>)
    ensures Utf16(UnitsAll(ps)) == Some(ps)
  {
    hide Units;
    if ps != [] {
      Utf16InvertsUnits(ps[1..]);
      Utf16Step(ps[0], UnitsAll(ps[1..]));
      assert ps == [ps[0]] + ps[1..];
    }
  }
}
