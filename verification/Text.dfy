/**
  Bytes and C strings. A byte is a `char`; the buffers of the library hold chars
  below 256, and every statement in this project holds for them in particular.
  */
module Text {

  // What a `char *` points at: the bytes before the terminating NUL.
  type CString = s: string | '\0' !in s

  datatype Option<+T> = None | Some(value: T)

  // The bytes of `t` stand in `c` from index `i` on.
  ghost predicate Has(c: string, i: nat, t: string) {
    i + |t| <= |c| && c[i..i + |t|] == t
  }

  lemma HasAt(c: string, i: nat, t: string, k: nat)
    requires Has(c, i, t) && k < |t|
    ensures c[i + k] == t[k]
  {}

  lemma HasSplit(c: string, i: nat, a: string, b: string)
    requires Has(c, i, a + b)
    ensures Has(c, i, a) && Has(c, i + |a|, b)
  {
    var t := a + b;
    assert c[i..i + |t|] == t;
    assert c[i..i + |a|] == t[..|a|];
    assert c[i + |a|..i + |a| + |b|] == t[|a|..];
  }

  // The bytes before the first NUL: what a reader of a C string sees.
  function CutAtNul(s: string): (r: CString)
    ensures r <= s
    ensures |r| == |s| || s[|r|] == '\0'
    ensures '\0' !in s ==> r == s
  {
    if s == "" || s[0] == '\0' then ""
    else [s[0]] + CutAtNul(s[1..])
  }

  // ---------- Overwriting ----------

  // `s` with the bytes from index `o` on overwritten by `w`.
  function Overlay(s: string, o: nat, w: string): (r: string)
    requires o + |w| <= |s|
    ensures |r| == |s|
  {
    s[..o] + w + s[o + |w|..]
  }

  lemma OverlayStep(s: string, o: nat, w: string, c: char)
    requires o + |w| < |s|
    ensures Overlay(s, o, w)[o + |w| := c] == Overlay(s, o, w + [c])
  {}

  lemma OverlayNone(s: string, o: nat)
    requires o <= |s|
    ensures Overlay(s, o, "") == s
  {}
}
