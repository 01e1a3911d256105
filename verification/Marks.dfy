/**
  A byte order mark in front of a text changes nothing but the offsets.
  */
module Marks {
  import opened Text
  import opened Decimals
  import opened Strings
  import opened Parsing

  // The buffer `d` holds the buffer `c` from index `n` on.
  ghost predicate Holds(d: string, n: nat, c: string) {
    Terminated(c) && |d| == n + |c| && forall k | 0 <= k < |c| :: d[n + k] == c[k]
  }

  lemma HoldsAt(d: string, n: nat, c: string, i: nat)
    requires Holds(d, n, c) && i < |c|
    ensures n + i < |d| && d[n + i] == c[i] && Terminated(d) && Terminated(c)
  {
    assert d[n + (|c| - 1)] == c[|c| - 1];
  }

  function Shift<T>(r: Parse<T>, n: nat): Parse<T> {
    match r case Failed => Failed case Parsed(v, k) => Parsed(v, n + k)
  }

  lemma {:induction false} SkipShift(d: string, n: nat, c: string, i: nat)
    requires Holds(d, n, c) && i < |c|
    ensures n + i < |d| && Skip(d, n + i) == n + Skip(c, i)
    decreases |c| - i
  {
    HoldsAt(d, n, c, i);
    hide Holds;
    if i + 1 < |c| && IsBlank(c[i]) {
      SkipShift(d, n, c, i + 1);
      assert n + i + 1 == n + (i + 1);
    }
  }

  lemma {:induction false} NumberEndShift(d: string, n: nat, c: string, i: nat, room: nat)
    requires Holds(d, n, c) && i <= |c|
    ensures n + i <= |d| && NumberEnd(d, n + i, room) == n + NumberEnd(c, i, room)
    decreases room
  {
    if room > 0 && i < |c| {
      assert d[n + i] == c[i];
      NumberEndShift(d, n, c, i + 1, room - 1);
      assert n + i + 1 == n + (i + 1);
    }
  }

  lemma SliceShift(d: string, n: nat, c: string, i: nat, j: nat)
    requires Holds(d, n, c) && i <= j <= |c|
    ensures n + j <= |d| && d[n + i..n + j] == c[i..j]
  {
    forall k | 0 <= k < j - i ensures d[n + i..n + j][k] == c[i..j][k] { assert d[n + (i + k)] == c[i + k]; }
  }

  lemma NumberShift(d: string, n: nat, c: string, i: nat)
    requires Holds(d, n, c) && i < |c|
    ensures n + i < |d| && ParseNumber(d, n + i) == Shift(ParseNumber(c, i), n)
  {
    hide NumberEnd, Strtod;
    NumberEndShift(d, n, c, i, NUMBER_BUFFER);
    SliceShift(d, n, c, i, NumberEnd(c, i, NUMBER_BUFFER));
  }

  lemma ReadsShift(d: string, n: nat, c: string, i: nat, word: string)
    requires Holds(d, n, c) && i < |c|
    ensures Reads(d, n + i, word) <==> Reads(c, i, word)
  {
    if i + |word| <= |c| { SliceShift(d, n, c, i, i + |word|); }
  }

  function ShiftScan(r: Scan, n: nat): Scan {
    match r case Open => Open case Closed(end, skipped) => Closed(n + end, skipped)
  }

  lemma {:induction false} ScanShift(d: string, n: nat, c: string, q: nat)
    requires Holds(d, n, c)
    ensures ScanString(d, n + q) == ShiftScan(ScanString(c, q), n)
    decreases |c| - q
  {
    if q < |c| {
      HoldsAt(d, n, c, q);
      hide Holds;
      if c[q] == '\\' {
        ScanShift(d, n, c, q + 2);
        assert n + q + 2 == n + (q + 2);
      } else if c[q] != '\"' {
        ScanShift(d, n, c, q + 1);
        assert n + q + 1 == n + (q + 1);
      }
    }
  }

  lemma StringShift(d: string, n: nat, c: string, i: nat)
    requires Holds(d, n, c) && i < |c|
    ensures n + i < |d| && ParseString(d, n + i) == Shift(ParseString(c, i), n)
  {
    hide ScanString, Decode;
    assert d[n + i] == c[i];
    ScanShift(d, n, c, i + 1);
    if ScanString(c, i + 1).Closed? {
      var end := ScanString(c, i + 1).end;
      forall k | i + 1 <= k <= end ensures d[n + (i + 1) + k - (i + 1)] == c[k] { assert d[n + k] == c[k]; }
      DecodeMoves(c, i + 1, end, d, n + (i + 1));
    }
  }

  lemma {:induction false} ValueShift(d: string, n: nat, c: string, i: nat, depth: nat)
    requires Holds(d, n, c) && i < |c|
    ensures Terminated(d) && n + i < |d| && ParseValue(d, n + i, depth) == Shift(ParseValue(c, i, depth), n)
    decreases |c| - i, 0
  {
    hide Holds, Reads, ParseString, ParseNumber, ParseItems, ParseMembers, Skip;
    HoldsAt(d, n, c, i);
    ReadsShift(d, n, c, i, "null");
    ReadsShift(d, n, c, i, "false");
    ReadsShift(d, n, c, i, "true");
    if c[i] == '\"' {
      StringShift(d, n, c, i);
    } else if c[i] == '-' || IsDigit(c[i]) {
      NumberShift(d, n, c, i);
    } else if (c[i] == '[' || c[i] == '{') && depth < NESTING_LIMIT {
      InsideBounds(c, i);
      SkipShift(d, n, c, i + 1);
      HoldsAt(d, n, c, Skip(c, i + 1));
      if c[i] == '[' {
        ItemsShift(d, n, c, Skip(c, i + 1), depth + 1);
      } else {
        MembersShift(d, n, c, Skip(c, i + 1), depth + 1);
      }
    }
  }

  // The terminating NUL is behind every other byte.
  lemma InsideBounds(c: string, i: nat)
    requires Terminated(c) && i < |c| && c[i] != '\0'
    ensures i + 1 < |c|
  {}

  lemma {:induction false} ItemsShift(d: string, n: nat, c: string, i: nat, depth: nat)
    requires Holds(d, n, c) && i < |c| && Terminated(c)
    ensures Terminated(d) && n + i < |d| && ParseItems(d, n + i, depth) == Shift(ParseItems(c, i, depth), n)
    decreases |c| - i, 1
  {
    hide Holds, ParseValue, Skip;
    HoldsAt(d, n, c, i);
    SkipShift(d, n, c, i);
    var j := Skip(c, i);
    ValueShift(d, n, c, j, depth);
    if ParseValue(c, j, depth).Parsed? {
      var k := ParseValue(c, j, depth).next;
      SkipShift(d, n, c, k);
      HoldsAt(d, n, c, Skip(c, k));
      if c[Skip(c, k)] == ',' {
        InsideBounds(c, Skip(c, k));
        ItemsShift(d, n, c, Skip(c, k) + 1, depth);
      }
    }
  }

  lemma {:induction false} MemberShift(d: string, n: nat, c: string, i: nat, depth: nat)
    requires Holds(d, n, c) && i < |c| && Terminated(c)
    ensures Terminated(d) && n + i < |d| && ParseMember(d, n + i, depth) == Shift(ParseMember(c, i, depth), n)
    decreases |c| - i, 1
  {
    hide Holds, ParseValue, ParseString, Skip;
    HoldsAt(d, n, c, i);
    SkipShift(d, n, c, i);
    StringShift(d, n, c, Skip(c, i));
    if ParseString(c, Skip(c, i)).Parsed? {
      var k := ParseString(c, Skip(c, i)).next;
      StringBounds(c, Skip(c, i));
      SkipShift(d, n, c, k);
      var m := Skip(c, k);
      HoldsAt(d, n, c, m);
      if c[m] == ':' {
        InsideBounds(c, m);
        SkipShift(d, n, c, m + 1);
        ValueShift(d, n, c, Skip(c, m + 1), depth);
      }
    }
  }

  lemma StringBounds(c: string, i: nat)
    requires Terminated(c) && i < |c| && ParseString(c, i).Parsed?
    ensures i < ParseString(c, i).next < |c|
  {
    hide Decode, ScanString;
  }

  lemma {:induction false} MembersShift(d: string, n: nat, c: string, i: nat, depth: nat)
    requires Holds(d, n, c) && i < |c| && Terminated(c)
    ensures Terminated(d) && n + i < |d| && ParseMembers(d, n + i, depth) == Shift(ParseMembers(c, i, depth), n)
    decreases |c| - i, 2
  {
    hide Holds, ParseMember, Skip;
    HoldsAt(d, n, c, i);
    MemberShift(d, n, c, i, depth);
    if ParseMember(c, i, depth).Parsed? {
      var k := ParseMember(c, i, depth).next;
      SkipShift(d, n, c, k);
      HoldsAt(d, n, c, Skip(c, k));
      if c[Skip(c, k)] == ',' {
        InsideBounds(c, Skip(c, k));
        MembersShift(d, n, c, Skip(c, k) + 1, depth);
      }
    }
  }

  predicate Marked(t: string) { |t| >= 3 && t[..3] == BYTE_ORDER_MARK }

  // One mark in front of a text is passed over: the same tree comes out, and parsing
  // ends three bytes later. A second mark makes any text unacceptable.
  lemma MarkIsIgnored(t: CString, toTheEnd: bool)
    ensures BYTE_ORDER_MARK == [0xEF as char, 0xBB as char, 0xBF as char]
    ensures '\0' !in BYTE_ORDER_MARK + t
    ensures ParseText(BYTE_ORDER_MARK + t, toTheEnd) ==
      if Marked(t) || ParseText(t, toTheEnd).None? then None
      else Some((ParseText(t, toTheEnd).value.0, 3 + ParseText(t, toTheEnd).value.1))
  {
    hide ParseValue, Skip;
    var c, d := t + "\0", BYTE_ORDER_MARK + t + "\0";
    assert Holds(d, 3, c);
    SkipShift(d, 3, c, 0);
    var i := Skip(c, 0);
    ValueShift(d, 3, c, i, 0);
    NoMarkValue(c, 0);
    NoMarkValue(d, 0);
    assert d[..3] == BYTE_ORDER_MARK;
    assert |t| >= 3 ==> c[..3] == t[..3];
    if ParseValue(c, i, 0).Parsed? {
      var k := ParseValue(c, i, 0).next;
      SkipShift(d, 3, c, k);
      HoldsAt(d, 3, c, Skip(c, k));
    }
  }

  // No value starts with a mark.
  lemma NoMarkValue(c: string, depth: nat)
    requires Terminated(c)
    ensures c[0] == BYTE_ORDER_MARK[0] ==> Skip(c, 0) == 0 && ParseValue(c, 0, depth) == Failed
  {}
}
