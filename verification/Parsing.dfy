/**
  What the parser computes, as functions of the buffer, an offset and the nesting
  depth. The buffer ends in a NUL, as cJSON_ParseWithOpts arranges.
  */
module Parsing {
  import opened Text
  import opened Decimals
  import opened Strings
  import opened Values

  const NESTING_LIMIT := 1000
  const NUMBER_BUFFER := 63

  predicate Terminated(c: string) { |c| > 0 && c[|c| - 1] == '\0' }

  // The buffer of a C string.
  predicate Buffer(c: string) { Terminated(c) && forall k | 0 <= k < |c| - 1 :: c[k] != '\0' }

  predicate IsBlank(b: char) { b <= ' ' }

  function SkipBlanks(c: string, i: nat): (j: nat)
    requires i <= |c|
    ensures i <= j <= |c| && (j < |c| ==> !IsBlank(c[j]))
    decreases |c| - i
  {
    if i < |c| && IsBlank(c[i]) then SkipBlanks(c, i + 1) else i
  }

  // At the end of the buffer the skip steps back onto the last byte.
  function Skip(c: string, i: nat): (j: nat)
    requires i < |c|
    ensures i <= j < |c|
  {
    var j := SkipBlanks(c, i);
    if j == |c| then j - 1 else j
  }

  lemma {:induction false} SkippedBlank(c: string, i: nat)
    requires i < |c|
    ensures forall x | i <= x < Skip(c, i) :: IsBlank(c[x])
    decreases |c| - i
  {
    if i + 1 < |c| && IsBlank(c[i]) { SkippedBlank(c, i + 1); }
  }

  // What may stand behind a value in an accepted text, blanks aside.
  predicate Delimited(c: string, k: nat)
    requires k < |c|
  {
    var b := c[Skip(c, k)]; b == ',' || b == ']' || b == '}' || b == '\0'
  }

  // The characters copied for strtod: at most `room` of them.
  function NumberEnd(c: string, i: nat, room: nat): (j: nat)
    requires i <= |c|
    ensures i <= j <= |c| && j <= i + room
    ensures forall k | i <= k < j :: IsNumberChar(c[k])
    decreases room
  {
    if room > 0 && i < |c| && IsNumberChar(c[i]) then NumberEnd(c, i + 1, room - 1) else i
  }

  function ParseNumber(c: string, i: nat): (r: Parse<Number>)
    requires i < |c|
    ensures r.Parsed? ==> i < r.next <= |c| && IsNumberChar(c[r.next - 1])
  {
    var (n, d) := Strtod(c[i..NumberEnd(c, i, NUMBER_BUFFER)]);
    if n == 0 then Failed else Parsed(d, i + n)
  }

  predicate Reads(c: string, i: nat, word: string) {
    i + |word| <= |c| && c[i..i + |word|] == word
  }

  function ParseValue(c: string, i: nat, depth: nat): (r: Parse<Value>)
    requires Terminated(c) && i < |c|
    ensures r.Parsed? ==> i < r.next < |c|
    decreases |c| - i, 0
  {
    if Reads(c, i, "null") then Parsed(Null, i + 4)
    else if Reads(c, i, "false") then Parsed(False, i + 5)
    else if Reads(c, i, "true") then Parsed(True, i + 4)
    else if c[i] == '\"' then
      match ParseString(c, i) case Failed => Failed case Parsed(s, k) => Parsed(Str(s), k)
    else if c[i] == '-' || IsDigit(c[i]) then
      match ParseNumber(c, i) case Failed => Failed case Parsed(d, k) => Parsed(Num(d), k)
    else if c[i] == '[' then ParseArray(c, i, depth)
    else if c[i] == '{' then ParseObject(c, i, depth)
    else Failed
  }

  function ParseArray(c: string, i: nat, depth: nat): (r: Parse<Value>)
    requires Terminated(c) && i < |c| && c[i] == '['
    ensures r.Parsed? ==> i < r.next < |c|
    decreases |c| - i - 1, 3
  {
    if depth >= NESTING_LIMIT then Failed
    else
      var j := Skip(c, i + 1);
      if c[j] == ']' then Parsed(Array([]), j + 1)
      else
        match ParseItems(c, j, depth + 1) case Failed => Failed case Parsed(items, k) => Parsed(Array(items), k)
  }

  // One or more values from `i` on, up to and including the closing bracket.
  function ParseItems(c: string, i: nat, depth: nat): (r: Parse<seq<Value>>)
    requires Terminated(c) && i < |c|
    ensures r.Parsed? ==> i < r.next < |c| && r.value != []
    decreases |c| - i, 1
  {
    match ParseValue(c, Skip(c, i), depth)
    case Failed => Failed
    case Parsed(v, k) =>
      var m := Skip(c, k);
      if c[m] == ',' then
        match ParseItems(c, m + 1, depth) case Failed => Failed case Parsed(rest, e) => Parsed([v] + rest, e)
      else if c[m] == ']' then Parsed([v], m + 1)
      else Failed
  }

  function ParseObject(c: string, i: nat, depth: nat): (r: Parse<Value>)
    requires Terminated(c) && i < |c| && c[i] == '{'
    ensures r.Parsed? ==> i < r.next < |c|
    decreases |c| - i - 1, 3
  {
    if depth >= NESTING_LIMIT then Failed
    else
      var j := Skip(c, i + 1);
      if c[j] == '}' then Parsed(Object([]), j + 1)
      else
        match ParseMembers(c, j, depth + 1) case Failed => Failed case Parsed(ms, k) => Parsed(Object(ms), k)
  }

  // A name, a colon and a value.
  function ParseMember(c: string, i: nat, depth: nat): (r: Parse<Member>)
    requires Terminated(c) && i < |c|
    ensures r.Parsed? ==> i < r.next < |c|
    decreases |c| - i, 1
  {
    match ParseString(c, Skip(c, i))
    case Failed => Failed
    case Parsed(key, k) =>
      var m := Skip(c, k);
      if c[m] != ':' then Failed
      else
        match ParseValue(c, Skip(c, m + 1), depth)
        case Failed => Failed
        case Parsed(v, e) => Parsed(Member(key, v), e)
  }

  function ParseMembers(c: string, i: nat, depth: nat): (r: Parse<seq<Member>>)
    requires Terminated(c) && i < |c|
    ensures r.Parsed? ==> i < r.next < |c| && r.value != []
    decreases |c| - i, 2
  {
    match ParseMember(c, i, depth)
    case Failed => Failed
    case Parsed(member, k) =>
      var m := Skip(c, k);
      if c[m] == ',' then
        match ParseMembers(c, m + 1, depth) case Failed => Failed case Parsed(rest, e) => Parsed([member] + rest, e)
      else if c[m] == '}' then Parsed([member], m + 1)
      else Failed
  }

  const BYTE_ORDER_MARK: string := [0xEF as char, 0xBB as char, 0xBF as char]

  function AfterMark(c: string): (i: nat)
    requires |c| > 0
    ensures i < |c|
  {
    if |c| > 4 && c[..3] == BYTE_ORDER_MARK then 3 else 0
  }

  // The tree of a whole buffer and where parsing ended.
  function Rooted(c: string, toTheEnd: bool): (r: Parse<Value>)
    requires Terminated(c)
  {
    match ParseValue(c, Skip(c, AfterMark(c)), 0)
    case Failed => Failed
    case Parsed(v, k) =>
      if !toTheEnd then Parsed(v, k)
      else if c[Skip(c, k)] != '\0' then Failed
      else Parsed(v, Skip(c, k))
  }

  // cJSON_ParseWithOpts.
  function ParseText(text: CString, toTheEnd: bool): (r: Option<(Value, nat)>)
    ensures r.Some? ==> r.value.1 <= |text|
  {
    match Rooted(text + "\0", toTheEnd) case Failed => None case Parsed(v, k) => Some((v, k))
  }

  // ---------- What the parser yields ----------

  // A parsed tree never nests deeper than the limit, and holds no raw item.
  lemma {:induction false} ParsedTree(c: string, i: nat, depth: nat)
    requires Terminated(c) && i < |c| && depth <= NESTING_LIMIT
    ensures ParseValue(c, i, depth).Parsed? ==>
      var v := ParseValue(c, i, depth).value; depth + Height(v) <= NESTING_LIMIT && Standard(v)
    decreases |c| - i, 0
  {
    hide ParseString, ParseNumber, ParseItems, ParseMembers;
    if depth < NESTING_LIMIT {
      if c[i] == '[' {
        ParsedItems(c, Skip(c, i + 1), depth + 1);
      } else if c[i] == '{' {
        ParsedMembers(c, Skip(c, i + 1), depth + 1);
      }
    }
  }

  lemma {:induction false} ParsedItems(c: string, i: nat, depth: nat)
    requires Terminated(c) && i < |c| && depth <= NESTING_LIMIT
    ensures ParseItems(c, i, depth).Parsed? ==>
      var items := ParseItems(c, i, depth).value; depth + ItemsHeight(items) <= NESTING_LIMIT && ItemsStandard(items)
    decreases |c| - i, 1
  {
    hide ParseValue, Height, Standard;
    var r := ParseItems(c, i, depth);
    if r.Parsed? {
      ParsedTree(c, Skip(c, i), depth);
      var m := Skip(c, ParseValue(c, Skip(c, i), depth).next);
      if c[m] == ',' {
        ParsedItems(c, m + 1, depth);
        assert r.value[1..] == ParseItems(c, m + 1, depth).value;
      }
    }
  }

  lemma {:induction false} ParsedMember(c: string, i: nat, depth: nat)
    requires Terminated(c) && i < |c| && depth <= NESTING_LIMIT
    ensures ParseMember(c, i, depth).Parsed? ==>
      var v := ParseMember(c, i, depth).value.value; depth + Height(v) <= NESTING_LIMIT && Standard(v)
    decreases |c| - i, 1
  {
    hide ParseString, Height, Standard, ParseValue;
    if ParseMember(c, i, depth).Parsed? {
      var key := ParseString(c, Skip(c, i));
      ParsedTree(c, Skip(c, Skip(c, key.next) + 1), depth);
    }
  }

  lemma {:induction false} ParsedMembers(c: string, i: nat, depth: nat)
    requires Terminated(c) && i < |c| && depth <= NESTING_LIMIT
    ensures ParseMembers(c, i, depth).Parsed? ==>
      var ms := ParseMembers(c, i, depth).value; depth + MembersHeight(ms) <= NESTING_LIMIT && MembersStandard(ms)
    decreases |c| - i, 2
  {
    hide ParseMember, Height, Standard;
    var r := ParseMembers(c, i, depth);
    if r.Parsed? {
      ParsedMember(c, i, depth);
      var m := Skip(c, ParseMember(c, i, depth).next);
      if c[m] == ',' {
        ParsedMembers(c, m + 1, depth);
        assert r.value[1..] == ParseMembers(c, m + 1, depth).value;
      }
    }
  }
}
