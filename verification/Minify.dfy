/**
  cJSON_Minify: the text it leaves behind, and the method that produces it in place.
  */
module Minify {
  import opened Text

  // ---------- What is skipped and what is copied ----------

  predicate IsStripped(b: char) { b == ' ' || b == '\t' || b == '\r' || b == '\n' }

  // Behind the line end that closes a one-line comment, from `i` on.
  function LineEnd(t: string, i: nat): (j: nat)
    requires i <= |t|
    ensures i <= j <= |t|
    decreases |t| - i
  {
    if i == |t| then i else if t[i] == '\n' then i + 1 else LineEnd(t, i + 1)
  }

  // Behind the mark that closes a multi-line comment, from `i` on.
  function BlockEnd(t: string, i: nat): (j: nat)
    requires i <= |t|
    ensures i <= j <= |t|
    decreases |t| - i
  {
    if i == |t| then i
    else if t[i] == '*' && i + 1 < |t| && t[i + 1] == '/' then i + 2
    else BlockEnd(t, i + 1)
  }

  // `j` is behind the first line end from `i` on, or the end of a text without one.
  predicate BehindLine(t: string, i: nat, j: nat)
    requires i <= j <= |t|
  {
    && (forall k | i <= k < j - 1 :: t[k] != '\n')
    && ((i < j && t[j - 1] == '\n') || (j == |t| && forall k | i <= k < j :: t[k] != '\n'))
  }

  predicate Closes(t: string, k: nat)
    requires k < |t|
  {
    t[k] == '*' && k + 1 < |t| && t[k + 1] == '/'
  }

  // `j` is behind the first closing mark from `i` on, or the end of a text without one.
  predicate BehindBlock(t: string, i: nat, j: nat)
    requires i <= j <= |t|
  {
    && (forall k | i <= k < j - 2 :: !Closes(t, k))
    && ((i <= j - 2 && Closes(t, j - 2)) || (j == |t| && forall k | i <= k < j :: !Closes(t, k)))
  }

  lemma {:induction false} LineEnds(t: string, i: nat)
    requires i <= |t|
    ensures BehindLine(t, i, LineEnd(t, i))
    decreases |t| - i
  {
    if i < |t| && t[i] != '\n' { LineEnds(t, i + 1); }
  }

  lemma {:induction false} BlockEnds(t: string, i: nat)
    requires i <= |t|
    ensures BehindBlock(t, i, BlockEnd(t, i))
    decreases |t| - i
  {
    if i < |t| && !Closes(t, i) { BlockEnds(t, i + 1); }
  }

  // Where the string copy that is at `k` ends: behind the next quote that no
  // backslash precedes, or at the end of the text.
  function CopyEnd(t: string, k: nat): (j: nat)
    requires k <= |t|
    ensures k <= j <= |t|
    decreases |t| - k
  {
    if k == |t| then k
    else if t[k] == '\"' then k + 1
    else if t[k] == '\\' && k + 1 < |t| && t[k + 1] == '\"' then CopyEnd(t, k + 2)
    else CopyEnd(t, k + 1)
  }

  // What the text from `i` on, outside a string, is reduced to.
  function Minified(t: string, i: nat): (m: string)
    requires i <= |t|
    ensures |m| <= |t| - i
    decreases |t| - i
  {
    if i == |t| then ""
    else if IsStripped(t[i]) then Minified(t, i + 1)
    else if t[i] == '/' then
      if i + 1 < |t| && t[i + 1] == '/' then Minified(t, LineEnd(t, i + 2))
      else if i + 1 < |t| && t[i + 1] == '*' then Minified(t, BlockEnd(t, i + 2))
      else Minified(t, i + 1)
    else if t[i] == '\"' then t[i..CopyEnd(t, i + 1)] + Minified(t, CopyEnd(t, i + 1))
    else [t[i]] + Minified(t, i + 1)
  }

  // ---------- In place ----------

  // From index `i` on, `a` still holds the text `t` and its terminating NUL.
  ghost predicate Pending(a: array<char>, t: CString, i: nat)
    reads a
  {
    |t| < a.Length && a[|t|] == '\0' && forall k | i <= k < |t| :: a[k] == t[k]
  }

  method SkipOnelineComment(a: array<char>, input: nat, ghost t: CString) returns (next: nat)
    requires input + 2 <= |t| && Pending(a, t, input)
    ensures next == LineEnd(t, input + 2) && BehindLine(t, input + 2, next)
  {
    LineEnds(t, input + 2);
    next := input + 2;
    while a[next] != '\0'
      invariant input + 2 <= next <= |t| && LineEnd(t, next) == LineEnd(t, input + 2)
      decreases |t| - next
    {
      if a[next] == '\n' {
        return next + 1;
      }
      next := next + 1;
    }
  }

  method SkipMultilineComment(a: array<char>, input: nat, ghost t: CString) returns (next: nat)
    requires input + 2 <= |t| && Pending(a, t, input)
    ensures next == BlockEnd(t, input + 2) && BehindBlock(t, input + 2, next)
  {
    BlockEnds(t, input + 2);
    next := input + 2;
    while a[next] != '\0'
      invariant input + 2 <= next <= |t| && BlockEnd(t, next) == BlockEnd(t, input + 2)
      decreases |t| - next
    {
      if a[next] == '*' && a[next + 1] == '/' {
        return next + 2;
      }
      next := next + 1;
    }
  }

  // The buffer `was` after the part of `t` from `input` to `next` was moved to `output`.
  function Moved(was: string, output: nat, t: string, input: nat, next: nat): (r: string)
    requires output <= input <= next <= |t| < |was|
    ensures |r| == |was|
  {
    Overlay(was, output, t[input..next])
  }

  // The original buffer holds the text behind the output cursor.
  ghost predicate Behind(was: string, t: string, output: nat) {
    output <= |t| < |was| && (forall k | output <= k < |t| :: was[k] == t[k]) && was[|t|] == '\0'
  }

  lemma StartMove(a: array<char>, output: nat, t: CString, input: nat)
    requires output <= input < |t| && Pending(a, t, output)
    ensures |t| < a.Length && Behind(a[..], t, output)
    ensures a[..] == Moved(a[..], output, t, input, input)
    ensures a[input] == t[input]
  {}

  lemma MoveOne(was: string, output: nat, t: string, input: nat, next: nat)
    requires output <= input <= next < |t| < |was|
    ensures Moved(was, output, t, input, next)[output + next - input := t[next]] ==
      Moved(was, output, t, input, next + 1)
    ensures Moved(was, output, t, input, next + 1)[output + next - input] == t[next]
  {}

  // Behind the written part the buffer still holds the text.
  lemma Unread(was: string, output: nat, t: string, input: nat, next: nat)
    requires output <= input <= next <= |t| && Behind(was, t, output)
    ensures var a := Moved(was, output, t, input, next);
      && (next < |t| ==> a[next] == t[next]) && (next + 1 < |t| ==> a[next + 1] == t[next + 1]) && a[|t|] == '\0'
  {}

  lemma CopyStep(t: string, k: nat)
    requires k < |t|
    ensures t[k] == '\"' ==> CopyEnd(t, k) == k + 1
    ensures t[k] == '\\' && k + 1 < |t| && t[k + 1] == '\"' ==> CopyEnd(t, k) == CopyEnd(t, k + 2)
    ensures t[k] != '\"' && !(t[k] == '\\' && k + 1 < |t| && t[k + 1] == '\"') ==> CopyEnd(t, k) == CopyEnd(t, k + 1)
  {}

  lemma CopyStop(t: CString)
    ensures CopyEnd(t, |t|) == |t|
  {}

  // Copies a string token down to `output`. Nothing else changes, so the read cursor
  // is never overtaken.
  method MinifyString(a: array<char>, input: nat, output: nat, ghost t: CString) returns (next: nat, written: nat)
    requires output <= input < |t| && t[input] == '\"' && Pending(a, t, output)
    modifies a
    ensures next == CopyEnd(t, input + 1) && written == output + next - input
    ensures a[..] == Moved(old(a[..]), output, t, input, next)
  {
    hide *;
    ghost var was := a[..];
    StartMove(a, output, t, input);
    MoveOne(was, output, t, input, input);
    a[output] := a[input];
    next, written := input + 1, output + 1;
    Unread(was, output, t, input, next);
    while a[next] != '\0'
      invariant input < next <= |t| && written == output + next - input
      invariant CopyEnd(t, next) == CopyEnd(t, input + 1)
      invariant a[..] == Moved(was, output, t, input, next)
      decreases |t| - next
    {
      Unread(was, output, t, input, next);
      CopyStep(t, next);
      NotNul(t, next);
      MoveOne(was, output, t, input, next);
      a[written] := a[next];
      if a[next] == '\"' {
        a[written] := '\"';
        return next + 1, written + 1;
      } else if a[next] == '\\' && a[next + 1] == '\"' {
        MoveOne(was, output, t, input, next + 1);
        a[written + 1] := a[next + 1];
        next, written := next + 1, written + 1;
      }
      next, written := next + 1, written + 1;
    }
    Unread(was, output, t, input, next);
    CopyStop(t);
    if next < |t| { NotNul(t, next); }
  }

  lemma StillPending(a: array<char>, was: string, out: string, t: CString, i: nat)
    requires |out| <= i <= |t| < |was| && a[..] == Overlay(was, 0, out)
    requires Behind(was, t, 0)
    ensures Pending(a, t, i)
  {}

  lemma NotNul(t: CString, i: nat)
    requires i < |t|
    ensures t[i] != '\0'
  {}

  lemma MinifyStep(t: string, i: nat)
    requires i < |t|
    ensures IsStripped(t[i]) ==> Minified(t, i) == Minified(t, i + 1)
    ensures t[i] == '/' ==> Minified(t, i) == Minified(t,
              if i + 1 < |t| && t[i + 1] == '/' then LineEnd(t, i + 2)
              else if i + 1 < |t| && t[i + 1] == '*' then BlockEnd(t, i + 2) else i + 1)
    ensures t[i] == '\"' ==> Minified(t, i) == t[i..CopyEnd(t, i + 1)] + Minified(t, CopyEnd(t, i + 1))
    ensures !IsStripped(t[i]) && t[i] != '/' && t[i] != '\"' ==> Minified(t, i) == [t[i]] + Minified(t, i + 1)
  {}

  lemma StrippedBytes(b: char)
    ensures IsStripped(b) <==> b == ' ' || b == '\t' || b == '\r' || b == '\n'
  {}

  // The whole new state of the buffer: the minified text, a NUL, and behind it
  // whatever the buffer held there before.
  method Minify(a: array<char>, ghost t: CString)
    requires Pending(a, t, 0)
    modifies a
    ensures a[..] == Overlay(old(a[..]), 0, Minified(t, 0) + "\0")
  {
    hide *;
    ghost var was, out := a[..], "";
    OverlayNone(was, 0);
    StartMinify(a, t);
    var json, into := 0, 0;
    while a[json] != '\0'
      invariant 0 <= into <= json <= |t| && into == |out|
      invariant out + Minified(t, json) == Minified(t, 0)
      invariant a[..] == Overlay(was, 0, out)
      decreases |t| - json
    {
      StillPending(a, was, out, t, into);
      NotNul(t, json);
      MinifyStep(t, json);
      StrippedBytes(t[json]);
      if a[json] == ' ' || a[json] == '\t' || a[json] == '\r' || a[json] == '\n' {
        json := json + 1;
      } else if a[json] == '/' {
        if a[json + 1] == '/' {
          json := SkipOnelineComment(a, json, t);
        } else if a[json + 1] == '*' {
          json := SkipMultilineComment(a, json, t);
        } else {
          json := json + 1;
        }
      } else if a[json] == '\"' {
        ghost var start := json;
        json, into := MinifyString(a, json, into, t);
        MovedAppend(was, out, t, start, json);
        out := out + t[start..json];
      } else {
        a[into] := a[json];
        OverlayStep(was, 0, out, t[json]);
        out := out + [t[json]];
        json := json + 1;
        into := into + 1;
      }
    }
    StillPending(a, was, out, t, into);
    if json < |t| { NotNul(t, json); }
    MinifiedEnd(t);
    assert out == Minified(t, 0);
    a[into] := '\0';
    OverlayStep(was, 0, out, '\0');
  }

  lemma StartMinify(a: array<char>, t: CString)
    requires Pending(a, t, 0)
    ensures Behind(a[..], t, 0)
  {}

  lemma MinifiedEnd(t: string)
    ensures Minified(t, |t|) == ""
  {}

  lemma MovedAppend(was: string, out: string, t: string, input: nat, next: nat)
    requires |out| <= input <= next <= |t| < |was|
    ensures Moved(Overlay(was, 0, out), |out|, t, input, next) == Overlay(was, 0, out + t[input..next])
  {}
}
