/**
  The printer: a buffer that grows on demand, whose write position is recovered by
  looking for the terminating NUL.
  */
module Printing {
  import opened Text
  import opened Strings
  import opened Decimals
  import opened Values
  import opened Hooks
  import opened Nodes
  import opened Trees
  import opened Meanings

  // `n` doubled `times` times.
  function Doubled(n: nat, times: nat): (r: nat)
    ensures r >= n
  {
    if times == 0 then n else 2 * Doubled(n, times - 1)
  }

  // A buffer of at least one byte cannot grow more often.
  const MOST_GROWTHS := 32

  lemma DoubledMore(n: nat, times: nat)
    ensures Doubled(n, times + 1) == 2 * Doubled(n, times)
  {}

  lemma {:induction false} DoubledLess(n: nat, times: nat, k: nat)
    requires n > 0 && Doubled(n, times) < Doubled(1, k)
    ensures times < k
    decreases k
  {
    if times > 0 && k > 0 { DoubledLess(n, times - 1, k - 1); }
  }

  lemma DoubledOften(n: nat, times: nat)
    requires n > 0 && Doubled(n, times) <= INT_MAX
    ensures times < MOST_GROWTHS - 1
  {
    assert Doubled(1, 8) == 0x100;
    assert Doubled(1, 16) == 0x1_0000;
    assert Doubled(1, 24) == 0x100_0000;
    assert Doubled(1, 31) == 0x8000_0000;
    DoubledLess(n, times, 31);
  }

  class PrintBuffer {
    var buffer: array?<char>
    var length: nat
    var offset: nat
    var depth: nat
    const noalloc: bool
    const format: bool
    const hooks: Hooks

    // The size at the start, the requests made and the bytes moved before it, and
    // whether the last growth had to settle for INT_MAX.
    ghost const initial: nat
    ghost const began: nat
    ghost const movedBefore: nat
    ghost var jumped: bool

    ghost predicate Valid()
      reads this, hooks
    {
      && (buffer != null ==> offset <= length <= buffer.Length && length <= INT_MAX)
      && (buffer != null && !noalloc ==> buffer.Length == length)
      && (buffer != null && !noalloc ==> buffer in hooks.live && length > 0)
      && (noalloc ==> buffer != null)
      && (!noalloc ==> initial > 0)
      && began <= hooks.requests && movedBefore <= hooks.moved
      && if buffer != null then Accounted() else hooks.requests <= began + MOST_GROWTHS
    }

    // Each request was one growth. Every growth more than doubles the buffer, but for one
    // last jump to INT_MAX, and the bytes moved are at most twice the buffer's length.
    ghost predicate Accounted()
      requires began <= hooks.requests
      reads `length, `jumped, hooks`requests, hooks`moved
    {
      var growths, copied := hooks.requests - began, hooks.moved - movedBefore;
      && (!jumped ==> Doubled(initial, growths) <= length && copied <= length)
      && (jumped ==>
            length == INT_MAX && growths > 0 && Doubled(initial, growths - 1) <= length && copied <= 2 * length)
    }

    // The buffer is no larger than at the start, or at most twice what `n` bytes of text
    // and two more need.
    ghost predicate Lean(n: nat)
      reads `length
    {
      length <= initial || length <= 2 * (n + 2)
    }

    // The part of the caller's block that was not offered for printing.
    ghost function Beyond(): string
      reads `buffer, `length, buffer
    {
      if buffer == null || buffer.Length < length then "" else buffer[length..]
    }

    // The largest size the buffer can take.
    ghost function Limit(): nat
      reads this`length
    {
      if noalloc then length else INT_MAX
    }

    // The blocks in use apart from the buffer.
    ghost function OtherBlocks(): set<object>
      reads this`buffer, hooks`live
    {
      set o | o in hooks.live && o != buffer
    }

    // The buffer starts with the bytes `s`.
    ghost predicate Shows(s: string)
      reads this`buffer, buffer
    {
      buffer != null && |s| <= buffer.Length && forall k | 0 <= k < |s| :: buffer[k] == s[k]
    }

    constructor (block: array<char>, length: nat, noalloc: bool, format: bool, hooks: Hooks)
      requires length <= block.Length && length <= INT_MAX
      requires !noalloc ==> block in hooks.live && 0 < length == block.Length
      ensures Valid() && buffer == block && this.length == length && offset == 0 && depth == 0
      ensures this.noalloc == noalloc && this.format == format && this.hooks == hooks
      ensures initial == length && began == hooks.requests && movedBefore == hooks.moved
    {
      this.buffer, this.length, this.offset, this.depth := block, length, 0, 0;
      this.noalloc, this.format, this.hooks := noalloc, format, hooks;
      this.initial, this.began, this.movedBefore, this.jumped := length, hooks.requests, hooks.moved, false;
    }

    // Every request made since then was granted.
    twostate predicate Served()
      reads hooks
    {
      hooks.Granted(old(hooks.requests), hooks.requests)
    }

    lemma GrowthBound()
      requires Valid() && !noalloc && buffer != null
      ensures hooks.requests - began <= MOST_GROWTHS
      ensures length < INT_MAX ==> !jumped && hooks.requests - began < MOST_GROWTHS
    {
      hide Doubled;
      DoubledOften(initial, hooks.requests - began - if jumped then 1 else 0);
    }

    lemma CostBound()
      requires Valid() && !noalloc
      ensures hooks.requests <= began + MOST_GROWTHS
      ensures buffer != null ==> hooks.moved <= movedBefore + 2 * length
    {
      hide Doubled;
      if buffer != null { GrowthBound(); }
    }

    // A larger block with the bytes up to and including the offset. The old block is
    // given back, also when memory is refused.
    method Replace(newsize: nat) returns (newbuffer: array?<char>)
      requires buffer != null && buffer in hooks.live && offset < buffer.Length <= newsize
      modifies hooks
      ensures hooks.requests == old(hooks.requests) + 1 && (newbuffer != null <==> Served())
      ensures hooks.live == old(hooks.live) - {buffer} + if newbuffer == null then {} else {newbuffer}
      ensures old(hooks.moved) <= hooks.moved <= old(hooks.moved) + buffer.Length
      ensures newbuffer != null ==> fresh(newbuffer) && newbuffer.Length == newsize
      ensures newbuffer != null ==> forall k | 0 <= k <= offset :: newbuffer[k] == buffer[k]
    {
      if hooks.reallocates {
        newbuffer := hooks.Reallocate(buffer, newsize);
        if newbuffer == null {
          hooks.Deallocate(buffer);
        }
      } else {
        newbuffer := hooks.Allocate(newsize);
        if newbuffer != null {
          hooks.Copy(buffer, newbuffer, offset + 1);
        }
        hooks.Deallocate(buffer);
      }
    }

    // Replaces the buffer by a larger one. The bytes up to and including the offset
    // survive; when memory is refused the buffer is lost.
    method Grow(newsize: nat) returns (ok: bool)
      requires Valid() && !noalloc && buffer != null && offset < length < newsize <= INT_MAX
      requires newsize > 2 * length || newsize == INT_MAX
      modifies this, hooks
      ensures Valid() && offset == old(offset) && depth == old(depth)
      ensures ok <==> buffer != null
      ensures hooks.requests == old(hooks.requests) + 1 && (ok <==> Served())
      ensures ok ==> length == newsize == buffer.Length && fresh(buffer)
      ensures ok ==> forall k | 0 <= k <= offset :: buffer[k] == old(buffer[k])
      ensures OtherBlocks() == old(OtherBlocks())
    {
      hide Doubled;
      GrowthBound();
      DoubledMore(initial, hooks.requests - began);
      var newbuffer := Replace(newsize);
      if newbuffer == null {
        length := 0;
        buffer := null;
        return false;
      }
      jumped := newsize <= 2 * length;
      length := newsize;
      buffer := newbuffer;
      return true;
    }

    // There is room for `needed` bytes at the offset and one more, or it can be made.
    ghost predicate Fits(needed: nat)
      reads this
    {
      buffer != null && (length > 0 ==> offset < length) && offset + needed + 1 <= Limit()
    }

    // Makes room. Fails, leaving the buffer alone, exactly when the bytes do not fit,
    // unless memory is refused; the bytes up to and including the offset survive.
    method Ensure(needed: nat, ghost s: string) returns (ok: bool)
      requires Valid() && |s| <= offset && (buffer != null ==> Shows(s))
      modifies this, hooks
      ensures Valid() && offset == old(offset) && depth == old(depth)
      ensures ok <==> (old(Fits(needed)) && Served())
      ensures ok ==> offset + needed + 1 <= length
      ensures old(buffer) == null ==> buffer == null
      ensures old(hooks.requests) <= hooks.requests <= old(hooks.requests) + 1
      ensures old(buffer) != null ==> (buffer != null <==> Served())
      ensures !ok ==> buffer == old(buffer) || buffer == null
      ensures buffer == old(buffer) ==> length == old(length)
      ensures buffer != old(buffer) && buffer != null ==> fresh(buffer)
      ensures buffer != old(buffer) && buffer != null ==> (length > 2 * old(length) || length == INT_MAX)
      ensures buffer != old(buffer) && buffer != null ==> length <= 2 * (offset + needed + 1)
      ensures buffer != null ==> Beyond() == old(Beyond())
      ensures noalloc ==> buffer == old(buffer) && hooks.live == old(hooks.live)
      ensures noalloc ==> hooks.requests == old(hooks.requests)
      ensures OtherBlocks() == old(OtherBlocks()) && Limit() == old(Limit())
      ensures buffer != null && buffer != old(buffer) ==> forall k | 0 <= k <= offset :: buffer[k] == old(buffer[k])
      ensures buffer != null ==> Shows(s)
    {
      if buffer == null {
        return false;
      }
      if length > 0 && offset >= length {
        return false;
      }
      if needed > INT_MAX {
        return false;
      }
      var total := needed + offset + 1;
      if total <= length {
        return true;
      }
      if noalloc {
        return false;
      }
      var newsize;
      if total > INT_MAX / 2 {
        if total <= INT_MAX {
          newsize := INT_MAX;
        } else {
          return false;
        }
      } else {
        newsize := total * 2;
      }
      ok := Grow(newsize);
    }

    // strlen from the offset: moves the offset to the terminating NUL.
    method UpdateOffset(ghost s: string)
      requires Valid() && Shows(s + "\0") && offset <= |s| < length && '\0' !in s
      modifies this`offset
      ensures Valid() && offset == |s|
    {
      var n := offset;
      while buffer[n] != '\0'
        invariant offset <= n <= |s|
        decreases |s| - n
      {
        n := n + 1;
      }
      offset := n;
    }
 
    // ---------- What every print function promises ----------

    // The text `pre` has been written so far, and the offset stands behind it.
    ghost predicate Ready(pre: string)
      reads this, hooks, buffer
    {
      && buffer != null && Valid() && Lean(|pre|)
      && Shows(pre) && offset == |pre| && (length > 0 ==> offset < length) && '\0' !in pre
    }

    // Nothing but the buffer has changed hands.
    twostate predicate Framed()
      reads this, hooks, buffer
    {
      && Valid() && OtherBlocks() == old(OtherBlocks()) && Limit() == old(Limit())
      && (buffer == old(buffer) || buffer == null || fresh(buffer))
      && (buffer != null ==> Beyond() == old(Beyond()))
      && (noalloc ==> buffer == old(buffer) && hooks.live == old(hooks.live) && hooks.requests == old(hooks.requests))
      && old(hooks.requests) <= hooks.requests && (old(buffer) != null ==> (buffer != null <==> Served()))
    }

    // All blocks in use, seen from the buffer.
    lemma LiveBlocks()
      requires Valid() && !noalloc
      ensures hooks.live == OtherBlocks() + (if buffer == null then {} else {buffer})
      ensures buffer != null ==> hooks.live - {buffer} == OtherBlocks()
    {}

    // A step that leaves the buffer ready behind `s` exactly when `room` holds, unless
    // memory is refused.
    twostate predicate Advanced(ok: bool, room: bool, s: string, depthBy: nat)
      reads this, hooks, buffer
    {
      Framed() && (ok <==> (room && Served())) && (ok ==> Ready(s) && depth == old(depth) + depthBy)
    }

    // Printing the text `t` behind `pre` succeeds exactly when it can be printed at all
    // and fits with two bytes to spare, unless memory is refused. On success `t` and a
    // NUL stand behind `pre`, and the offset has not moved past `t`.
    twostate predicate Printed(ok: bool, printable: bool, pre: string, t: string)
      reads this, hooks, buffer
    {
      && Framed() && (ok <==> (printable && |pre| + |t| + 2 <= Limit() && Served()))
      && (ok ==> Shows(pre + t + "\0") && |pre| <= offset <= |pre| + |t| < length && depth == old(depth))
      && (ok ==> Lean(|pre| + |t|))
    }

    // Stores one byte at the output position `at`.
    method Put(at: nat, c: char, ghost s: string)
      requires Valid() && Shows(s) && at == |s| < length
      modifies buffer
      ensures Beyond() == old(Beyond())
      ensures Shows(s + [c])
    {
      buffer[at] := c;
    }

    // strcpy and memcpy: the bytes of `text` and a NUL.
    method PutText(at: nat, text: string, ghost s: string)
      requires Valid() && Shows(s) && at == |s| && at + |text| < length
      modifies buffer
      ensures Beyond() == old(Beyond())
      ensures Shows(s + text + "\0")
    {
      hide Accounted, Shows, Beyond;
      assert s + text[..0] == s;
      for k := 0 to |text|
        invariant Shows(s + text[..k]) && Beyond() == old(Beyond())
      {
        Put(at + k, text[k], s + text[..k]);
        assert s + text[..k] + [text[k]] == s + text[..k + 1];
      }
      assert s + text[..|text|] == s + text;
      Put(at + |text|, '\0', s + text);
    }

    method PutTabs(at: nat, count: nat, ghost s: string)
      requires Valid() && Shows(s) && at == |s| && at + count <= length
      modifies buffer
      ensures Beyond() == old(Beyond())
      ensures Shows(s + Tabs(count))
    {
      hide Accounted;
      for k := 0 to count
        invariant Valid() && Shows(s) && Beyond() == old(Beyond())
        invariant forall j | at <= j < at + k :: buffer[j] == '\t'
      {
        buffer[at + k] := '\t';
      }
      assert forall j | 0 <= j < at + count :: (s + Tabs(count))[j] == if j < at then s[j] else '\t';
    }

    // ---------- print_value and its helpers ----------

    method PrintText(text: string, ghost pre: string) returns (ok: bool)
      requires Ready(pre)
      modifies this, hooks, buffer
      ensures Printed(ok, true, pre, text)
    {
      hide Accounted, Beyond, Shows;
      ok := Ensure(|text| + 1, pre);
      if ok {
        PutText(offset, text, pre);
      }
    }

    method PrintNumber(d: Number, ghost pre: string) returns (ok: bool)
      requires Ready(pre)
      modifies this, hooks, buffer
      ensures Printed(ok, |NumberText(d)| <= 25, pre, NumberText(d))
    {
      hide Accounted, Beyond, NumberText, Shows;
      var number := NumberText(d);
      if |number| > 25 {
        return false;
      }
      ok := Ensure(|number| + 1, pre);
      if ok {
        PutText(offset, number, pre);
        offset := offset + |number|;
      }
    }
 
    // The first loop counts what escaping adds, the second one writes; the closing
    // quote goes where the count says.
    method PrintStringPtr(input: CString, ghost pre: string) returns (ok: bool)
      requires Ready(pre)
      modifies this, hooks, buffer
      ensures Printed(ok, true, pre, Quote(input))
    {
      hide Accounted, Beyond, Escape, Shows;
      var escapes := CountEscapes(input);
      ok := Ensure(|input| + escapes + 3, pre);
      if ok {
        WriteQuoted(input, escapes, pre);
      }
    }

    method WriteQuoted(input: CString, escapes: nat, ghost pre: string)
      requires Valid() && Shows(pre) && offset == |pre| && offset + |input| + escapes + 3 < length
      requires |input| + escapes == |Escape(input)| && (escapes == 0 ==> Escape(input) == input)
      modifies buffer
      ensures Beyond() == old(Beyond())
      ensures Shows(pre + Quote(input) + "\0")
    {
      hide Accounted, Beyond, Escape, Shows;
      var output, outputLength := offset, |input| + escapes;
      ghost var s := pre + "\"" + Escape(input);
      Put(output, '\"', pre);
      if escapes == 0 {
        PutText(output + 1, input, pre + "\"");
        ShowsLess(this, s, "\0");
      } else {
        WriteEscaped(output + 1, input, pre + "\"");
      }
      Put(output + outputLength + 1, '\"', s);
      Put(output + outputLength + 2, '\0', s + "\"");
      assert s + "\"" == pre + Quote(input);
    }

    // sprintf("u%04x"): five characters, and a NUL that the next store overwrites.
    method PutUnicode(at: nat, c: char, ghost s: string)
      requires Valid() && Shows(s) && at == |s| && at + 5 < length && c < ' '
      modifies buffer
      ensures Beyond() == old(Beyond())
      ensures Shows(s + ['u', '0', '0', HexDigit(c as nat / 16), HexDigit(c as nat % 16)])
    {
      buffer[at] := 'u';
      buffer[at + 1] := '0';
      buffer[at + 2] := '0';
      buffer[at + 3] := HexDigit(c as nat / 16);
      buffer[at + 4] := HexDigit(c as nat % 16);
      buffer[at + 5] := '\0';
    }

    // The body of the second loop: one byte, copied or escaped.
    method WriteChar(at: nat, c: char, ghost s: string) returns (next: nat)
      requires Valid() && Shows(s) && at == |s| && at + |EscapeChar(c)| + 1 < length
      modifies buffer
      ensures Beyond() == old(Beyond())
      ensures Shows(s + EscapeChar(c)) && next == at + |EscapeChar(c)|
    {
      EscapeIs(c);
      hide EscapeChar, Shows, HexDigit;
      assert s + ['\\'] + EscapeChar(c)[1..] == s + (['\\'] + EscapeChar(c)[1..]);
      next := at;
      if c > '\U{1F}' && c != '\"' && c != '\\' {
        Put(next, c, s);
      } else {
        Put(next, '\\', s);
        next := next + 1;
        if c == '\\' {
          Put(next, '\\', s + ['\\']);
        } else if c == '\"' {
          Put(next, '\"', s + ['\\']);
        } else if c == BACKSPACE {
          Put(next, 'b', s + ['\\']);
        } else if c == FORMFEED {
          Put(next, 'f', s + ['\\']);
        } else if c == '\n' {
          Put(next, 'n', s + ['\\']);
        } else if c == '\r' {
          Put(next, 'r', s + ['\\']);
        } else if c == '\t' {
          Put(next, 't', s + ['\\']);
        } else {
          PutUnicode(next, c, s + ['\\']);
          next := next + 4;
        }
      }
      next := next + 1;
    }

    method WriteEscaped(start: nat, input: CString, ghost s: string)
      requires Valid() && Shows(s) && start == |s| && start + |Escape(input)| + 1 < length
      modifies buffer
      ensures Beyond() == old(Beyond())
      ensures Shows(s + Escape(input))
    {
      hide EscapeFrom, EscapeChar, Escape, Shows;
      var output, i := start, 0;
      ghost var w := "";
      WholeEscape(input);
      assert s + w == s;
      while i < |input|
        invariant i <= |input| && output == start + |w| && w + EscapeFrom(input, i) == Escape(input)
        invariant Valid() && Shows(s + w) && Beyond() == old(Beyond())
      {
        EscapeStep(input, i);
        output := WriteChar(output, input[i], s + w);
        assert s + w + EscapeChar(input[i]) == s + (w + EscapeChar(input[i]));
        w := w + EscapeChar(input[i]);
        i := i + 1;
      }
      EscapeDone(input);
      assert w == Escape(input);
    }

    // `v` is the value the item stands for.
    method PrintValue(item: Node?, ghost kids: Forest, ghost v: Value, ghost pre: string) returns (ok: bool)
      requires Ready(pre) && (item != null ==> Stands(item, kids, v))
      modifies this, hooks, buffer
      ensures Printed(ok, item != null && Printable(v), pre, Render(v, format, old(depth)))
      decreases Size(kids), 3
    {
      if item == null || item.kind == Invalid {
        return false;
      }
      hide Ready, Printed, Escape, NumberText, RenderItems, RenderMembers, ItemsPrintable, MembersPrintable;
      hide Unfolds, AreItems, AreMembers, Size;
      match item.kind
      case IsNull => ok := PrintText("null", pre);
      case IsFalse => ok := PrintText("false", pre);
      case IsTrue => ok := PrintText("true", pre);
      case IsNumber => ok := PrintNumber(item.number, pre);
      case IsRaw => ok := PrintText(item.valuestring.text, pre);
      case IsString => ok := PrintStringPtr(item.valuestring.text, pre);
      case IsArray => ok := PrintArray(item, kids, v.items, pre);
      case IsObject => ok := PrintObject(item, kids, v.members, pre);
    }

    // ---------- Arrays ----------

    method OpenArray(ghost pre: string) returns (ok: bool)
      requires Ready(pre)
      modifies this, hooks, buffer
      ensures Advanced(ok, |pre| + 2 <= Limit(), pre + "[", 1)
    {
      hide Accounted, Shows, Beyond;
      ok := Ensure(1, pre);
      if ok {
        Put(offset, '[', pre);
        offset := offset + 1;
        depth := depth + 1;
      }
    }

    // A byte and, in formatted output, the byte that goes with it.
    method PutFormatted(at: nat, c: char, extra: char, ghost s: string)
      requires Valid() && Shows(s) && at == |s| && at + (if format then 2 else 1) < length
      modifies buffer
      ensures Beyond() == old(Beyond())
      ensures Shows(s + if format then [c, extra] else [c])
    {
      hide Shows;
      Put(at, c, s);
      if format {
        Put(at + 1, extra, s + [c]);
        assert s + [c] + [extra] == s + [c, extra];
      }
    }

    // The separator behind an element that is not the last one.
    method PrintComma(ghost s: string) returns (ok: bool)
      requires Ready(s)
      modifies this, hooks, buffer
      ensures Advanced(ok, |s| + |Comma(format)| + 2 <= Limit(), s + Comma(format), 0)
    {
      hide Accounted, Shows, Beyond;
      var length := if format then 2 else 1;
      ok := Ensure(length + 1, s);
      if ok {
        PutFormatted(offset, ',', ' ', s);
        Put(offset + length, '\0', s + Comma(format));
        ShowsLess(this, s + Comma(format), ['\0']);
        offset := offset + length;
      }
    }

    // A child's value, and the offset moved behind it.
    method PrintChild(item: Node, ghost kids: Forest, ghost v: Value, ghost s: string) returns (ok: bool)
      requires Ready(s) && Stands(item, kids, v)
      modifies this, hooks, buffer
      ensures var r := Render(v, format, old(depth));
        Advanced(ok, Printable(v) && |s| + |r| + 2 <= Limit(), s + r, 0)
      decreases Size(kids), 4
    {
      hide Accounted, Beyond, Render, Printable, Stands;
      ghost var r := Render(v, format, depth);
      ok := PrintValue(item, kids, v, s);
      if ok {
        RenderNulFree(v, format, depth);
        UpdateOffset(s + r);
        ShowsLess(this, s + r, "\0");
      }
    }

    method PrintElement(item: Node, ghost kids: Forest, ghost v: Value, last: bool, ghost s: string) returns (ok: bool)
      requires Ready(s) && Stands(item, kids, v)
      modifies this, hooks, buffer
      ensures var r, sep := Render(v, format, old(depth)), if last then "" else Comma(format);
        Advanced(ok, Printable(v) && |s| + |r| + 2 <= Limit() && (last || |s| + |r| + |sep| + 2 <= Limit()),
          s + r + sep, 0)
      decreases Size(kids), 5
    {
      hide Accounted, Beyond, Lean, Shows, Valid, OtherBlocks, Render, Printable, Stands, Comma;
      ghost var r := Render(v, format, depth);
      ok := PrintChild(item, kids, v, s);
      if last {
        assert s + r + "" == s + r;
      } else if ok {
        ok := PrintComma(s + r);
      }
    }

    // One round of the loop, for child `i`.
    method PrintNextItem(current: Node, ghost rest: Forest, ghost items: seq<Value>, ghost i: nat,
            ghost s: string) returns (ok: bool)
      requires Ready(s) && AtItem(current, rest, items, i) && i <= |items|
      modifies this, hooks, buffer
      ensures rest.Item? && AtItem(current.next, rest.rest, items, i + 1) && i < |items|
      ensures var r, sep := Render(items[i], format, old(depth)), if i + 1 == |items| then "" else Comma(format);
        Advanced(ok, Printable(items[i]) && |s| + |r| + |sep| + 2 <= Limit(), s + r + sep, 0)
      decreases Size(rest), 0
    {
      hide AtItem, Stands, Members, Size, Render, Printable, Ready, Comma;
      StepItem(current, rest, items, i);
      assert allocated(Members(rest.rest));
      ok := PrintElement(current, rest.kids, items[i], current.next == null, s);
    }

    method CloseArray(ghost s: string) returns (ok: bool)
      requires Ready(s) && depth > 0
      modifies this, hooks, buffer
      ensures Framed() && (ok <==> |s| + 3 <= Limit() && Served())
      ensures ok ==> Shows(s + "]" + "\0") && offset == |s| && |s| + 1 < length && depth == old(depth) - 1
      ensures ok ==> Lean(|s| + 1)
    {
      hide Accounted, Shows, Beyond;
      ok := Ensure(2, s);
      if ok {
        Put(offset, ']', s);
        Put(offset + 1, '\0', s + "]");
        depth := depth - 1;
      }
    }

    // The loop over the children.
    method PrintItems(first: Node?, ghost kids: Forest, ghost items: seq<Value>, ghost pre: string) returns (ok: bool)
      requires Ready(pre) && AtItem(first, kids, items, 0)
      modifies this, hooks, buffer
      ensures var body := ItemsFrom(items, 0, format, old(depth));
        Advanced(ok, ItemsPrintable(items) && (items == [] || |pre| + |body| + 2 <= Limit()), pre + body, 0)
      decreases Size(kids), 1
    {
      hide Accounted, Beyond, Lean, Shows, Render, RenderMember, Valid, OtherBlocks;
      hide ItemsFrom, Following, MembersFrom, Comma, MemberEnd;
      hide Printable, ItemsPrintable, MembersPrintable, Stands, Size, Members, AtItem;
      ghost var body, s := ItemsFrom(items, 0, format, depth), pre;
      PrintableItems(items);
      ok := true;
      var current := first;
      ghost var rest, i := kids, 0;
      while current != null
        invariant AtItem(current, rest, items, i) && Size(rest) <= Size(kids)
        invariant i <= |items| && Framed() && buffer != null && Ready(s) && depth == old(depth)
        invariant s + ItemsFrom(items, i, format, old(depth)) == pre + body
        invariant i > 0 ==> |s| + 2 <= Limit()
        invariant forall k | 0 <= k < i :: Printable(items[k])
        decreases Size(rest)
      {
        StepItem(current, rest, items, i);
        ItemsStep(items, i, format, depth);
        ghost var r, sep := Render(items[i], format, depth), if i + 1 == |items| then "" else Comma(format);
        ok := PrintNextItem(current, rest, items, i, s);
        if !ok {
          return;
        }
        s := s + r + sep;
        current, rest, i := current.next, rest.rest, i + 1;
      }
      StepItem(current, rest, items, i);
      ItemsDone(items, format, depth);
      assert s + "" == s;
      return true;
    }

    method PrintArray(item: Node, ghost kids: Forest, ghost items: seq<Value>, ghost pre: string) returns (ok: bool)
      requires Ready(pre) && Unfolds(item.child, kids) && AreItems(kids, items)
      modifies this, hooks, buffer
      ensures Printed(ok, ItemsPrintable(items), pre, Render(Array(items), format, old(depth)))
      decreases Size(kids), 2
    {
      hide Beyond, Lean, Shows, Render, Valid, OtherBlocks, ItemsFrom, ItemsPrintable;
      hide Size, Members, Unfolds, AreItems, AtItem;
      ghost var body := ItemsFrom(items, 0, format, depth + 1);
      ArrayStart(items, format, depth, pre);
      StartItems(item.child, kids, items);
      assert allocated(Members(kids));
      ok := OpenArray(pre);
      if ok {
        ok := PrintItems(item.child, kids, items, pre + "[");
        if ok {
          assert pre + "[" + body + "]" == pre + "[" + (body + "]");
          ok := CloseArray(pre + "[" + body);
        }
      }
    }

    // ---------- Objects ----------

    method OpenObject(ghost pre: string) returns (ok: bool)
      requires Ready(pre)
      modifies this, hooks, buffer
      ensures Advanced(ok, |pre| + |Brace(format)| + 2 <= Limit(), pre + Brace(format), 1)
    {
      hide Accounted, Shows;
      var length := if format then 2 else 1;
      ok := Ensure(length + 1, pre);
      if ok {
        PutFormatted(offset, '{', '\n', pre);
        depth := depth + 1;
        offset := offset + length;
      }
    }

    method PrintIndent(ghost s: string) returns (ok: bool)
      requires Ready(s)
      modifies this, hooks, buffer
      ensures Advanced(ok, !format || |s| + old(depth) + 1 <= Limit(), s + Indent(format, old(depth)), 0)
    {
      hide Accounted, Shows;
      ok := true;
      if format {
        ok := Ensure(depth, s);
        if ok {
          PutTabs(offset, depth, s);
          TabsNulFree(depth);
          offset := offset + depth;
        }
      } else {
        assert s + "" == s;
      }
    }

    method PrintKey(key: CString, ghost s: string) returns (ok: bool)
      requires Ready(s)
      modifies this, hooks, buffer
      ensures Advanced(ok, |s| + |Quote(key)| + 2 <= Limit(), s + Quote(key), 0)
    {
      hide Shows, Escape;
      EscapeNulFree(key);
      ReadyNulFree(this, s);
      ok := PrintStringPtr(key, s);
      if ok {
        UpdateOffset(s + Quote(key));
        ShowsLess(this, s + Quote(key), "\0");
      }
    }

    method PrintColon(ghost s: string) returns (ok: bool)
      requires Ready(s)
      modifies this, hooks, buffer
      ensures Advanced(ok, |s| + |Colon(format)| + 1 <= Limit(), s + Colon(format), 0)
    {
      hide Accounted, Shows;
      var length := if format then 2 else 1;
      ok := Ensure(length, s);
      if ok {
        PutFormatted(offset, ':', '\t', s);
        offset := offset + length;
      }
    }

    method PutMemberEnd(at: nat, last: bool, ghost s: string)
      requires Valid() && Shows(s) && at == |s| && at + |MemberEnd(format, last)| < length
      modifies buffer
      ensures Beyond() == old(Beyond())
      ensures Shows(s + MemberEnd(format, last) + "\0")
    {
      hide Accounted, Beyond, Shows;
      var output := at;
      ghost var w := s;
      if !last {
        Put(output, ',', w);
        output, w := output + 1, w + [','];
      }
      if format {
        Put(output, '\n', w);
        output, w := output + 1, w + ['\n'];
      }
      assert w == s + MemberEnd(format, last);
      Put(output, '\0', w);
    }

    // A comma if another member follows, a line end when formatted.
    method PrintMemberEnd(last: bool, ghost s: string) returns (ok: bool)
      requires Ready(s)
      modifies this, hooks, buffer
      ensures Advanced(ok, |s| + |MemberEnd(format, last)| + 2 <= Limit(), s + MemberEnd(format, last), 0)
    {
      hide Accounted, Shows, Beyond;
      var length := (if format then 1 else 0) + (if last then 0 else 1);
      ok := Ensure(length + 1, s);
      if ok {
        PutMemberEnd(offset, last, s);
        ShowsLess(this, s + MemberEnd(format, last), "\0");
        offset := offset + length;
      }
    }

    method PrintField(item: Node, ghost kids: Forest, ghost v: Value, ghost s: string) returns (ok: bool)
      requires Ready(s) && Stands(item, kids, v)
      modifies this, hooks, buffer
      ensures var f := Colon(format) + Render(v, format, old(depth));
        Advanced(ok, Printable(v) && |s| + |f| + 2 <= Limit(), s + f, 0)
      decreases Size(kids), 5
    {
      hide Accounted, Beyond, Lean, Shows, Valid, Limit, OtherBlocks, Render, Printable, Stands, Members, Colon;
      assert allocated(Members(kids));
      ghost var c, u := s + Colon(format), Render(v, format, depth);
      assert c + u == s + (Colon(format) + u);
      ok := PrintColon(s);
      if ok {
        ok := PrintChild(item, kids, v, c);
      }
    }

    // The indentation and the key.
    method PrintName(key: CString, ghost s: string) returns (ok: bool)
      requires Ready(s)
      modifies this, hooks, buffer
      ensures var t := s + Indent(format, old(depth)) + Quote(key);
        Advanced(ok, |t| + 2 <= Limit(), t, 0)
    {
      hide Beyond, Lean, Shows, Valid, Limit, OtherBlocks, Quote, Indent;
      IndentLength(format, depth);
      ok := PrintIndent(s);
      if ok {
        ok := PrintKey(key, s + Indent(format, depth));
      }
    }

    // One round of the loop: indentation, key, colon, value, end.
    method PrintMember(item: Node, ghost kids: Forest, ghost m: Member, last: bool, ghost s: string) returns (ok: bool)
      requires Ready(s) && Holds(item.key, m.key) && Stands(item, kids, m.value)
      modifies this, hooks, buffer
      ensures var r, end := RenderMember(m, format, old(depth)), MemberEnd(format, last);
        Advanced(ok, Printable(m.value) && |s| + |r| + |end| + 2 <= Limit(), s + r + end, 0)
      decreases Size(kids), 6
    {
      hide Beyond, Lean, Shows, Valid, Limit, OtherBlocks, Render, RenderMember, Printable;
      hide Quote, Indent, Colon, MemberEnd, Stands, Members;
      assert allocated(Members(kids));
      ghost var b, f := s + Indent(format, depth) + Quote(m.key), Colon(format) + Render(m.value, format, depth);
      MemberParts(m, format, depth, s);
      ok := PrintName(item.key.text, s);
      if !ok { return; }
      ok := PrintField(item, kids, m.value, b);
      if !ok { return; }
      ok := PrintMemberEnd(last, b + f);
    }

    method PrintNextMember(current: Node, ghost rest: Forest, ghost members: seq<Member>, ghost i: nat,
            ghost s: string) returns (ok: bool)
      requires Ready(s) && AtMember(current, rest, members, i) && i <= |members|
      modifies this, hooks, buffer
      ensures rest.Item? && AtMember(current.next, rest.rest, members, i + 1) && i < |members|
      ensures var r, end := RenderMember(members[i], format, old(depth)), MemberEnd(format, i + 1 == |members|);
        Advanced(ok, Printable(members[i].value) && |s| + |r| + |end| + 2 <= Limit(), s + r + end, 0)
      decreases Size(rest), 0
    {
      hide AtMember, Stands, Members, Size, RenderMember, Printable, Ready, MemberEnd;
      StepMember(current, rest, members, i);
      assert allocated(Members(rest.rest));
      ok := PrintMember(current, rest.kids, members[i], current.next == null, s);
    }

    method PutObjectEnd(at: nat, ghost s: string)
      requires Valid() && Shows(s) && at == |s| && depth > 0 && at + |Indent(format, depth - 1)| + 1 < length
      modifies buffer
      ensures Beyond() == old(Beyond())
      ensures Shows(s + (Indent(format, depth - 1) + "}") + "\0")
    {
      hide Accounted, Beyond, Shows;
      var output := at;
      ghost var tabs := Indent(format, depth - 1);
      if format {
        PutTabs(output, depth - 1, s);
        output := output + depth - 1;
      }
      assert s + "" == s;
      Put(output, '}', s + tabs);
      assert s + tabs + ['}'] == s + (tabs + "}");
      Put(output + 1, '\0', s + (tabs + "}"));
    }

    method CloseObject(ghost s: string) returns (ok: bool)
      requires Ready(s) && depth > 0
      modifies this, hooks, buffer
      ensures Framed() && (ok <==> |s| + |Indent(format, old(depth) - 1)| + 3 <= Limit() && Served())
      ensures ok ==> Shows(s + (Indent(format, old(depth) - 1) + "}") + "\0")
      ensures ok ==> offset == |s| && depth == old(depth) - 1
      ensures ok ==> |s| + |Indent(format, old(depth) - 1)| + 1 < length
      ensures ok ==> Lean(|s| + |Indent(format, old(depth) - 1)| + 1)
    {
      hide Accounted, Beyond, Shows;
      ok := Ensure(if format then depth + 1 else 2, s);
      if ok {
        PutObjectEnd(offset, s);
        depth := depth - 1;
      }
    }

    // The loop over the children.
    method PrintMembers(first: Node?, ghost kids: Forest, ghost members: seq<Member>,
            ghost pre: string) returns (ok: bool)
      requires Ready(pre) && AtMember(first, kids, members, 0)
      modifies this, hooks, buffer
      ensures var body := MembersFrom(members, 0, format, old(depth));
        Advanced(ok, MembersPrintable(members) && (members == [] || |pre| + |body| + 2 <= Limit()), pre + body, 0)
      decreases Size(kids), 1
    {
      hide Beyond, Lean, Shows, Render, RenderMember, Valid, OtherBlocks;
      hide ItemsFrom, Following, MembersFrom, Comma, MemberEnd;
      hide Printable, ItemsPrintable, MembersPrintable, Stands, Size, Members, AtMember;
      ghost var body, s := MembersFrom(members, 0, format, depth), pre;
      PrintableMembers(members);
      ok := true;
      var current := first;
      ghost var rest, i := kids, 0;
      while current != null
        invariant AtMember(current, rest, members, i) && Size(rest) <= Size(kids)
        invariant i <= |members| && Framed() && buffer != null && Ready(s) && depth == old(depth)
        invariant s + MembersFrom(members, i, format, old(depth)) == pre + body
        invariant i > 0 ==> |s| + 2 <= Limit()
        invariant forall k | 0 <= k < i :: Printable(members[k].value)
        decreases Size(rest)
      {
        StepMember(current, rest, members, i);
        MembersStep(members, i, format, depth);
        ghost var r, sep := RenderMember(members[i], format, depth), MemberEnd(format, i + 1 == |members|);
        ok := PrintNextMember(current, rest, members, i, s);
        if !ok {
          return;
        }
        s := s + r + sep;
        current, rest, i := current.next, rest.rest, i + 1;
      }
      StepMember(current, rest, members, i);
      MembersDone(members, format, depth);
      assert s + "" == s;
      return true;
    }

    method PrintObject(item: Node, ghost kids: Forest, ghost members: seq<Member>, ghost pre: string) returns (ok: bool)
      requires Ready(pre) && Unfolds(item.child, kids) && AreMembers(kids, members)
      modifies this, hooks, buffer
      ensures Printed(ok, MembersPrintable(members), pre, Render(Object(members), format, old(depth)))
      decreases Size(kids), 2
    {
      hide Beyond, Lean, Shows, Render, Valid, OtherBlocks, Brace, Indent, MembersFrom, MembersPrintable, Size, Members;
      hide Unfolds, AreMembers, AtMember;
      ghost var open, close := pre + Brace(format), Indent(format, depth) + "}";
      ghost var body := MembersFrom(members, 0, format, depth + 1);
      ObjectStart(members, format, depth, pre);
      StartMembers(item.child, kids, members);
      assert allocated(Members(kids));
      ok := OpenObject(pre);
      if ok {
        ok := PrintMembers(item.child, kids, members, open);
        if ok {
          assert open + body + close == open + (body + close);
          ok := CloseObject(open + body);
        }
      }
    }
  }

  // ---------- The entry points ----------

  const DEFAULT_BUFFER_SIZE := 256

  // print_value on a new buffer, which is freed again when printing fails.
  method PrintToBuffer(item: Node?, block: array<char>, format: bool, hooks: Hooks, ghost kids: Forest, ghost v: Value)
    returns (p: PrintBuffer?)
    requires item != null ==> Stands(item, kids, v)
    requires block in hooks.live && 0 < block.Length <= INT_MAX
    modifies block, hooks
    ensures p == null ==> hooks.live == old(hooks.live) - {block}
    ensures p != null ==> p.Valid() && p.buffer != null && p.hooks == hooks && !p.noalloc && fresh(p)
    ensures p != null ==> p.initial == block.Length && (p.buffer == block || fresh(p.buffer))
    ensures p != null ==> p.began == old(hooks.requests) && p.movedBefore == old(hooks.moved)
    ensures p != null ==> p.length <= Max(block.Length, 2 * (|Render(v, format, 0)| + 2))
    ensures p != null ==> hooks.moved <= old(hooks.moved) + 2 * p.length
    ensures p != null ==> hooks.live == old(hooks.live) - {block} + {p.buffer}
    ensures p != null ==> var t := Render(v, format, 0);
      p.Shows(t + "\0") && p.offset <= |t| < p.length && item != null && Printable(v)
    ensures old(hooks.requests) <= hooks.requests <= old(hooks.requests) + MOST_GROWTHS
    ensures p != null <==>
      && item != null && Printable(v) && |Render(v, format, 0)| + 2 <= INT_MAX
      && hooks.Granted(old(hooks.requests), hooks.requests)
  {
    hide Render, Printable, Stands;
    assert allocated(Members(kids));
    p := new PrintBuffer(block, block.Length, false, format, hooks);
    assert p.OtherBlocks() == old(hooks.live) - {block};
    var ok := p.PrintValue(item, kids, v, "");
    p.CostBound();
    assert "" + Render(v, format, 0) == Render(v, format, 0);
    p.LiveBlocks();
    if !ok {
      if p.buffer != null {
        hooks.Deallocate(p.buffer);
      }
      p := null;
    }
  }

  // The buffer is traded for a block of exactly the text and a NUL, or just given back.
  method Shrink(p: PrintBuffer, hooks: Hooks, ghost t: string) returns (printed: array?<char>)
    requires p.Valid() && p.hooks == hooks && !p.noalloc && p.Shows(t + "\0") && p.offset == |t| < p.length
    modifies hooks
    ensures hooks.requests == old(hooks.requests) + 1
    ensures printed != null <==> hooks.Granted(old(hooks.requests), hooks.requests)
    ensures printed != null ==> fresh(printed) && printed[..] == t + "\0"
    ensures hooks.moved <= old(hooks.moved) + |t| + 1
    ensures hooks.live == old(hooks.live) - {p.buffer} + if printed == null then {} else {printed}
  {
    if hooks.reallocates {
      printed := hooks.Reallocate(p.buffer, p.offset + 1);
      if printed == null {
        hooks.Deallocate(p.buffer);
      }
    } else {
      printed := hooks.Allocate(p.offset + 1);
      if printed != null {
        hooks.Copy(p.buffer, printed, Min(p.length, p.offset + 1));
        printed[p.offset] := '\0';
      }
      hooks.Deallocate(p.buffer);
    }
  }

  // cJSON_Print and cJSON_PrintUnformatted: a block of exactly the text and a NUL, or
  // nothing; and no block is left over either way.
  method Print(item: Node?, format: bool, hooks: Hooks, ghost kids: Forest,
          ghost v: Value) returns (printed: array?<char>)
    requires item != null ==> Stands(item, kids, v)
    modifies hooks
    ensures printed != null ==> printed[..] == Render(v, format, 0) + "\0" && fresh(printed)
    ensures printed != null ==> item != null && Printable(v)
    ensures hooks.live == old(hooks.live) + (if printed == null then {} else {printed})
    ensures old(hooks.requests) <= hooks.requests <= old(hooks.requests) + 34
    ensures printed != null ==>
      hooks.moved <= old(hooks.moved) + 2 * Max(256, 2 * (printed.Length + 1)) + printed.Length
    ensures printed != null <==>
      && item != null && Printable(v) && |Render(v, format, 0)| + 2 <= 0x7FFF_FFFF
      && hooks.Granted(old(hooks.requests), hooks.requests)
  {
    hide Render, Printable, Stands, Doubled, PrintBuffer.Valid, PrintBuffer.Shows, PrintBuffer.Lean;
    printed := null;
    assert allocated(Members(kids));
    var block := hooks.Allocate(DEFAULT_BUFFER_SIZE);
    if block == null {
      return;
    }
    var p := PrintToBuffer(item, block, format, hooks, kids, v);
    if p == null {
      assert hooks.live == old(hooks.live);
      return;
    }
    ghost var t := Render(v, format, 0);
    RenderNulFree(v, format, 0);
    p.UpdateOffset(t);
    ghost var before := hooks.requests;
    printed := Shrink(p, hooks, t);
    hooks.Joined(old(hooks.requests), before, hooks.requests);
  }

  // cJSON_PrintBuffered with a starting size of at least one byte. The growing has
  // doubled the buffer each time but possibly the last, and has moved fewer than twice
  // as many bytes as the buffer now holds.
  method PrintBuffered(item: Node?, prebuffer: int, format: bool, hooks: Hooks, ghost kids: Forest, ghost v: Value)
    returns (printed: array?<char>)
    requires item != null ==> Stands(item, kids, v)
    requires prebuffer != 0 && prebuffer <= INT_MAX
    modifies hooks
    ensures printed != null ==>
      fresh(printed) && var t := Render(v, format, 0); |t| < printed.Length && printed[..|t| + 1] == t + "\0"
    ensures hooks.live == old(hooks.live) + (if printed == null then {} else {printed})
    ensures old(hooks.requests) <= hooks.requests <= old(hooks.requests) + 33
    ensures printed != null <==>
      && prebuffer > 0 && item != null && Printable(v) && |Render(v, format, 0)| + 2 <= 0x7FFF_FFFF
      && hooks.Granted(old(hooks.requests), hooks.requests)
    ensures printed != null ==>
      var growths, moved := hooks.requests - old(hooks.requests) - 1, hooks.moved - old(hooks.moved);
      && 0 <= growths && 0 <= moved <= 2 * printed.Length
      && printed.Length <= Max(prebuffer, 2 * (|Render(v, format, 0)| + 2))
      && (growths > 0 ==> Doubled(prebuffer, growths - 1) <= printed.Length)
      && (printed.Length < INT_MAX ==> Doubled(prebuffer, growths) <= printed.Length && moved <= printed.Length)
  {
    hide Render, Printable, Stands;
    printed := null;
    if prebuffer < 0 {
      return;
    }
    assert allocated(Members(kids));
    var block := hooks.Allocate(prebuffer);
    if block == null {
      return;
    }
    var p := PrintToBuffer(item, block, format, hooks, kids, v);
    if p == null {
      assert hooks.live == old(hooks.live);
      return;
    }
    printed := p.buffer;
  }

  // cJSON_PrintPreallocated succeeds exactly when the caller's buffer has room for the
  // text and two more bytes.
  method PrintPreallocated(item: Node?, buffer: array?<char>, length: int, format: bool, hooks: Hooks,
          ghost kids: Forest, ghost v: Value)
    returns (ok: bool)
    requires item != null ==> Stands(item, kids, v)
    requires length <= INT_MAX && (buffer != null ==> length <= buffer.Length)
    modifies buffer, hooks
    ensures ok <==> (buffer != null && item != null && Printable(v) && |Render(v, format, 0)| + 2 <= length)
    ensures ok ==> buffer[..|Render(v, format, 0)| + 1] == Render(v, format, 0) + "\0"
    ensures buffer != null && length >= 0 ==> buffer[length..] == old(buffer[length..])
    ensures hooks.live == old(hooks.live) && hooks.requests == old(hooks.requests)
  {
    hide Render, Printable, Stands;
    if length < 0 || buffer == null {
      return false;
    }
    assert allocated(Members(kids));
    var p := new PrintBuffer(buffer, length, true, format, hooks);
    ok := p.PrintValue(item, kids, v, "");
    assert "" + Render(v, format, 0) == Render(v, format, 0);
  }

  lemma ObjectStart(members: seq<Member>, fmt: bool, depth: nat, pre: string)
    ensures pre + Brace(fmt) + (MembersFrom(members, 0, fmt, depth + 1) + (Indent(fmt, depth) + "}"))
         == pre + Render(Object(members), fmt, depth)
    ensures |Render(Object(members), fmt, depth)| >= |Brace(fmt)| + 1
  {
    hide RenderMembers, MembersFrom, Indent;
    MembersFromIsRender(members, 0, fmt, depth + 1);
    assert members[0..] == members;
  }

  lemma MemberParts(m: Member, fmt: bool, depth: nat, s: string)
    ensures s + Indent(fmt, depth) + Quote(m.key) + (Colon(fmt) + Render(m.value, fmt, depth)) ==
      s + RenderMember(m, fmt, depth)
  {
    hide Render, Quote, Indent;
  }

  lemma MembersDone(members: seq<Member>, fmt: bool, depth: nat)
    ensures MembersFrom(members, |members|, fmt, depth) == ""
  {}

  lemma MembersStep(members: seq<Member>, i: nat, fmt: bool, depth: nat)
    requires i < |members|
    ensures MembersFrom(members, i, fmt, depth) == RenderMember(members[i], fmt, depth)
      + (MemberEnd(fmt, i + 1 == |members|) + MembersFrom(members, i + 1, fmt, depth))
  {}

  lemma IndentLength(fmt: bool, depth: nat)
    ensures |Indent(fmt, depth)| == if fmt then depth else 0
  {}

  lemma TabsNulFree(n: nat)
    ensures '\0' !in Tabs(n)
  {}

  lemma ArrayStart(items: seq<Value>, fmt: bool, depth: nat, pre: string)
    ensures pre + "[" + (ItemsFrom(items, 0, fmt, depth + 1) + "]") == pre + Render(Array(items), fmt, depth)
    ensures |Render(Array(items), fmt, depth)| >= 2
  {
    hide RenderItems, ItemsFrom;
    ItemsFromIsRender(items, 0, fmt, depth + 1);
    assert items[0..] == items;
  }

  lemma ItemsDone(items: seq<Value>, fmt: bool, depth: nat)
    ensures ItemsFrom(items, |items|, fmt, depth) == ""
  {}

  lemma ItemsStep(items: seq<Value>, i: nat, fmt: bool, depth: nat)
    requires i < |items|
    ensures ItemsFrom(items, i, fmt, depth) ==
      Render(items[i], fmt, depth)
      + ((if i + 1 == |items| then "" else Comma(fmt)) + ItemsFrom(items, i + 1, fmt, depth))
  {}

  lemma ReadyNulFree(p: PrintBuffer, s: string)
    requires p.Ready(s)
    ensures '\0' !in s && p.offset == |s|
  {}

  lemma ShowsLess(p: PrintBuffer, s: string, more: string)
    requires p.Shows(s + more)
    ensures p.Shows(s)
  {}

  // The escaped text of the bytes from `i` on.
  function EscapeFrom(s: string, i: nat): string
    requires i <= |s|
    decreases |s| - i
  {
    if i == |s| then "" else EscapeChar(s[i]) + EscapeFrom(s, i + 1)
  }

  lemma {:induction false} EscapeFromIsEscape(s: string, i: nat)
    requires i <= |s|
    ensures EscapeFrom(s, i) == Escape(s[i..])
    decreases |s| - i
  {
    if i < |s| {
      EscapeFromIsEscape(s, i + 1);
      assert s[i..][0] == s[i] && s[i..][1..] == s[i + 1..];
    }
  }

  method CountEscapes(input: CString) returns (escapes: nat)
    ensures |input| + escapes == |Escape(input)|
    ensures escapes == 0 ==> Escape(input) == input
  {
    hide EscapeFrom, EscapeChar, Escape;
    escapes := 0;
    var i := 0;
    WholeEscape(input);
    while i < |input|
      invariant i <= |input| && i + escapes + |EscapeFrom(input, i)| == |Escape(input)|
    {
      EscapeStep(input, i);
      var c := input[i];
      if c == '\"' || c == '\\' || c == BACKSPACE || c == FORMFEED || c == '\n' || c == '\r' || c == '\t' {
        escapes := escapes + 1;
      } else if c < ' ' {
        escapes := escapes + 5;
      }
      i := i + 1;
    }
    EscapeDone(input);
    if escapes == 0 { SameLength(input); }
  }

  lemma WholeEscape(s: string)
    ensures EscapeFrom(s, 0) == Escape(s)
  {
    EscapeFromIsEscape(s, 0);
    assert s[0..] == s;
  }

  lemma EscapeStep(s: string, i: nat)
    requires i < |s|
    ensures EscapeFrom(s, i) == EscapeChar(s[i]) + EscapeFrom(s, i + 1)
    ensures |EscapeChar(s[i])| == if ShortEscape(s[i]).Some? then 2 else if s[i] < ' ' then 6 else 1
  {}

  // The three forms in which a byte is written.
  lemma EscapeIs(c: char)
    ensures c >= ' ' && c != '\"' && c != '\\' ==> EscapeChar(c) == [c]
    ensures ShortEscape(c).Some? ==> EscapeChar(c) == ['\\'] + [ShortEscape(c).value]
    ensures c < ' ' && ShortEscape(c).None? ==>
      EscapeChar(c) == ['\\'] + ['u', '0', '0', HexDigit(c as nat / 16), HexDigit(c as nat % 16)]
  {}

  lemma EscapeDone(s: string)
    ensures EscapeFrom(s, |s|) == ""
  {}

  lemma {:induction false} SameLength(s: string)
    requires |Escape(s)| == |s|
    ensures Escape(s) == s
  {
    if s != "" {
      SameLength(s[1..]);
      assert s == [s[0]] + s[1..];
    }
  }

  // ---------- The text that is still to come ----------

  function ItemsFrom(items: seq<Value>, i: nat, fmt: bool, depth: nat): string
    requires i <= |items|
    decreases |items| - i
  {
    if i == |items| then ""
    else Render(items[i], fmt, depth) + Following(items, i, fmt, depth)
  }

  // The separator and the items behind item `i`.
  function Following(items: seq<Value>, i: nat, fmt: bool, depth: nat): string
    requires i < |items|
    decreases |items| - i, 0
  {
    if i + 1 == |items| then "" else Comma(fmt) + ItemsFrom(items, i + 1, fmt, depth)
  }

  lemma {:induction false} ItemsFromIsRender(items: seq<Value>, i: nat, fmt: bool, depth: nat)
    requires i <= |items|
    ensures ItemsFrom(items, i, fmt, depth) == RenderItems(items[i..], fmt, depth)
    decreases |items| - i
  {
    hide Render;
    if i < |items| {
      ItemsFromIsRender(items, i + 1, fmt, depth);
      assert items[i..][0] == items[i] && items[i..][1..] == items[i + 1..];
    }
  }

  function MembersFrom(members: seq<Member>, i: nat, fmt: bool, depth: nat): string
    requires i <= |members|
    decreases |members| - i
  {
    if i == |members| then ""
    else
      RenderMember(members[i], fmt, depth)
      + (MemberEnd(fmt, i + 1 == |members|) + MembersFrom(members, i + 1, fmt, depth))
  }

  lemma {:induction false} MembersFromIsRender(members: seq<Member>, i: nat, fmt: bool, depth: nat)
    requires i <= |members|
    ensures MembersFrom(members, i, fmt, depth) == RenderMembers(members[i..], fmt, depth)
    decreases |members| - i
  {
    hide RenderMember, MemberEnd;
    if i < |members| {
      MembersFromIsRender(members, i + 1, fmt, depth);
      assert members[i..][0] == members[i] && members[i..][1..] == members[i + 1..];
    }
  }

  lemma {:induction false} PrintableItems(items: seq<Value>)
    ensures ItemsPrintable(items) <==> forall k | 0 <= k < |items| :: Printable(items[k])
  {
    hide Printable;
    if items != [] {
      PrintableItems(items[1..]);
      assert forall k | 0 <= k < |items| :: items[k] == if k == 0 then items[0] else items[1..][k - 1];
      assert forall k | 0 <= k < |items[1..]| :: items[1..][k] == items[k + 1];
    }
  }

  lemma {:induction false} PrintableMembers(members: seq<Member>)
    ensures MembersPrintable(members) <==> forall k | 0 <= k < |members| :: Printable(members[k].value)
  {
    hide Printable;
    if members != [] {
      PrintableMembers(members[1..]);
      assert forall k | 0 <= k < |members| :: members[k] == if k == 0 then members[0] else members[1..][k - 1];
      assert forall k | 0 <= k < |members[1..]| :: members[1..][k] == members[k + 1];
    }
  }
}
