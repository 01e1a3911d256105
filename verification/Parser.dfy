/**
  The parser: a cursor over the input that builds a tree of items in memory. Every
  method is held against the function of Parsing or Strings that says what it reads.
  */
module Parser {
  import opened Text
  import opened Decimals
  import opened Hooks
  import opened Strings
  import opened Parsing
  import opened Values
  import opened Nodes
  import opened Trees
  import opened Lists
  import opened Copies
  import opened Meanings
  import opened Literals
  import opened Numerals

  class ParseBuffer {
    const content: string
    const hooks: Hooks
    var offset: nat
    var depth: nat

    constructor (content: string, hooks: Hooks)
      ensures this.content == content && this.hooks == hooks && offset == 0 && depth == 0
    {
      this.content, this.hooks := content, hooks;
      offset, depth := 0, 0;
    }

    // ---------- Characters ----------

    method SkipUtf8Bom()
      requires offset == 0 < |content|
      modifies `offset
      ensures offset == AfterMark(content)
    {
      if |content| > 4 && content[..3] == BYTE_ORDER_MARK {
        offset := offset + 3;
      }
    }

    method SkipWhitespace()
      requires offset < |content|
      modifies `offset
      ensures offset == Skip(content, old(offset))
    {
      while offset < |content| && IsBlank(content[offset])
        invariant offset <= |content| && SkipBlanks(content, offset) == SkipBlanks(content, old(offset))
      {
        offset := offset + 1;
      }
      if offset == |content| {
        offset := offset - 1;
      }
    }

    // ---------- Strings ----------

    // The first pass: where the literal closes, and how many bytes it skips.
    method FindEnd() returns (scan: Scan)
      requires offset < |content|
      ensures scan == ScanString(content, offset + 1)
    {
      var end, skipped := offset + 1, 0;
      while end < |content| && content[end] != '\"'
        invariant ScanString(content, offset + 1) == Later(ScanString(content, end), skipped)
        decreases |content| - end
      {
        if content[end] == '\\' {
          if end + 1 >= |content| {
            return Open;
          }
          skipped := skipped + 1;
          end := end + 1;
        }
        end := end + 1;
      }
      return if end >= |content| then Open else Closed(end, skipped);
    }

    // One step of the second pass at `p`, writing at `o`; `length` is 0 on failure.
    method DecodeOne(p: nat, end: nat, output: array<char>, o: nat) returns (length: nat, written: nat)
      requires p < end < |content|
      requires DecodeStep(content, p, end).0 > 0 ==> o + |DecodeStep(content, p, end).1| <= output.Length
      modifies output
      ensures length == DecodeStep(content, p, end).0
      ensures length > 0 ==> Written(output, o, written, DecodeStep(content, p, end).1)
      ensures forall k | 0 <= k < output.Length && k < o :: output[k] == old(output[k])
    {
      hide Utf16Literal;
      if content[p] != '\\' {
        output[o] := content[p];
        return 1, 1;
      }
      match content[p + 1]
      case 'b' => output[o] := BACKSPACE; return 2, 1;
      case 'f' => output[o] := FORMFEED; return 2, 1;
      case 'n' => output[o] := '\n'; return 2, 1;
      case 'r' => output[o] := '\r'; return 2, 1;
      case 't' => output[o] := '\t'; return 2, 1;
      case '\"' => output[o] := '\"'; return 2, 1;
      case '\\' => output[o] := '\\'; return 2, 1;
      case '/' => output[o] := '/'; return 2, 1;
      case 'u' => length, written := Utf16LiteralToUtf8(content, p, end, output, o);
      case _ => return 0, 0;
    }

    // The second pass. Its output stays below `total`, whatever the escapes turn out to be.
    method DecodeInto(start: nat, scan: Scan, output: array<char>) returns (ok: bool, p: nat, o: nat)
      requires scan.Closed? && ScanString(content, start) == scan && start <= scan.end
      requires output.Length == scan.end - start - scan.skipped + 2
      modifies output
      ensures ok <==> Decode(content, start, scan.end).Some?
      ensures ok ==> Written(output, 0, o, Decode(content, start, scan.end).value)
      ensures p <= scan.end + 1 && o + 2 <= output.Length
    {
      hide Decode, DecodeStep, Fits;
      ghost var total := scan.end - start - scan.skipped;
      ghost var written, q := "", start;
      p, o := start, 0;
      StartFits(content, start);
      StartDecode(content, start, scan.end);
      while p < scan.end
        invariant Fits(content, p, q, scan.end, o, total) && o <= total && p <= scan.end + 1
        invariant Decode(content, start, scan.end) == Prepend(written, Decode(content, p, scan.end))
        invariant Written(output, 0, o, written)
        decreases scan.end - p
      {
        ghost var bytes := DecodeStep(content, p, scan.end).1;
        q := StepFits(content, p, q, scan.end, o, total);
        DecodeBySteps(content, p, scan.end);
        var length, count := DecodeOne(p, scan.end, output, o);
        if length == 0 {
          return false, p, o;
        }
        PrependTwice(written, bytes, Decode(content, p + length, scan.end));
        written := written + bytes;
        p, o := p + length, o + count;
      }
      AllDecoded(content, p, scan.end, written);
      return true, p, o;
    }

    method ParseString(item: Node) returns (ok: bool)
      requires offset < |content|
      modifies `offset, hooks, item`kind, item`valuestring
      ensures Outcome(ok, Strings.ParseString(content, old(offset)), TextOf(item), offset,
          hooks.Granted(old(hooks.requests), hooks.requests))
      ensures old(hooks.requests) <= hooks.requests <= old(hooks.requests) + 1
      ensures ok ==> item.kind == IsString && item.valuestring != null && fresh(item.valuestring)
      ensures ok ==> hooks.live == old(hooks.live) + {item.valuestring}
      ensures !ok ==> hooks.live == old(hooks.live) && offset <= |content|
      ensures !ok ==> item.kind == old(item.kind) && item.valuestring == old(item.valuestring)
    {
      hide Decode, ScanString;
      var start := offset + 1;
      if content[offset] != '\"' {
        offset := start;
        return false;
      }
      var scan := FindEnd();
      if scan.Open? {
        offset := start;
        return false;
      }
      ScanBounds(content, start);
      var output := hooks.Allocate(scan.end - offset - scan.skipped + 1);
      if output == null {
        offset := start;
        return false;
      }
      var o;
      ok, offset, o := DecodeInto(start, scan, output);
      if !ok {
        hooks.Deallocate(output);
        return false;
      }
      output[o] := '\0';
      item.kind := IsString;
      item.valuestring := Seal(hooks, output, Decode(content, start, scan.end).value);
      offset := scan.end + 1;
    }

    // ---------- Numbers ----------

    // The characters of the number, at most as many as the buffer takes.
    method CopyNumber(buffer: array<char>) returns (i: nat)
      requires offset < |content| && buffer.Length == NUMBER_BUFFER + 1
      modifies buffer
      ensures i <= NUMBER_BUFFER && NumberEnd(content, offset, NUMBER_BUFFER) == offset + i
      ensures forall k | 0 <= k < i :: buffer[k] == content[offset + k]
      ensures buffer[i] == '\0'
    {
      hide NumberEnd;
      var start := offset;
      i := 0;
      while i < NUMBER_BUFFER && start + i < |content| && IsNumberChar(content[start + i])
        invariant i <= NUMBER_BUFFER && start + i <= |content|
        invariant NumberEnd(content, start, NUMBER_BUFFER) == NumberEnd(content, start + i, NUMBER_BUFFER - i)
        invariant forall k | 0 <= k < i :: buffer[k] == content[start + k]
      {
        NumberStep(content, start + i, NUMBER_BUFFER - i);
        buffer[i] := content[start + i];
        i := i + 1;
      }
      NumberStep(content, start + i, NUMBER_BUFFER - i);
      buffer[i] := '\0';
    }

    method ParseNumber(item: Node) returns (ok: bool)
      requires offset < |content|
      modifies `offset, item`kind, item`number
      ensures ok ==> Parsing.ParseNumber(content, old(offset)) == Parsed(item.number, offset) && item.kind == IsNumber
      ensures !ok ==> Parsing.ParseNumber(content, old(offset)).Failed? && offset == old(offset)
      ensures content[old(offset)] == '-' || '0' <= content[old(offset)] <= '9' ==>
        LongestNumeral(content, old(offset), if ok then Parsed(item.number, offset) else Failed)
    {
      hide Strtod, NumberEnd, LongestNumeral;
      if content[offset] == '-' || '0' <= content[offset] <= '9' { NumberIsLongest(content, offset); }
      var buffer := new char[NUMBER_BUFFER + 1];
      var i := CopyNumber(buffer);
      var w := buffer[..i];
      Copied(content, offset, i, w);
      hide Parsing.ParseNumber;
      var (length, number) := Strtod(w);
      if length == 0 {
        return false;
      }
      item.number := number;
      item.kind := IsNumber;
      offset := offset + length;
      return true;
    }

    // ---------- Values ----------

    method ParseValue(item: Node) returns (ok: bool, ghost kids: Forest, ghost v: Value)
      requires Terminated(content) && offset < |content| && Unfilled(item)
      modifies `offset, `depth, hooks, item`kind, item`child, item`valuestring, item`number
      ensures Outcome(ok, Parsing.ParseValue(content, old(offset), old(depth)), v, offset,
          hooks.Granted(old(hooks.requests), hooks.requests))
      ensures old(hooks.requests) <= hooks.requests <= old(hooks.requests)
          + (if ok then offset else |content|) - old(offset)
      ensures ok ==> depth == old(depth)
      ensures Gave(hooks, item, ok, kids, v) && offset <= |content|
      decreases |content| - offset, 0
    {
      hide Strings.ParseString, Parsing.ParseNumber, Parsing.ParseArray, Parsing.ParseObject;
      hide Filled, Content, Members, LongestNumeral;
      kids, v := End, Null;
      if Reads(content, offset, "null") {
        item.kind := IsNull;
        offset := offset + 4;
        Leaf(item, Null);
        return true, End, Null;
      }
      if Reads(content, offset, "false") {
        item.kind := IsFalse;
        offset := offset + 5;
        Leaf(item, False);
        return true, End, False;
      }
      if Reads(content, offset, "true") {
        item.kind := IsTrue;
        offset := offset + 4;
        Leaf(item, True);
        return true, End, True;
      }
      if content[offset] == '\"' {
        ok := ParseString(item);
        v := Str(TextOf(item));
        if ok { Leaf(item, v); }
        return;
      }
      if content[offset] == '-' || '0' <= content[offset] <= '9' {
        ok := ParseNumber(item);
        v := Num(item.number);
        if ok { Leaf(item, v); }
        return;
      }
      if content[offset] == '[' {
        ok, kids, v := ParseArray(item);
        return;
      }
      if content[offset] == '{' {
        ok, kids, v := ParseObject(item);
        return;
      }
      return false, End, Null;
    }

    // ---------- Arrays ----------

    // A new item behind the tail, still without a value.
    method NewElement(head: Node?, tail: Node?, ghost front: Forest, ghost below: Forest)
      returns (item: Node?, first: Node?, ghost before: Forest)
      requires Building(head, tail, front, below)
      modifies hooks, One(tail)`next
      ensures item == null ==> first == head && before == front && Building(head, tail, front, below)
      ensures hooks.requests == old(hooks.requests) + 1
      ensures item != null <==> hooks.Granted(old(hooks.requests), hooks.requests)
      ensures item == null ==> hooks.live == old(hooks.live)
      ensures item != null ==> first != null && fresh(item) && Blank(item)
      ensures item != null ==> item.child == null && item !in Members(before)
      ensures item != null ==> before == Built(tail, front, below) && Building(first, item, before, End)
      ensures item != null ==> hooks.live == old(hooks.live) + {item}
      ensures Blocks(Built(tail, front, below)) == old(Blocks(Built(tail, front, below)))
    {
      hide Building, Built, Members, NoReference, Blocks, Separate, HasKids, BothWays, Spans;
      ghost var whole := Built(tail, front, below);
      assert allocated(Members(front)) && allocated(Members(below)) && allocated(One(tail));
      assert allocated(Members(whole)) && allocated(Blocks(whole));
      item := NewItem(hooks);
      if item == null {
        return item, head, front;
      }
      Childless(item);
      first, before := Attach(head, tail, item, front, below, End);
    }

    // Steps over the bracket or comma under the cursor and reads one value.
    method FillElement(item: Node) returns (ok: bool, ghost kids: Forest, ghost v: Value)
      requires Terminated(content) && offset + 1 < |content| && Blank(item) && item.child == null && item in hooks.live
      modifies `offset, `depth, hooks, item`kind, item`child, item`valuestring, item`number
      ensures Sound(item, kids) && NoReference(Single(item, kids))
      ensures fresh(Members(kids)) && fresh(Blocks(Single(item, kids)) - {item})
      ensures hooks.live == old(hooks.live) + Blocks(Single(item, kids))
      ensures ok ==> AreItems(Single(item, kids), [v]) && depth == old(depth) && offset < |content|
      ensures Outcome(ok, ElementAt(content, old(offset) + 1, old(depth)), v, offset,
          hooks.Granted(old(hooks.requests), hooks.requests))
      ensures old(hooks.requests) <= hooks.requests <= old(hooks.requests)
          + (if ok then offset else |content|) - old(offset) - 1
      ensures !ok ==> offset <= |content|
      decreases |content| - offset - 1, 1
    {
      hide Members, NoReference, Blocks, Parsing.ParseValue, Skip, Filled, Content, Sound, AreItems;
      EmptySound(item);
      offset := offset + 1;
      SkipWhitespace();
      ok, kids, v := ParseValue(item);
      if ok {
        FilledSound(item, kids, v);
        OneItem(item, kids, v);
        assert allocated(Members(kids)) && allocated(Members(Single(item, kids)));
        SkipWhitespace();
      } else {
        EmptySound(item);
      }
    }

    // The next element goes behind the tail. `more` is what the list has grown by, also
    // when this fails.
    method ParseElement(head: Node?, tail: Node?, ghost front: Forest, ghost below: Forest)
      returns (ok: bool, first: Node?, last: Node?, ghost before: Forest, ghost kids: Forest,
              ghost more: Forest, ghost v: Value)
      requires Terminated(content) && offset + 1 < |content| && Building(head, tail, front, below)
      modifies `offset, `depth, hooks, One(tail)`next
      ensures Building(first, last, before, kids)
      ensures Built(last, before, kids) == Append(Built(tail, front, below), more)
      ensures NoReference(more) && fresh(Members(more))
      ensures fresh(Blocks(more)) && hooks.live == old(hooks.live) + Blocks(more)
      ensures Blocks(Built(tail, front, below)) == old(Blocks(Built(tail, front, below)))
      ensures ok ==> last != null && AreItems(more, [v]) && depth == old(depth) && offset < |content|
      ensures Outcome(ok, ElementAt(content, old(offset) + 1, old(depth)), v, offset,
          hooks.Granted(old(hooks.requests), hooks.requests))
      ensures old(hooks.requests) <= hooks.requests <= old(hooks.requests)
          + (if ok then offset else |content|) - old(offset)
      ensures !ok ==> offset <= |content|
      decreases |content| - offset - 1, 2
    {
      hide *;
      var item;
      ghost var start := hooks.requests;
      item, first, before := NewElement(head, tail, front, below);
      if item == null {
        NothingMore(Built(tail, front, below));
        OutOfMemory(ElementAt(content, offset + 1, depth), Null, offset);
        return false, head, tail, front, below, End, Null;
      }
      last := item;
      ListParts(first, item, before);
      assert allocated(Members(before)) && allocated(Blocks(before));
      ghost var filling := hooks.requests;
      ok, kids, v := FillElement(item);
      AfterNew(ok, ElementAt(content, old(offset) + 1, old(depth)), v, offset, hooks, start, filling, hooks.requests);
      more := Single(item, kids);
      Refilled(first, item, before, kids);
    }

    // The finished list becomes the children of `item`.
    method GiveKids(item: Node, head: Node?, tail: Node?, ghost front: Forest, ghost below: Forest)
      requires Building(head, tail, front, below) && Unfilled(item) && item !in Members(Built(tail, front, below))
      modifies One(head)`prev, item`child
      ensures HasKids(item, Built(tail, front, below)) && BothWays(Built(tail, front, below))
      ensures Separate(Built(tail, front, below))
      ensures Blocks(Built(tail, front, below)) == old(Blocks(Built(tail, front, below)))
    {
      hide Building, Built, Members, NoReference, Blocks, Separate, HasKids, BothWays, Spans;
      Complete(head, tail, front, below);
      item.child := head;
      AsKids(item, Built(tail, front, below));
    }

    method MakeArray(item: Node, head: Node?, tail: Node?, ghost front: Forest, ghost below: Forest,
            ghost items: seq<Value>)
      requires Building(head, tail, front, below) && Unfilled(item) && item !in Members(Built(tail, front, below))
      requires AreItems(Built(tail, front, below), items) && NoReference(Built(tail, front, below))
      modifies One(head)`prev, item`kind, item`child
      ensures Filled(item, Built(tail, front, below), Array(items))
      ensures Content(item, Built(tail, front, below)) == old(Blocks(Built(tail, front, below)))
    {
      hide Building, Built, Members, NoReference, Blocks, Separate, HasKids, BothWays, Spans, AreItems;
      assert allocated(Members(Built(tail, front, below)));
      GiveKids(item, head, tail, front, below);
      item.kind := IsArray;
    }

    // The elements from the cursor on, up to the first that no comma follows.
    method ParseElements()
      returns (ok: bool, head: Node?, tail: Node?, ghost front: Forest, ghost below: Forest, ghost items: seq<Value>)
      requires Terminated(content) && 0 < offset < |content|
      modifies `offset, `depth, hooks
      ensures Building(head, tail, front, below) && NoReference(Built(tail, front, below))
      ensures fresh(Members(Built(tail, front, below))) && fresh(Blocks(Built(tail, front, below)))
      ensures hooks.live == old(hooks.live) + Blocks(Built(tail, front, below)) && offset <= |content|
      ensures ok ==> AreItems(Built(tail, front, below), items) && depth == old(depth) && offset < |content|
      ensures ok ==> ParseItems(content, old(offset), old(depth)) == Ended(content, offset, items, ']')
      ensures ok ==> hooks.Granted(old(hooks.requests), hooks.requests)
      ensures !ok ==>
        || ParseItems(content, old(offset), old(depth)).Failed?
        || !hooks.Granted(old(hooks.requests), hooks.requests)
      ensures old(hooks.requests) <= hooks.requests <= old(hooks.requests)
          + (if ok then offset else |content|) - old(offset) + 1
      decreases |content| - offset, 3
    {
      hide *;
      ghost var result := ParseItems(content, offset, depth);
      head, tail := null, null;
      front, below, items := End, End, [];
      offset := offset - 1;
      NoList();
      ghost var level := depth;
      ItemsSoFarStart(content, offset, level);
      NoRequests(hooks);
      ghost var start := hooks.requests;
      var more := true;
      while more
        invariant Building(head, tail, front, below) && AreItems(Built(tail, front, below), items)
        invariant NoReference(Built(tail, front, below)) && fresh(Members(Built(tail, front, below)))
        invariant fresh(Blocks(Built(tail, front, below)))
        invariant hooks.live == old(hooks.live) + Blocks(Built(tail, front, below)) && depth == level == old(depth)
        invariant ItemsSoFar(content, more, offset, level, items, result) && old(offset) - 1 <= offset < |content|
        invariant start <= hooks.requests <= start + offset - old(offset) + 1 && hooks.Granted(start, hooks.requests)
        decreases |content| - offset, more
      {
        TailIn(head, tail, front, below);
        IsOne(tail);
        ghost var grown, element, was := End, Null, Built(tail, front, below);
        ghost var from := offset;
        ghost var before := hooks.requests;
        ItemsSoFarBounds(content, offset, level, items, result);
        assert allocated(Members(was));
        ok, head, tail, front, below, grown, element := ParseElement(head, tail, front, below);
        AppendMembers(was, grown);
        AppendBlocks(was, grown);
        AppendNoReference(was, grown);
        ItemsSoFarNext(content, from, level, items, result, ok, element, offset, hooks.Granted(before, hooks.requests));
        hooks.Joined(start, before, hooks.requests);
        if !ok {
          return;
        }
        AppendItems(was, grown, items, [element]);
        more := content[offset] == ',';
        items := items + [element];
      }
      ItemsSoFarDone(content, offset, level, items, result);
      return true, head, tail, front, below, items;
    }

    // What stands between the brackets. The list may be half built when this fails.
    method ParseBrackets()
      returns (ok: bool, head: Node?, tail: Node?, ghost front: Forest, ghost below: Forest, ghost items: seq<Value>)
      requires Terminated(content) && 0 < offset < |content|
      modifies `offset, `depth, hooks
      ensures Building(head, tail, front, below) && NoReference(Built(tail, front, below))
      ensures fresh(Members(Built(tail, front, below))) && fresh(Blocks(Built(tail, front, below)))
      ensures hooks.live == old(hooks.live) + Blocks(Built(tail, front, below)) && offset <= |content|
      ensures ok ==> AreItems(Built(tail, front, below), items) && depth == old(depth)
      ensures Outcome(ok, Elements(content, old(offset), old(depth)), items, offset + 1,
          hooks.Granted(old(hooks.requests), hooks.requests))
      ensures old(hooks.requests) <= hooks.requests <= old(hooks.requests)
          + (if ok then offset else |content|) - old(offset) + 1
      decreases |content| - offset, 4
    {
      hide Building, Built, Members, NoReference, Blocks, AreItems, ParseItems;
      if content[offset] == ']' {
        NoList();
        return true, null, null, End, End, [];
      }
      ok, head, tail, front, below, items := ParseElements();
      if ok && content[offset] != ']' {
        ok := false;
      }
    }

    method ParseArray(item: Node) returns (ok: bool, ghost kids: Forest, ghost v: Value)
      requires Terminated(content) && offset < |content| && Unfilled(item) && content[offset] == '['
      modifies `offset, `depth, hooks, item`kind, item`child
      ensures Outcome(ok, Parsing.ParseArray(content, old(offset), old(depth)), v, offset,
          hooks.Granted(old(hooks.requests), hooks.requests))
      ensures old(hooks.requests) <= hooks.requests <= old(hooks.requests)
          + (if ok then offset else |content|) - old(offset)
      ensures ok ==> depth == old(depth)
      ensures Gave(hooks, item, ok, kids, v) && offset <= |content|
      decreases |content| - offset - 1, 5
    {
      hide Building, Members, NoReference, Blocks, Separate, HasKids, BothWays, Spans, AreItems, Skip, Built, Elements;
      hide Filled, Content, Parsing.ParseArray;
      ArrayBy(content, offset, depth);
      kids, v := End, Array([]);
      if depth >= NESTING_LIMIT {
        return false, End, v;
      }
      depth := depth + 1;
      offset := offset + 1;
      SkipWhitespace();
      var head, tail;
      ghost var front, below, items;
      ok, head, tail, front, below, items := ParseBrackets();
      kids, v := Built(tail, front, below), Array(items);
      if !ok {
        BuiltWhole(head, tail, front, below);
        Delete(hooks, head, kids);
        return false, End, v;
      }
      HeadIn(head, tail, front, below);
      assert allocated(Members(kids));
      MakeArray(item, head, tail, front, below, items);
      depth := depth - 1;
      offset := offset + 1;
    }

    // ---------- Objects ----------

    // Steps over the brace or comma under the cursor and reads a name and its colon. The
    // name is parsed as a string and then moved to `string`.
    method ParseName(item: Node) returns (ok: bool)
      requires Terminated(content) && offset + 1 < |content| && Blank(item) && item.child == null
      modifies `offset, hooks, item`kind, item`valuestring, item`key
      ensures Unfilled(item) && fresh(KeyOf(item)) && hooks.live == old(hooks.live) + KeyOf(item)
      ensures Outcome(ok, NameAt(content, old(offset) + 1), NameOf(item), offset,
          hooks.Granted(old(hooks.requests), hooks.requests))
      ensures old(hooks.requests) <= hooks.requests <= old(hooks.requests)
          + (if ok then offset else |content|) - old(offset) - 1
      ensures ok ==> item.key != null && old(offset) + 1 < offset < |content|
      ensures offset <= |content|
    {
      hide Strings.ParseString, Skip;
      offset := offset + 1;
      SkipWhitespace();
      ok := ParseString(item);
      if !ok {
        return;
      }
      QuoteIsNotLast(content, Skip(content, old(offset) + 1));
      SkipWhitespace();
      item.key := item.valuestring;
      item.valuestring := null;
      if content[offset] != ':' {
        return false;
      }
      offset := offset + 1;
      SkipWhitespace();
    }

    method FillMember(item: Node) returns (ok: bool, ghost kids: Forest, ghost v: Member)
      requires Terminated(content) && offset + 1 < |content| && Blank(item) && item.child == null && item in hooks.live
      modifies `offset, `depth, hooks, item`kind, item`child, item`valuestring, item`number, item`key
      ensures Sound(item, kids) && NoReference(Single(item, kids))
      ensures fresh(Members(kids)) && fresh(Blocks(Single(item, kids)) - {item})
      ensures hooks.live == old(hooks.live) + Blocks(Single(item, kids))
      ensures ok ==> AreMembers(Single(item, kids), [v]) && depth == old(depth) && offset < |content|
      ensures Outcome(ok, MemberAt(content, old(offset) + 1, old(depth)), v, offset,
          hooks.Granted(old(hooks.requests), hooks.requests))
      ensures old(hooks.requests) <= hooks.requests <= old(hooks.requests)
          + (if ok then offset else |content|) - old(offset) - 1
      ensures !ok ==> offset <= |content|
      decreases |content| - offset - 1, 1
    {
      hide Members, NoReference, Blocks, Parsing.ParseValue, NameAt, MemberAt;
      hide Skip, Filled, Content, Sound, AreMembers, Blank, Unfilled;
      hide Outcome, Terminated, KeyOf, NameOf, Single;
      kids, v := End, Member("", Null);
      ghost var from, level, start := offset + 1, depth, hooks.requests;
      ok := ParseName(item);
      EmptySound(item);
      if !ok {
        NameFailed(content, from, level, NameOf(item), v, offset, hooks.Granted(start, hooks.requests));
        return;
      }
      ghost var value, colon := Null, offset;
      ghost var named := hooks.requests;
      ok, kids, value := ParseValue(item);
      v := Member(NameOf(item), value);
      NameGranted(content, from, NameOf(item), colon, hooks.Granted(start, named));
      AfterNew(ok, Parsing.ParseValue(content, colon, level), value, offset, hooks, start, named, hooks.requests);
      ValueEnds(content, from, level, NameOf(item), colon, ok, value, offset, hooks.Granted(start, hooks.requests));
      if !ok {
        EmptySound(item);
        return;
      }
      FilledSound(item, kids, value);
      OneMember(item, kids, value);
      assert allocated(Members(kids)) && allocated(Members(Single(item, kids)));
      SkipWhitespace();
    }

    // The next member goes behind the tail, as an element does.
    method ParseMember(head: Node?, tail: Node?, ghost front: Forest, ghost below: Forest)
      returns (ok: bool, first: Node?, last: Node?, ghost before: Forest, ghost kids: Forest,
              ghost more: Forest, ghost v: Member)
      requires Terminated(content) && offset + 1 < |content| && Building(head, tail, front, below)
      modifies `offset, `depth, hooks, One(tail)`next
      ensures Building(first, last, before, kids)
      ensures Built(last, before, kids) == Append(Built(tail, front, below), more)
      ensures NoReference(more) && fresh(Members(more))
      ensures fresh(Blocks(more)) && hooks.live == old(hooks.live) + Blocks(more)
      ensures Blocks(Built(tail, front, below)) == old(Blocks(Built(tail, front, below)))
      ensures ok ==> last != null && AreMembers(more, [v]) && depth == old(depth) && offset < |content|
      ensures Outcome(ok, MemberAt(content, old(offset) + 1, old(depth)), v, offset,
          hooks.Granted(old(hooks.requests), hooks.requests))
      ensures old(hooks.requests) <= hooks.requests <= old(hooks.requests)
          + (if ok then offset else |content|) - old(offset)
      ensures !ok ==> offset <= |content|
      decreases |content| - offset - 1, 2
    {
      hide *;
      var item;
      ghost var start := hooks.requests;
      item, first, before := NewElement(head, tail, front, below);
      if item == null {
        NothingMore(Built(tail, front, below));
        OutOfMemory(MemberAt(content, offset + 1, depth), Member("", Null), offset);
        return false, head, tail, front, below, End, Member("", Null);
      }
      last := item;
      ListParts(first, item, before);
      assert allocated(Members(before)) && allocated(Blocks(before));
      ghost var filling := hooks.requests;
      ok, kids, v := FillMember(item);
      AfterNew(ok, MemberAt(content, old(offset) + 1, old(depth)), v, offset, hooks, start, filling, hooks.requests);
      more := Single(item, kids);
      Refilled(first, item, before, kids);
    }

    method MakeObject(item: Node, head: Node?, tail: Node?, ghost front: Forest, ghost below: Forest,
            ghost members: seq<Member>)
      requires Building(head, tail, front, below) && Unfilled(item) && item !in Members(Built(tail, front, below))
      requires AreMembers(Built(tail, front, below), members) && NoReference(Built(tail, front, below))
      modifies One(head)`prev, item`kind, item`child
      ensures Filled(item, Built(tail, front, below), Object(members))
      ensures Content(item, Built(tail, front, below)) == old(Blocks(Built(tail, front, below)))
    {
      hide Building, Built, Members, NoReference, Blocks, Separate, HasKids, BothWays, Spans, AreMembers;
      assert allocated(Members(Built(tail, front, below)));
      GiveKids(item, head, tail, front, below);
      item.kind := IsObject;
    }

    // The members from the cursor on, up to the first that no comma follows.
    method ParseMembers()
      returns (ok: bool, head: Node?, tail: Node?, ghost front: Forest, ghost below: Forest, ghost members: seq<Member>)
      requires Terminated(content) && 0 < offset < |content|
      modifies `offset, `depth, hooks
      ensures Building(head, tail, front, below) && NoReference(Built(tail, front, below))
      ensures fresh(Members(Built(tail, front, below))) && fresh(Blocks(Built(tail, front, below)))
      ensures hooks.live == old(hooks.live) + Blocks(Built(tail, front, below)) && offset <= |content|
      ensures ok ==> AreMembers(Built(tail, front, below), members) && depth == old(depth) && offset < |content|
      ensures ok ==> Parsing.ParseMembers(content, old(offset), old(depth)) == Ended(content, offset, members, '}')
      ensures ok ==> hooks.Granted(old(hooks.requests), hooks.requests)
      ensures !ok ==>
        || Parsing.ParseMembers(content, old(offset), old(depth)).Failed?
        || !hooks.Granted(old(hooks.requests), hooks.requests)
      ensures old(hooks.requests) <= hooks.requests <= old(hooks.requests)
          + (if ok then offset else |content|) - old(offset) + 1
      decreases |content| - offset, 3
    {
      hide *;
      ghost var result := Parsing.ParseMembers(content, offset, depth);
      head, tail := null, null;
      front, below, members := End, End, [];
      offset := offset - 1;
      NoList();
      ghost var level := depth;
      MembersSoFarStart(content, offset, level);
      NoRequests(hooks);
      ghost var start := hooks.requests;
      var more := true;
      while more
        invariant Building(head, tail, front, below) && AreMembers(Built(tail, front, below), members)
        invariant NoReference(Built(tail, front, below)) && fresh(Members(Built(tail, front, below)))
        invariant fresh(Blocks(Built(tail, front, below)))
        invariant hooks.live == old(hooks.live) + Blocks(Built(tail, front, below)) && depth == level == old(depth)
        invariant MembersSoFar(content, more, offset, level, members, result) && old(offset) - 1 <= offset < |content|
        invariant start <= hooks.requests <= start + offset - old(offset) + 1 && hooks.Granted(start, hooks.requests)
        decreases |content| - offset, more
      {
        TailIn(head, tail, front, below);
        IsOne(tail);
        ghost var grown, member, was := End, Member("", Null), Built(tail, front, below);
        ghost var from := offset;
        ghost var before := hooks.requests;
        MembersSoFarBounds(content, offset, level, members, result);
        assert allocated(Members(was));
        ok, head, tail, front, below, grown, member := ParseMember(head, tail, front, below);
        AppendMembers(was, grown);
        AppendBlocks(was, grown);
        AppendNoReference(was, grown);
        MembersSoFarNext(content, from, level, members, result, ok, member, offset,
            hooks.Granted(before, hooks.requests));
        hooks.Joined(start, before, hooks.requests);
        if !ok {
          return;
        }
        AppendObjects(was, grown, members, [member]);
        more := content[offset] == ',';
        members := members + [member];
      }
      MembersSoFarDone(content, offset, level, members, result);
      return true, head, tail, front, below, members;
    }

    // What stands between the braces. The list may be half built when this fails.
    method ParseBraces()
      returns (ok: bool, head: Node?, tail: Node?, ghost front: Forest, ghost below: Forest, ghost members: seq<Member>)
      requires Terminated(content) && 0 < offset < |content|
      modifies `offset, `depth, hooks
      ensures Building(head, tail, front, below) && NoReference(Built(tail, front, below))
      ensures fresh(Members(Built(tail, front, below))) && fresh(Blocks(Built(tail, front, below)))
      ensures hooks.live == old(hooks.live) + Blocks(Built(tail, front, below)) && offset <= |content|
      ensures ok ==> AreMembers(Built(tail, front, below), members) && depth == old(depth)
      ensures Outcome(ok, MembersAfter(content, old(offset), old(depth)), members, offset + 1,
          hooks.Granted(old(hooks.requests), hooks.requests))
      ensures old(hooks.requests) <= hooks.requests <= old(hooks.requests)
          + (if ok then offset else |content|) - old(offset) + 1
      decreases |content| - offset, 4
    {
      hide Building, Built, Members, NoReference, Blocks, AreMembers, Parsing.ParseMembers;
      if content[offset] == '}' {
        NoList();
        return true, null, null, End, End, [];
      }
      ok, head, tail, front, below, members := ParseMembers();
      if ok && content[offset] != '}' {
        ok := false;
      }
    }

    method ParseObject(item: Node) returns (ok: bool, ghost kids: Forest, ghost v: Value)
      requires Terminated(content) && offset < |content| && Unfilled(item) && content[offset] == '{'
      modifies `offset, `depth, hooks, item`kind, item`child
      ensures Outcome(ok, Parsing.ParseObject(content, old(offset), old(depth)), v, offset,
          hooks.Granted(old(hooks.requests), hooks.requests))
      ensures old(hooks.requests) <= hooks.requests <= old(hooks.requests)
          + (if ok then offset else |content|) - old(offset)
      ensures ok ==> depth == old(depth)
      ensures Gave(hooks, item, ok, kids, v) && offset <= |content|
      decreases |content| - offset - 1, 5
    {
      hide Building, Members, NoReference, Blocks, Separate, HasKids;
      hide BothWays, Spans, AreMembers, Skip, Built, MembersAfter;
      hide Filled, Content, Parsing.ParseObject;
      ObjectBy(content, offset, depth);
      kids, v := End, Object([]);
      if depth >= NESTING_LIMIT {
        return false, End, v;
      }
      depth := depth + 1;
      offset := offset + 1;
      SkipWhitespace();
      var head, tail;
      ghost var front, below, members;
      ok, head, tail, front, below, members := ParseBraces();
      kids, v := Built(tail, front, below), Object(members);
      if !ok {
        BuiltWhole(head, tail, front, below);
        Delete(hooks, head, kids);
        return false, End, v;
      }
      HeadIn(head, tail, front, below);
      assert allocated(Members(kids));
      MakeObject(item, head, tail, front, below, members);
      depth := depth - 1;
      offset := offset + 1;
    }
  }

  lemma NumberStep(c: string, i: nat, room: nat)
    requires i <= |c|
    ensures NumberEnd(c, i, room) ==
      if room > 0 && i < |c| && IsNumberChar(c[i]) then NumberEnd(c, i + 1, room - 1) else i
  {}

  lemma Copied(c: string, i: nat, n: nat, w: string)
    requires i < |c| && NumberEnd(c, i, NUMBER_BUFFER) == i + n && |w| == n
    requires forall k | 0 <= k < n :: w[k] == c[i + k]
    ensures Parsing.ParseNumber(c, i) ==
      var (length, number) := Strtod(w); if length == 0 then Failed else Parsed(number, i + length)
  {
    hide Strtod;
    assert c[i..i + n] == w;
  }

  // A call succeeds, with exactly what the text says, if and only if the text is right and
  // every request it made was granted.
  ghost predicate Outcome<T>(ok: bool, r: Parse<T>, v: T, next: nat, granted: bool) {
    if ok then r == Parsed(v, next) && granted else r.Failed? || !granted
  }

  lemma OutOfMemory<T>(r: Parse<T>, v: T, next: nat)
    ensures Outcome(false, r, v, next, false)
  {}

  // The requests that were granted before do not matter to the outcome.
  lemma AfterNew<T>(ok: bool, r: Parse<T>, v: T, next: nat, hooks: Hooks, start: nat, from: nat, to: nat)
    requires start <= from <= to && hooks.Granted(start, from) && Outcome(ok, r, v, next, hooks.Granted(from, to))
    ensures Outcome(ok, r, v, next, hooks.Granted(start, to))
  {
    hooks.Joined(start, from, to);
  }

  function Prefixed<T>(done: seq<T>, r: Parse<seq<T>>): Parse<seq<T>> {
    match r case Failed => Failed case Parsed(rest, next) => Parsed(done + rest, next)
  }

  // The elements are followed by the closing bracket, or the array is wrong.
  function Ended<T>(c: string, i: nat, done: seq<T>, bracket: char): Parse<seq<T>>
    requires i < |c|
  {
    if c[i] == bracket then Parsed(done, i + 1) else Failed
  }

  // What follows an opening bracket and blanks.
  function Elements(c: string, i: nat, depth: nat): Parse<seq<Value>>
    requires Terminated(c) && i < |c|
  {
    if c[i] == ']' then Parsed([], i + 1) else ParseItems(c, i, depth)
  }

  lemma ArrayBy(c: string, i: nat, depth: nat)
    requires Terminated(c) && i + 1 < |c| && c[i] == '['
    ensures Parsing.ParseArray(c, i, depth) ==
      if depth >= NESTING_LIMIT then Failed
      else
        match Elements(c, Skip(c, i + 1), depth + 1)
        case Failed => Failed
        case Parsed(items, k) => Parsed(Array(items), k)
  {}

  lemma ItemsBy(c: string, i: nat, depth: nat)
    requires Terminated(c) && i < |c|
    ensures ParseItems(c, i, depth) ==
      match ElementAt(c, i, depth)
      case Failed => Failed
      case Parsed(v, m) => if c[m] == ',' then Prefixed([v], ParseItems(c, m + 1, depth)) else Ended(c, m, [v], ']')
  {
    hide Parsing.ParseValue, Skip;
  }

  lemma PrefixedTwice<T>(a: seq<T>, b: seq<T>, r: Parse<seq<T>>)
    ensures Prefixed(a, Prefixed(b, r)) == Prefixed(a + b, r)
  {
    if r.Parsed? { assert a + (b + r.value) == a + b + r.value; }
  }

  // An element and the blanks behind it.
  function ElementAt(c: string, i: nat, depth: nat): (r: Parse<Value>)
    requires Terminated(c) && i < |c|
    ensures r.Parsed? ==> i < r.next < |c|
  {
    match Parsing.ParseValue(c, Skip(c, i), depth)
    case Failed => Failed
    case Parsed(v, k) => Parsed(v, Skip(c, k))
  }

  // A name, its colon and the blanks behind it.
  function NameAt(c: string, i: nat): (r: Parse<CString>)
    requires Terminated(c) && i < |c|
    ensures r.Parsed? ==> i < r.next < |c|
  {
    match Strings.ParseString(c, Skip(c, i))
    case Failed => Failed
    case Parsed(key, k) =>
      var m := Skip(c, k);
      if c[m] != ':' then Failed else Parsed(key, Skip(c, m + 1))
  }

  // A member and the blanks behind it.
  function MemberAt(c: string, i: nat, depth: nat): (r: Parse<Member>)
    requires Terminated(c) && i < |c|
    ensures r.Parsed? ==> i < r.next < |c|
  {
    match Parsing.ParseMember(c, i, depth)
    case Failed => Failed
    case Parsed(member, k) => Parsed(member, Skip(c, k))
  }

  // The member once its name is read: the value and the blanks behind it.
  function Named(c: string, key: CString, j: nat, depth: nat): Parse<Member>
    requires Terminated(c) && j < |c|
  {
    match Parsing.ParseValue(c, j, depth)
    case Failed => Failed
    case Parsed(v, k) => Parsed(Member(key, v), Skip(c, k))
  }

  lemma MemberParts(c: string, i: nat, depth: nat)
    requires Terminated(c) && i < |c|
    ensures MemberAt(c, i, depth) ==
      var name := NameAt(c, i); if name.Failed? then Failed else Named(c, name.value, name.next, depth)
  {}

  lemma NameFailed(c: string, i: nat, depth: nat, key: CString, v: Member, next: nat, granted: bool)
    requires Terminated(c) && i < |c| && Outcome(false, NameAt(c, i), key, next, granted)
    ensures Outcome(false, MemberAt(c, i, depth), v, next, granted)
  {
    hide NameAt, MemberAt;
    MemberParts(c, i, depth);
  }

  lemma NameGranted(c: string, i: nat, key: CString, j: nat, granted: bool)
    requires Terminated(c) && i < |c| && Outcome(true, NameAt(c, i), key, j, granted)
    ensures NameAt(c, i) == Parsed(key, j) && granted
  {
    hide NameAt;
  }

  lemma ValueEnds(c: string, i: nat, depth: nat, key: CString, j: nat, ok: bool, v: Value, k: nat, granted: bool)
    requires Terminated(c) && i < |c| && NameAt(c, i) == Parsed(key, j)
    requires j < |c| && Outcome(ok, Parsing.ParseValue(c, j, depth), v, k, granted)
    ensures ok ==> k < |c| && Outcome(true, MemberAt(c, i, depth), Member(key, v), Skip(c, k), granted)
    ensures !ok ==> Outcome(false, MemberAt(c, i, depth), Member(key, v), k, granted)
  {
    hide NameAt, MemberAt, Parsing.ParseValue, Skip;
    MemberParts(c, i, depth);
  }

  ghost function NameOf(item: Node): CString
    reads item`key
  {
    if item.key == null then "" else item.key.text
  }

  lemma QuoteIsNotLast(c: string, i: nat)
    requires Terminated(c) && i < |c|
    ensures Strings.ParseString(c, i).Parsed? ==> i < Strings.ParseString(c, i).next < |c|
  {}

  lemma NothingMore(f: Forest)
    ensures Append(f, End) == f && Members(End) == {} && Blocks(End) == {} && NoReference(End)
  {}

  // The item and what hangs below it own each block once.
  ghost predicate Sound(item: Node, kids: Forest)
    reads item, Members(kids)
  {
    HasKids(item, kids) && BothWays(kids) && Separate(kids) && Unshared(item) && Own(item) !! Blocks(kids)
  }

  lemma NothingDone<T>(r: Parse<seq<T>>)
    ensures Prefixed([], r) == r
  {
    if r.Parsed? { assert [] + r.value == r.value; }
  }

  // How far the loop has come: with more to read, the rest of the text decides; without,
  // the bracket under the cursor does.
  ghost predicate ItemsSoFar(c: string, more: bool, at: nat, depth: nat, done: seq<Value>, result: Parse<seq<Value>>) {
    Terminated(c)
    && if more then at + 1 < |c| && result == Prefixed(done, ParseItems(c, at + 1, depth))
       else at < |c| && result == Ended(c, at, done, ']')
  }

  lemma ItemsSoFarStart(c: string, at: nat, depth: nat)
    requires Terminated(c) && at + 1 < |c|
    ensures ItemsSoFar(c, true, at, depth, [], ParseItems(c, at + 1, depth))
  {
    hide ParseItems;
    NothingDone(ParseItems(c, at + 1, depth));
  }

  lemma ItemsSoFarBounds(c: string, at: nat, depth: nat, done: seq<Value>, result: Parse<seq<Value>>)
    requires ItemsSoFar(c, true, at, depth, done, result)
    ensures at + 1 < |c|
  {}

  lemma ItemsSoFarDone(c: string, at: nat, depth: nat, done: seq<Value>, result: Parse<seq<Value>>)
    requires ItemsSoFar(c, false, at, depth, done, result)
    ensures at < |c| && result == Ended(c, at, done, ']')
  {}

  lemma ItemsSoFarNext(c: string, from: nat, depth: nat, done: seq<Value>, result: Parse<seq<Value>>,
                 ok: bool, v: Value, at: nat, granted: bool)
    requires ItemsSoFar(c, true, from, depth, done, result)
    requires Outcome(ok, ElementAt(c, from + 1, depth), v, at, granted)
    ensures ok ==> from < at < |c| && ItemsSoFar(c, c[at] == ',', at, depth, done + [v], result)
    ensures if ok then granted else result.Failed? || !granted
  {
    hide ParseItems, ElementAt;
    ItemsBy(c, from + 1, depth);
    if ok && c[at] == ',' { PrefixedTwice(done, [v], ParseItems(c, at + 1, depth)); }
  }

  function MembersAfter(c: string, i: nat, depth: nat): Parse<seq<Member>>
    requires Terminated(c) && i < |c|
  {
    if c[i] == '}' then Parsed([], i + 1) else Parsing.ParseMembers(c, i, depth)
  }

  lemma ObjectBy(c: string, i: nat, depth: nat)
    requires Terminated(c) && i + 1 < |c| && c[i] == '{'
    ensures Parsing.ParseObject(c, i, depth) ==
      if depth >= NESTING_LIMIT then Failed
      else
        match MembersAfter(c, Skip(c, i + 1), depth + 1)
        case Failed => Failed
        case Parsed(ms, k) => Parsed(Object(ms), k)
  {}

  lemma MembersBy(c: string, i: nat, depth: nat)
    requires Terminated(c) && i < |c|
    ensures Parsing.ParseMembers(c, i, depth) ==
      match MemberAt(c, i, depth)
      case Failed => Failed
      case Parsed(v, m) => if c[m] == ',' then Prefixed([v], Parsing.ParseMembers(c, m + 1, depth))
          else Ended(c, m, [v], '}')
  {
    hide Parsing.ParseMember, Skip;
  }

  ghost predicate MembersSoFar(c: string, more: bool, at: nat, depth: nat, done: seq<Member>,
          result: Parse<seq<Member>>) {
    Terminated(c)
    && if more then at + 1 < |c| && result == Prefixed(done, Parsing.ParseMembers(c, at + 1, depth))
       else at < |c| && result == Ended(c, at, done, '}')
  }

  lemma MembersSoFarStart(c: string, at: nat, depth: nat)
    requires Terminated(c) && at + 1 < |c|
    ensures MembersSoFar(c, true, at, depth, [], Parsing.ParseMembers(c, at + 1, depth))
  {
    hide Parsing.ParseMembers;
    NothingDone(Parsing.ParseMembers(c, at + 1, depth));
  }

  lemma MembersSoFarBounds(c: string, at: nat, depth: nat, done: seq<Member>, result: Parse<seq<Member>>)
    requires MembersSoFar(c, true, at, depth, done, result)
    ensures at + 1 < |c|
  {}

  lemma MembersSoFarDone(c: string, at: nat, depth: nat, done: seq<Member>, result: Parse<seq<Member>>)
    requires MembersSoFar(c, false, at, depth, done, result)
    ensures at < |c| && result == Ended(c, at, done, '}')
  {}

  lemma MembersSoFarNext(c: string, from: nat, depth: nat, done: seq<Member>, result: Parse<seq<Member>>,
                 ok: bool, v: Member, at: nat, granted: bool)
    requires MembersSoFar(c, true, from, depth, done, result)
    requires Outcome(ok, MemberAt(c, from + 1, depth), v, at, granted)
    ensures ok ==> from < at < |c| && MembersSoFar(c, c[at] == ',', at, depth, done + [v], result)
    ensures if ok then granted else result.Failed? || !granted
  {
    hide Parsing.ParseMembers, MemberAt;
    MembersBy(c, from + 1, depth);
    if ok && c[at] == ',' { PrefixedTwice(done, [v], Parsing.ParseMembers(c, at + 1, depth)); }
  }

  lemma NoList()
    ensures Building(null, null, End, End) && Built(null, End, End) == End && AreItems(End, []) && AreMembers(End, [])
    ensures Members(End) == {} && Blocks(End) == {} && NoReference(End)
  {}

  // What the list owes to its items alone, however the last of them is filled.
  lemma ListParts(first: Node?, item: Node, before: Forest)
    requires Building(first, item, before, End)
    ensures Spans(first, before, item) && Threaded(before) && ChainedTo(before, item) && Separate(before)
    ensures item.next == null && item !in Blocks(before)
  {}

  lemma Refilled(first: Node?, item: Node, before: Forest, kids: Forest)
    requires Spans(first, before, item) && Threaded(before) && ChainedTo(before, item) && Separate(before)
    requires item.next == null && Sound(item, kids) && Blocks(before) !! Blocks(Single(item, kids))
    ensures Building(first, item, before, kids)
    ensures Built(item, before, kids) == Append(before, Single(item, kids))
    ensures Members(Single(item, kids)) == {item} + Members(kids) && item in Blocks(Single(item, kids))
  {}

  lemma OneItem(item: Node, kids: Forest, v: Value)
    requires Filled(item, kids, v)
    ensures AreItems(Single(item, kids), [v])
  {}

  lemma OneMember(item: Node, kids: Forest, v: Value)
    requires Filled(item, kids, v) && item.key != null
    ensures AreMembers(Single(item, kids), [Member(NameOf(item), v)])
  {}

  ghost function KeyOf(item: Node): set<object>
    reads item`key
  {
    if item.key == null then {} else {item.key}
  }

  lemma EmptySound(item: Node)
    requires Unfilled(item)
    ensures Sound(item, End) && Blocks(Single(item, End)) == {item} + KeyOf(item) && Members(End) == {}
    ensures NoReference(Single(item, End))
  {
    SingleParts(item, End);
  }

  lemma FilledSound(item: Node, kids: Forest, v: Value)
    requires Filled(item, kids, v) && Content(item, kids) !! {item} + KeyOf(item)
    ensures Sound(item, kids) && Blocks(Single(item, kids)) == {item} + KeyOf(item) + Content(item, kids)
    ensures NoReference(Single(item, kids))
  {}

  lemma NoKids(item: Node)
    requires item.child == null && !item.isReference
    ensures HasKids(item, End) && BothWays(End) && Separate(End)
    ensures Members(End) == {} && Blocks(End) == {} && NoReference(End)
  {}

  // A value with nothing below it.
  lemma Leaf(item: Node, v: Value)
    requires item.child == null && !item.isReference && !item.stringIsConst
    requires !v.Array? && !v.Object? && IsValue(item, End, v)
    ensures Filled(item, End, v) && Members(End) == {}
    ensures Content(item, End) == if item.valuestring == null then {} else {item.valuestring}
  {
    NoKids(item);
  }

  // A new item, or one that has only been given its key.
  ghost predicate Unfilled(item: Node)
    reads item`child, item`valuestring, item`isReference, item`stringIsConst
  {
    item.child == null && item.valuestring == null && !item.isReference && !item.stringIsConst
  }

  // The item has been given a value, and `kids` below it.
  ghost predicate Filled(item: Node, kids: Forest, v: Value)
    reads item`kind, item`child, item`valuestring, item`number, item`isReference, item`stringIsConst, Members(kids)
  {
    HasKids(item, kids) && BothWays(kids) && Separate(kids) && IsValue(item, kids, v)
    && !item.isReference && !item.stringIsConst && (item.valuestring == null || kids == End) && NoReference(kids)
  }

  // What a call leaves behind: a value, all of its blocks new, or nothing at all.
  twostate predicate Gave(hooks: Hooks, item: Node, ok: bool, new kids: Forest, v: Value)
    reads hooks, item, Members(kids)
  {
    if ok then
      && Filled(item, kids, v) && fresh(Members(kids)) && fresh(Content(item, kids))
      && hooks.live == old(hooks.live) + Content(item, kids)
    else kids == End && Unfilled(item) && hooks.live == old(hooks.live)
  }

  // The blocks that came with the value.
  ghost function Content(item: Node, kids: Forest): set<object>
    reads item`valuestring
    reads Members(kids)`isReference, Members(kids)`stringIsConst, Members(kids)`valuestring, Members(kids)`key
  {
    (if item.valuestring == null then {} else {item.valuestring}) + Blocks(kids)
  }

  // What the item's string says.
  ghost function TextOf(item: Node): CString
    reads item`valuestring
  {
    if item.valuestring == null then "" else item.valuestring.text
  }

  // A filled block is a C string from now on: its text ends at the first NUL.
  method Seal(hooks: Hooks, output: array<char>, ghost bytes: string) returns (text: Chars)
    requires output in hooks.live && |bytes| < output.Length && output[|bytes|] == '\0'
    requires forall k | 0 <= k < |bytes| :: output[k] == bytes[k]
    modifies hooks`live
    ensures fresh(text) && text.text == CutAtNul(bytes) && hooks.live == old(hooks.live) - {output} + {text}
  {
    CutInFront(output[..], bytes);
    text := new Chars(CutAtNul(output[..]));
    hooks.Deallocate(output);
    hooks.Adopt(text);
  }

  lemma {:induction false} CutInFront(s: string, bytes: string)
    requires |bytes| < |s| && s[|bytes|] == '\0' && forall k | 0 <= k < |bytes| :: s[k] == bytes[k]
    ensures CutAtNul(s) == CutAtNul(bytes)
  {}

  lemma PrependTwice(a: string, b: string, r: Option<string>)
    ensures Prepend(a, Prepend(b, r)) == Prepend(a + b, r)
  {
    if r.Some? { assert a + (b + r.value) == a + b + r.value; }
  }

  lemma StartDecode(c: string, start: nat, end: nat)
    requires start <= end < |c|
    ensures Decode(c, start, end) == Prepend("", Decode(c, start, end))
  {
    if Decode(c, start, end).Some? { assert "" + Decode(c, start, end).value == Decode(c, start, end).value; }
  }

  lemma AllDecoded(c: string, p: nat, end: nat, written: string)
    requires p >= end && end < |c|
    ensures Prepend(written, Decode(c, p, end)) == Some(written)
  {
    assert written + "" == written;
  }

  lemma ScanBounds(c: string, q: nat)
    ensures ScanString(c, q).Closed? ==> ScanString(c, q).skipped <= ScanString(c, q).end - q
  {}

  function Later(scan: Scan, skipped: nat): Scan {
    if scan.Open? then Open else Closed(scan.end, scan.skipped + skipped)
  }

  // ---------- The whole text ----------

  // The root item takes the value of the whole text.
  method ParseRoot(buffer: ParseBuffer, item: Node, toTheEnd: bool) returns (ok: bool, ghost kids: Forest,
          ghost v: Value)
    requires Terminated(buffer.content) && buffer.offset == 0 && buffer.depth == 0
    requires Blank(item) && item.child == null && item in buffer.hooks.live
    modifies buffer, buffer.hooks, item`kind, item`child, item`valuestring, item`number
    ensures Sound(item, kids) && fresh(Members(kids)) && fresh(Blocks(Single(item, kids)) - {item})
    ensures buffer.hooks.live == old(buffer.hooks.live) + Blocks(Single(item, kids))
    ensures Outcome(ok, Rooted(buffer.content, toTheEnd), v, buffer.offset,
      buffer.hooks.Granted(old(buffer.hooks.requests), buffer.hooks.requests))
    ensures old(buffer.hooks.requests) <= buffer.hooks.requests <= old(buffer.hooks.requests) + |buffer.content|
    ensures ok ==> Stands(item, kids, v)
  {
    hide Members, Blocks, Parsing.ParseValue, Skip, Content, Sound, Stands, Filled, AfterMark;
    EmptySound(item);
    buffer.SkipUtf8Bom();
    buffer.SkipWhitespace();
    ok, kids, v := buffer.ParseValue(item);
    if !ok {
      EmptySound(item);
      return;
    }
    FilledSound(item, kids, v);
    FilledStands(item, kids, v);
    if toTheEnd {
      assert allocated(Members(kids)) && allocated(Members(Single(item, kids)));
      buffer.SkipWhitespace();
      ok := buffer.content[buffer.offset] == '\0';
    }
  }

  lemma FilledStands(item: Node, kids: Forest, v: Value)
    requires Filled(item, kids, v)
    ensures Stands(item, kids, v)
  {
    OwnedUnfolds(item.child, kids);
  }

  // A tree for exactly the texts that parse, all of it new and in order; otherwise
  // nothing stays allocated.
  method ParseWithOpts(hooks: Hooks, value: CString, requireNullTerminated: bool)
    returns (item: Node?, parseEnd: nat, ghost kids: Forest, ghost v: Value)
    modifies hooks
    ensures item == null ==> hooks.live == old(hooks.live)
    ensures item != null <==>
      ParseText(value, requireNullTerminated).Some? && hooks.Granted(old(hooks.requests), hooks.requests)
    ensures old(hooks.requests) <= hooks.requests <= old(hooks.requests) + |value| + 2
    ensures item != null ==> ParseText(value, requireNullTerminated) == Some((v, parseEnd)) && Stands(item, kids, v)
    ensures item != null ==> Sound(item, kids) && item.next == null && item.prev == null && item.key == null
    ensures item != null ==> fresh(item) && fresh(Members(kids)) && fresh(Blocks(Single(item, kids)))
    ensures item != null ==> hooks.live == old(hooks.live) + Blocks(Single(item, kids))
  {
    hide Members, Blocks, Rooted, Sound, Stands, Spans, Separate;
    parseEnd, kids, v := 0, End, Null;
    var buffer := new ParseBuffer(value + "\0", hooks);
    item := NewItem(hooks);
    if item == null {
      return;
    }
    var ok;
    ghost var before := hooks.requests;
    ok, kids, v := ParseRoot(buffer, item, requireNullTerminated);
    hooks.Joined(old(hooks.requests), before, hooks.requests);
    SoundSpans(item, kids);
    if !ok {
      Delete(hooks, item, Single(item, kids));
      return null, 0, End, Null;
    }
    parseEnd := buffer.offset;
  }

  lemma SoundSpans(item: Node, kids: Forest)
    requires Sound(item, kids) && item.next == null
    ensures Spans(item, Single(item, kids), null) && Separate(Single(item, kids)) && item in Blocks(Single(item, kids))
  {}
}
