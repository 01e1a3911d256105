/**
  What minification does to string tokens, to its own output, and to printed text.
  */
module MinifyLaws {
  import opened Text
  import opened Strings
  import opened Decimals
  import opened Values
  import opened Minify

  // ---------- String tokens ----------

  // No backslash stands right before the closing quote, or the token ends the text.
  predicate CleanEnd(t: string, end: nat)
    requires 0 < end < |t|
  {
    t[end - 1] != '\\' || end + 1 == |t|
  }

  // The copy of a string token, whose content starts at `q`, stops behind the token
  // exactly when it has a clean end.
  lemma TokenCopied(t: string, q: nat, end: nat)
    requires 0 < q && ClosesAt(t, q, end) && t[q - 1] == '\"'
    ensures CopyEnd(t, q) == end + 1 <==> CleanEnd(t, end)
  {
    CopyRuns(t, q, end);
  }

  // Otherwise it runs on to where a copy from behind the token would stop.
  lemma CopyRuns(t: string, q: nat, end: nat)
    requires 0 < q && ClosesAt(t, q, end) && t[q - 1] == '\"'
    ensures CopyEnd(t, q) == if t[end - 1] == '\\' then CopyEnd(t, end + 1) else end + 1
  {
    CopyLags(t, q, end);
  }

  // The copy may lag one byte behind the scan, on the second byte of a pair.
  function Lag(t: string, q: nat): nat
    requires 0 < q <= |t|
  {
    if t[q - 1] == '\\' then q - 1 else q
  }

  lemma {:induction false} CopyLags(t: string, q: nat, end: nat)
    requires 0 < q && ClosesAt(t, q, end)
    ensures CopyEnd(t, Lag(t, q)) == if t[end - 1] == '\\' then CopyEnd(t, end + 1) else end + 1
    decreases end - q
  {
    if q < end {
      CopyLags(t, if t[q] == '\\' then q + 2 else q + 1, end);
      hide ScanString, CopyEnd;
      CopyMoves(t, q);
    } else {
      hide ScanString;
    }
  }

  lemma CopyMoves(t: string, q: nat)
    requires 0 < q < |t| && t[q] != '\"' && (t[q] == '\\' ==> q + 1 < |t|)
    ensures CopyEnd(t, Lag(t, q)) == CopyEnd(t, Lag(t, if t[q] == '\\' then q + 2 else q + 1))
  {
    hide CopyEnd;
    CopyStep(t, q);
    if t[q] == '\\' { CopyStep(t, q + 1); }
    if t[q - 1] == '\\' { CopyStep(t, q - 1); }
  }

  // ---------- A second run ----------

  // From index `o` on, `w` is what `t` from `i` on is minified to.
  ghost predicate Follows(w: string, o: nat, t: string, i: nat) {
    i <= |t| && o + |Minified(t, i)| == |w| && w[o..] == Minified(t, i)
  }

  predicate IsPlain(b: char) { !IsStripped(b) && b != '/' && b != '\"' }

  lemma FollowPlain(w: string, o: nat, t: string, i: nat)
    requires Follows(w, o, t, i) && i < |t| && IsPlain(t[i])
    ensures o < |w| && w[o] == t[i] && Follows(w, o + 1, t, i + 1)
  {}

  lemma FollowString(w: string, o: nat, t: string, i: nat)
    requires Follows(w, o, t, i) && i < |t| && t[i] == '\"'
    ensures var k := CopyEnd(t, i + 1);
      && i < k && o + k - i <= |w| && Has(w, o, t[i..k]) && Follows(w, o + k - i, t, k)
  {
    hide Minified, CopyEnd;
    MinifyStep(t, i);
    StartsWith(w, o, t[i..CopyEnd(t, i + 1)], Minified(t, CopyEnd(t, i + 1)));
  }

  lemma StartsWith(w: string, o: nat, a: string, b: string)
    requires o <= |w| && w[o..] == a + b
    ensures Has(w, o, a) && w[o + |a|..] == b
  {
    assert w[o..][..|a|] == a && w[o..][|a|..] == b;
  }

  lemma FollowEnd(w: string, o: nat, t: string)
    requires Follows(w, o, t, |t|)
    ensures o == |w|
  {}

  // A token that is copied whole ends in the same way where it stands in the copy.
  lemma {:induction false} CopyEndMoves(t: string, p: nat, w: string, o: nat)
    requires p <= |t| && o + CopyEnd(t, p) - p <= |w|
    requires forall k | p <= k < CopyEnd(t, p) :: w[o + k - p] == t[k]
    requires CopyEnd(t, p) == |t| ==> o + |t| - p == |w|
    ensures CopyEnd(w, o) == o + CopyEnd(t, p) - p
    decreases |t| - p
  {
    if p < |t| {
      assert w[o] == t[p];
      if t[p] == '\"' {
      } else if t[p] == '\\' && p + 1 < |t| && t[p + 1] == '\"' {
        assert w[o + 1] == t[p + 1];
        CopyEndMoves(t, p + 2, w, o + 2);
      } else {
        if p + 1 < |t| { assert CopyEnd(t, p + 1) > p + 1; assert w[o + 1] == t[p + 1]; }
        CopyEndMoves(t, p + 1, w, o + 1);
      }
    }
  }

  // Minified text stays as it is.
  lemma {:induction false} MinifiedAgain(w: string, o: nat, t: string, i: nat)
    requires i <= |t| && o <= |w| && Follows(w, o, t, i)
    ensures Minified(w, o) == Minified(t, i)
    decreases |t| - i
  {
    hide Follows, CopyEnd, LineEnd, BlockEnd, Minified;
    if i < |t| { MinifyStep(t, i); }
    if o < |w| { MinifyStep(w, o); }
    if i == |t| {
      FollowEnd(w, o, t);
      MinifiedEnd(t);
      MinifiedEnd(w);
    } else if IsStripped(t[i]) {
      FollowSame(w, o, t, i, i + 1);
      MinifiedAgain(w, o, t, i + 1);
    } else if t[i] == '/' {
      var j := if i + 1 < |t| && t[i + 1] == '/' then LineEnd(t, i + 2)
               else if i + 1 < |t| && t[i + 1] == '*' then BlockEnd(t, i + 2) else i + 1;
      FollowSame(w, o, t, i, j);
      MinifiedAgain(w, o, t, j);
    } else if t[i] == '\"' {
      StringAgain(w, o, t, i);
      MinifiedAgain(w, o + CopyEnd(t, i + 1) - i, t, CopyEnd(t, i + 1));
    } else {
      FollowPlain(w, o, t, i);
      MinifiedAgain(w, o + 1, t, i + 1);
    }
  }

  lemma FollowSame(w: string, o: nat, t: string, i: nat, j: nat)
    requires Follows(w, o, t, i) && j <= |t| && Minified(t, i) == Minified(t, j)
    ensures Follows(w, o, t, j)
  {}

  lemma StringAgain(w: string, o: nat, t: string, i: nat)
    requires Follows(w, o, t, i) && i < |t| && t[i] == '\"'
    ensures var k := CopyEnd(t, i + 1);
      && i < k && o < |w| && w[o] == '\"' && CopyEnd(w, o + 1) == o + k - i
      && w[o..o + k - i] == t[i..k] && Follows(w, o + k - i, t, k)
  {
    FollowString(w, o, t, i);
    var k := CopyEnd(t, i + 1);
    forall x | i <= x < k ensures w[o + x - i] == t[x] { HasAt(w, o, t[i..k], x - i); }
    if k == |t| { FollowEnd(w, o + k - i, t); }
    hide Follows;
    CopyEndMoves(t, i + 1, w, o + 1);
  }

  // A second run of cJSON_Minify changes nothing, whatever the text.
  lemma MinifyIdempotent(t: string)
    ensures Minified(Minified(t, 0), 0) == Minified(t, 0)
  {
    MinifiedAgain(Minified(t, 0), 0, t, 0);
  }

  // ---------- Printed text ----------

  // The bytes `f` at `i` are minified to `u`, independently of what follows them.
  ghost predicate Becomes(t: string, i: nat, f: string, u: string) {
    Has(t, i, f) && Minified(t, i) == u + Minified(t, i + |f|)
  }

  lemma Compose(t: string, i: nat, f: string, u: string, f': string, u': string)
    requires Becomes(t, i, f, u) && Becomes(t, i + |f|, f', u')
    ensures Becomes(t, i, f + f', u + u')
  {
    hide Has, Minified;
    HasJoin(t, i, f, f');
    assert i + |f| + |f'| == i + |f + f'|;
    assert u + (u' + Minified(t, i + |f + f'|)) == (u + u') + Minified(t, i + |f + f'|);
  }

  lemma HasJoin(t: string, i: nat, a: string, b: string)
    requires Has(t, i, a) && Has(t, i + |a|, b)
    ensures Has(t, i, a + b)
  {
    forall k | 0 <= k < |a + b| ensures t[i + k] == (a + b)[k] {
      if k < |a| { HasAt(t, i, a, k); } else { HasAt(t, i + |a|, b, k - |a|); }
    }
  }

  lemma BecomesNothing(t: string, i: nat)
    requires i <= |t|
    ensures Becomes(t, i, "", "")
  {}

  lemma BecomesOne(t: string, i: nat, b: char)
    requires Has(t, i, [b])
    ensures IsPlain(b) ==> Becomes(t, i, [b], [b])
    ensures IsStripped(b) ==> Becomes(t, i, [b], "")
  {}

  lemma {:induction false} PlainKept(t: string, i: nat, x: string)
    requires i <= |t| && Has(t, i, x) && forall k | 0 <= k < |x| :: IsPlain(x[k])
    ensures Becomes(t, i, x, x)
    decreases |x|
  {
    hide Becomes, Has, Minified;
    if x == "" {
      BecomesNothing(t, i);
    } else {
      assert x == [x[0]] + x[1..];
      HasSplit(t, i, [x[0]], x[1..]);
      BecomesOne(t, i, x[0]);
      HasBound(t, i + 1, x[1..]);
      PlainKept(t, i + 1, x[1..]);
      Compose(t, i, [x[0]], [x[0]], x[1..], x[1..]);
    }
  }

  lemma HasBound(t: string, i: nat, x: string)
    requires Has(t, i, x)
    ensures i + |x| <= |t|
  {}

  lemma {:induction false} StrippedGone(t: string, i: nat, x: string)
    requires i <= |t| && Has(t, i, x) && forall k | 0 <= k < |x| :: IsStripped(x[k])
    ensures Becomes(t, i, x, "")
    decreases |x|
  {
    hide Becomes, Has, Minified;
    if x == "" {
      BecomesNothing(t, i);
    } else {
      assert x == [x[0]] + x[1..];
      HasSplit(t, i, [x[0]], x[1..]);
      BecomesOne(t, i, x[0]);
      HasBound(t, i + 1, x[1..]);
      StrippedGone(t, i + 1, x[1..]);
      assert "" + "" == "";
      Compose(t, i, [x[0]], "", x[1..], "");
    }
  }

  predicate EndsInBackslash(s: string) { s != "" && s[|s| - 1] == '\\' }

  lemma {:induction false} EscapeEnd(s: string)
    ensures EndsInBackslash(Escape(s)) == EndsInBackslash(s)
  {
    if |s| > 1 {
      EscapeEnd(s[1..]);
      assert Escape(s)[|Escape(s)| - 1] == Escape(s[1..])[|Escape(s[1..])| - 1];
    } else if |s| == 1 {
      assert Escape(s) == EscapeChar(s[0]);
    }
  }

  lemma QuoteKept(t: string, i: nat, s: CString)
    requires Has(t, i, Quote(s)) && !EndsInBackslash(s)
    ensures Becomes(t, i, Quote(s), Quote(s))
  {
    hide Has, Escape, Minified, CopyEnd, Decode;
    var x, end := Quote(s), i + |Quote(s)| - 1;
    HasAt(t, i, x, 0);
    HasAt(t, i, x, |x| - 1);
    HasAt(t, i, x, |x| - 2);
    HasSplit(t, i, "\"" + Escape(s), "\"");
    HasSplit(t, i, "\"", Escape(s));
    EscapeRead(t, i + 1, s, end);
    EscapeEnd(s);
    TokenCopied(t, i + 1, end);
    assert t[i..end + 1] == x by { HasWhole(t, i, x); }
    TokenMinified(t, i);
  }

  lemma HasWhole(t: string, i: nat, x: string)
    requires Has(t, i, x)
    ensures i + |x| <= |t| && t[i..i + |x|] == x
  {}

  lemma TokenMinified(t: string, i: nat)
    requires i < |t| && t[i] == '\"'
    ensures Minified(t, i) == t[i..CopyEnd(t, i + 1)] + Minified(t, CopyEnd(t, i + 1))
  {}

  // No item holds unchecked text, and no string or key ends in a backslash.
  predicate Tidy(v: Value)
    decreases v, 0
  {
    match v
    case Raw(_) => false
    case NoValue => false
    case Str(s) => !EndsInBackslash(s)
    case Array(items) => ItemsTidy(items)
    case Object(members) => MembersTidy(members)
    case _ => true
  }

  predicate ItemsTidy(items: seq<Value>)
    decreases items
  {
    items == [] || (Tidy(items[0]) && ItemsTidy(items[1..]))
  }

  predicate MembersTidy(members: seq<Member>)
    decreases members
  {
    members == [] || (!EndsInBackslash(members[0].key) && Tidy(members[0].value) && MembersTidy(members[1..]))
  }

  lemma {:induction false} ValueMinified(t: string, i: nat, v: Value, depth: nat)
    requires i <= |t| && Tidy(v) && Has(t, i, Render(v, true, depth))
    ensures Becomes(t, i, Render(v, true, depth), Render(v, false, depth))
    decreases v, 0
  {
    hide Has, Becomes, Quote, NumberText, Minified, RenderItems, RenderMembers;
    match v
    case Num(d) =>
      NumberTextChars(d);
      PlainKept(t, i, NumberText(d));
    case Str(s) => QuoteKept(t, i, s);
    case Array(items) => ArrayMinified(t, i, items, depth);
    case Object(members) => ObjectMinified(t, i, members, depth);
    case _ => PlainKept(t, i, Render(v, true, depth));
  }

  lemma {:induction false} ArrayMinified(t: string, i: nat, items: seq<Value>, depth: nat)
    requires i <= |t| && ItemsTidy(items) && Has(t, i, Render(Array(items), true, depth))
    ensures Becomes(t, i, Render(Array(items), true, depth), Render(Array(items), false, depth))
    decreases items, 3
  {
    hide Has, Becomes, RenderItems, ItemsTidy;
    var f, u := RenderItems(items, true, depth + 1), RenderItems(items, false, depth + 1);
    HasBound(t, i, "[" + (f + "]"));
    HasSplit(t, i, "[", f + "]");
    HasSplit(t, i + 1, f, "]");
    PlainKept(t, i, "[");
    ItemsMinified(t, i + 1, items, depth + 1);
    PlainKept(t, i + 1 + |f|, "]");
    Compose(t, i + 1, f, u, "]", "]");
    Compose(t, i, "[", "[", f + "]", u + "]");
  }

  lemma {:induction false} ItemsMinified(t: string, i: nat, items: seq<Value>, depth: nat)
    requires i <= |t| && ItemsTidy(items) && Has(t, i, RenderItems(items, true, depth))
    ensures Becomes(t, i, RenderItems(items, true, depth), RenderItems(items, false, depth))
    decreases items, 0
  {
    hide Has, Becomes, Render, Tidy, ItemsRest;
    if items == [] {
      BecomesNothing(t, i);
    } else {
      var f, r := Render(items[0], true, depth), ItemsRest(items, true, depth);
      HasSplit(t, i, f, r);
      HasBound(t, i + |f|, r);
      ValueMinified(t, i, items[0], depth);
      RestMinified(t, i + |f|, items, depth);
      Compose(t, i, f, Render(items[0], false, depth), r, ItemsRest(items, false, depth));
    }
  }

  lemma {:induction false} RestMinified(t: string, i: nat, items: seq<Value>, depth: nat)
    requires i <= |t| && items != [] && ItemsTidy(items[1..]) && Has(t, i, ItemsRest(items, true, depth))
    ensures Becomes(t, i, ItemsRest(items, true, depth), ItemsRest(items, false, depth))
    decreases items, 0, 0
  {
    hide Has, Becomes, RenderItems, ItemsTidy;
    if |items| == 1 {
      BecomesNothing(t, i);
    } else {
      var f := RenderItems(items[1..], true, depth);
      HasSplit(t, i, ", ", f);
      HasBound(t, i + 2, f);
      assert ", " == "," + " " && "," + "" == ",";
      HasSplit(t, i, ",", " ");
      PlainKept(t, i, ",");
      StrippedGone(t, i + 1, " ");
      Compose(t, i, ",", ",", " ", "");
      ItemsMinified(t, i + 2, items[1..], depth);
      Compose(t, i, ", ", ",", f, RenderItems(items[1..], false, depth));
    }
  }

  lemma {:induction false} ObjectMinified(t: string, i: nat, members: seq<Member>, depth: nat)
    requires i <= |t| && MembersTidy(members) && Has(t, i, Render(Object(members), true, depth))
    ensures Becomes(t, i, Render(Object(members), true, depth), Render(Object(members), false, depth))
    decreases members, 3
  {
    hide Has, Becomes, RenderMembers, MembersTidy, Tabs;
    var f, u := RenderMembers(members, true, depth + 1), RenderMembers(members, false, depth + 1);
    var close := Tabs(depth) + "}";
    HasBound(t, i, "{\n" + (f + close));
    HasSplit(t, i, "{\n", f + close);
    HasSplit(t, i + 2, f, close);
    BraceMinified(t, i);
    MembersMinified(t, i + 2, members, depth + 1);
    CloseMinified(t, i + 2 + |f|, depth);
    Compose(t, i + 2, f, u, close, "" + "}");
    Compose(t, i, "{\n", "{", f + close, u + ("" + "}"));
  }

  lemma BraceMinified(t: string, i: nat)
    requires Has(t, i, "{\n")
    ensures Becomes(t, i, "{\n", "{")
  {
    hide Becomes, Has;
    HasBound(t, i, "{\n");
    assert "{\n" == "{" + "\n" && "{" == "{" + "";
    HasSplit(t, i, "{", "\n");
    PlainKept(t, i, "{");
    StrippedGone(t, i + 1, "\n");
    Compose(t, i, "{", "{", "\n", "");
  }

  lemma CloseMinified(t: string, i: nat, depth: nat)
    requires Has(t, i, Tabs(depth) + "}")
    ensures Becomes(t, i, Tabs(depth) + "}", "" + "}")
  {
    hide Becomes, Has;
    HasBound(t, i, Tabs(depth) + "}");
    HasSplit(t, i, Tabs(depth), "}");
    StrippedGone(t, i, Tabs(depth));
    PlainKept(t, i + depth, "}");
    Compose(t, i, Tabs(depth), "", "}", "}");
  }

  lemma ColonMinified(t: string, i: nat)
    requires Has(t, i, ":\t")
    ensures Becomes(t, i, ":\t", ":")
  {
    hide Becomes, Has;
    HasBound(t, i, ":\t");
    assert ":\t" == ":" + "\t" && ":" == ":" + "";
    HasSplit(t, i, ":", "\t");
    PlainKept(t, i, ":");
    StrippedGone(t, i + 1, "\t");
    Compose(t, i, ":", ":", "\t", "");
  }

  lemma {:induction false} MemberMinified(t: string, i: nat, m: Member, depth: nat)
    requires i <= |t| && !EndsInBackslash(m.key) && Tidy(m.value) && Has(t, i, RenderMember(m, true, depth))
    ensures Becomes(t, i, RenderMember(m, true, depth), RenderMember(m, false, depth))
    decreases m, 1
  {
    hide Has, Becomes, Render, Tidy, Tabs, Quote, EndsInBackslash;
    var q, f, u := Quote(m.key), ":\t" + Render(m.value, true, depth), ":" + Render(m.value, false, depth);
    HasSplit(t, i, Tabs(depth), q + f);
    var k := i + depth;
    HasBound(t, k, q + f);
    HasSplit(t, k, q, f);
    StrippedGone(t, i, Tabs(depth));
    QuoteKept(t, k, m.key);
    FieldMinified(t, k + |q|, m.value, depth);
    Compose(t, k, q, q, f, u);
    Compose(t, i, Tabs(depth), "", q + f, q + u);
  }

  lemma {:induction false} FieldMinified(t: string, i: nat, v: Value, depth: nat)
    requires Tidy(v) && Has(t, i, ":\t" + Render(v, true, depth))
    ensures Becomes(t, i, ":\t" + Render(v, true, depth), ":" + Render(v, false, depth))
    decreases v, 1
  {
    hide Has, Becomes, Render, Tidy;
    HasBound(t, i, ":\t" + Render(v, true, depth));
    HasSplit(t, i, ":\t", Render(v, true, depth));
    ColonMinified(t, i);
    ValueMinified(t, i + 2, v, depth);
    Compose(t, i, ":\t", ":", Render(v, true, depth), Render(v, false, depth));
  }

  lemma {:induction false} MembersMinified(t: string, i: nat, members: seq<Member>, depth: nat)
    requires i <= |t| && MembersTidy(members) && Has(t, i, RenderMembers(members, true, depth))
    ensures Becomes(t, i, RenderMembers(members, true, depth), RenderMembers(members, false, depth))
    decreases members, 2
  {
    hide Has, Becomes, RenderMember, MemberEnd, Tidy;
    if members == [] {
      BecomesNothing(t, i);
    } else {
      var m, m', last := RenderMember(members[0], true, depth), RenderMember(members[0], false, depth), |members| == 1;
      var end, rest := MemberEnd(true, last), RenderMembers(members[1..], true, depth);
      HasSplit(t, i, m, end + rest);
      HasSplit(t, i + |m|, end, rest);
      HasBound(t, i + |m| + |end|, rest);
      MemberMinified(t, i, members[0], depth);
      EndMinified(t, i + |m|, last);
      MembersMinified(t, i + |m| + |end|, members[1..], depth);
      Compose(t, i + |m|, end, MemberEnd(false, last), rest, RenderMembers(members[1..], false, depth));
      Compose(t, i, m, m', end + rest, MemberEnd(false, last) + RenderMembers(members[1..], false, depth));
    }
  }

  lemma EndMinified(t: string, i: nat, last: bool)
    requires Has(t, i, MemberEnd(true, last))
    ensures Becomes(t, i, MemberEnd(true, last), MemberEnd(false, last))
  {
    hide Has, Becomes;
    var comma := if last then "" else ",";
    HasBound(t, i, MemberEnd(true, last));
    HasSplit(t, i, comma, "\n");
    PlainKept(t, i, comma);
    StrippedGone(t, i + |comma|, "\n");
    Compose(t, i, comma, comma, "\n", "");
  }

  // Minifying formatted output gives exactly the unformatted output.
  lemma MinifyOfFormatted(v: Value)
    requires Tidy(v)
    ensures Minified(Render(v, true, 0), 0) == Render(v, false, 0)
  {
    hide Render;
    var t := Render(v, true, 0);
    ValueMinified(t, 0, v, 0);
    MinifiedEnd(t);
  }
}
