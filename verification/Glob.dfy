/**
 Glob patterns: what a pattern means, as tokens and the texts they take, and the
 matcher that reads the pattern and the text in one pass.
 */
module Glob {
  import opened Wrappers
  import opened Words
  import opened Bytes

  const STAR: byte := 0x2A
  const ANY: byte := 0x3F
  const OPEN: byte := 0x5B
  const ESCAPE: byte := 0x5C
  const CLOSE: byte := 0x5D
  const CARET: byte := 0x5E
  const BANG: byte := 0x21
  const DASH: byte := 0x2D

  // ---------- patterns ----------

  datatype Item = One(b: byte) | Range(from: byte, upto: byte)

  // Broken stands for a class without its closing bracket.
  datatype Token = Star | Any | Class(negated: bool, items: seq<Item>) | Literal(b: byte) | Broken

  // the items up to the closing bracket, and the pattern behind it
  function ParseItems(p: Key): (r: Option<(seq<Item>, Key)>)
    ensures r.Some? ==> |r.value.1| < |p|
    decreases |p|
  {
    if p == [] then None
    else if p[0] == ESCAPE && |p| > 1 then WithItem(One(p[1]), ParseItems(p[2..]))
    else if p[0] == CLOSE then Some(([], p[1..]))
    else if |p| >= 3 && p[1] == DASH && p[2] != CLOSE then WithItem(Range(p[0], p[2]), ParseItems(p[3..]))
    else WithItem(One(p[0]), ParseItems(p[1..]))
  }

  function WithItem(i: Item, r: Option<(seq<Item>, Key)>): Option<(seq<Item>, Key)> {
    if r.None? then None else Some(([i] + r.value.0, r.value.1))
  }

  predicate IsNegation(p: Key) {
    p != [] && (p[0] == CARET || p[0] == BANG)
  }

  // the pattern behind the opening bracket and a negation sign
  function ClassBody(p: Key): (r: Key)
    ensures |r| <= |p|
  {
    if IsNegation(p) then p[1..] else p
  }

  function Parse(p: Key): seq<Token>
    decreases |p|
  {
    if p == [] then []
    else if p[0] == STAR then [Star] + Parse(p[1..])
    else if p[0] == ANY then [Any] + Parse(p[1..])
    else if p[0] == OPEN then
      var items := ParseItems(ClassBody(p[1..]));
      if items.None? then [Broken]
      else [Class(IsNegation(p[1..]), items.value.0)] + Parse(items.value.1)
    else if p[0] == ESCAPE && |p| > 1 then [Literal(p[1])] + Parse(p[2..])
    else [Literal(p[0])] + Parse(p[1..])
  }

  // ---------- meaning ----------

  predicate InItem(i: Item, c: byte) {
    match i
    case One(b) => b == c
    case Range(a, b) => a <= c <= b || b <= c <= a
  }

  predicate InItems(items: seq<Item>, c: byte) {
    exists i :: 0 <= i < |items| && InItem(items[i], c)
  }

  // the pieces of text a token takes
  predicate Takes(t: Token, piece: Key) {
    match t
    case Star => true
    case Any => |piece| == 1
    case Class(negated, items) => |piece| == 1 && InItems(items, piece[0]) != negated
    case Literal(b) => piece == [b]
    case Broken => false
  }

  function Join(pieces: seq<Key>): Key {
    if pieces == [] then [] else pieces[0] + Join(pieces[1..])
  }

  // The text falls into one piece for every token.
  ghost predicate Splits(ts: seq<Token>, text: Key, pieces: seq<Key>) {
    |pieces| == |ts| && Join(pieces) == text && forall i :: 0 <= i < |ts| ==> Takes(ts[i], pieces[i])
  }

  ghost predicate Matches(ts: seq<Token>, text: Key) {
    exists pieces: seq<Key> :: Splits(ts, text, pieces)
  }

  // ---------- one token at a time ----------

  lemma MatchesEmpty(text: Key)
    ensures Matches([], text) <==> text == []
  {
    if text == [] {
      assert Splits([], [], []);
    }
  }

  lemma MatchesCons(t: Token, ts: seq<Token>, piece: Key, rest: Key)
    requires Takes(t, piece) && Matches(ts, rest)
    ensures Matches([t] + ts, piece + rest)
  {
    var pieces: seq<Key> :| Splits(ts, rest, pieces);
    var all := [piece] + pieces;
    assert all[1..] == pieces;
    forall i | 0 <= i < |ts| + 1 ensures Takes(([t] + ts)[i], all[i]) {
      if i > 0 {
        assert Takes(ts[i - 1], pieces[i - 1]);
      }
    }
    assert Splits([t] + ts, piece + rest, all);
  }

  lemma MatchesUncons(t: Token, ts: seq<Token>, text: Key) returns (n: nat)
    requires Matches([t] + ts, text)
    ensures n <= |text| && Takes(t, text[..n]) && Matches(ts, text[n..])
  {
    var all := [t] + ts;
    var pieces: seq<Key> :| Splits(all, text, pieces);
    n := |pieces[0]|;
    assert text == pieces[0] + Join(pieces[1..]);
    assert text[..n] == pieces[0] && text[n..] == Join(pieces[1..]);
    assert Takes(all[0], pieces[0]);
    forall i | 0 <= i < |ts| ensures Takes(ts[i], pieces[1..][i]) {
      assert Takes(all[i + 1], pieces[i + 1]);
    }
    assert Splits(ts, text[n..], pieces[1..]);
  }

  // A token that takes single bytes.
  predicate Single(t: Token) { !t.Star? && !t.Broken? }

  lemma SingleStep(t: Token, ts: seq<Token>, text: Key)
    requires Single(t)
    ensures Matches([t] + ts, text) <==> text != [] && Takes(t, text[..1]) && Matches(ts, text[1..])
  {
    if Matches([t] + ts, text) {
      var n := MatchesUncons(t, ts, text);
    }
    if text != [] && Takes(t, text[..1]) && Matches(ts, text[1..]) {
      MatchesCons(t, ts, text[..1], text[1..]);
      assert text[..1] + text[1..] == text;
    }
  }

  // A star takes nothing, or one byte and goes on.
  lemma StarStep(ts: seq<Token>, text: Key)
    ensures Matches([Star] + ts, text) <==> Matches(ts, text) || (text != [] && Matches([Star] + ts, text[1..]))
  {
    if Matches([Star] + ts, text) {
      var n := MatchesUncons(Star, ts, text);
      if n > 0 {
        assert text[n..] == text[1..][n - 1..];
        MatchesCons(Star, ts, text[1..][..n - 1], text[1..][n - 1..]);
        assert text[1..][..n - 1] + text[1..][n - 1..] == text[1..];
      } else {
        assert text[0..] == text;
      }
    }
    if Matches(ts, text) {
      MatchesCons(Star, ts, [], text);
      assert [] + text == text;
    }
    if text != [] && Matches([Star] + ts, text[1..]) {
      var n := MatchesUncons(Star, ts, text[1..]);
      MatchesCons(Star, ts, text[..n + 1], text[1..][n..]);
      assert text[..n + 1] + text[1..][n..] == text;
    }
  }

  lemma StarAlone(text: Key)
    ensures Matches([Star], text)
  {
    MatchesEmpty([]);
    MatchesCons(Star, [], text, []);
    assert [Star] + [] == [Star] && text + [] == text;
  }

  // Two stars are one.
  lemma {:induction false} StarStar(ts: seq<Token>, text: Key)
    ensures Matches([Star] + ([Star] + ts), text) <==> Matches([Star] + ts, text)
    decreases |text|
  {
    StarStep([Star] + ts, text);
    StarStep(ts, text);
    if text != [] {
      StarStar(ts, text[1..]);
    }
  }

  // A class without closing bracket matches nothing, wherever it stands.
  lemma {:induction false} BrokenNeverMatches(p: Key, text: Key)
    requires Broken in Parse(p)
    ensures !Matches(Parse(p), text)
  {
    var ts := Parse(p);
    var i :| 0 <= i < |ts| && ts[i] == Broken;
    forall pieces: seq<Key> ensures !Splits(ts, text, pieces) {
      if |pieces| == |ts| {
        assert !Takes(ts[i], pieces[i]);
      }
    }
  }

  // ---------- writing patterns ----------

  // Bytes that mean something outside a class: star, question mark, opening bracket and
  // backslash; and inside: caret, bang, dash, closing bracket and backslash.
  predicate NeedsEscape(b: byte) { b == 0x2A || b == 0x3F || b == 0x5B || b == 0x5C }
  predicate NeedsClassEscape(b: byte) { b == 0x5E || b == 0x21 || b == 0x2D || b == 0x5D || b == 0x5C }

  predicate IsSign(b: byte) { b == 0x5E || b == 0x21 }

  // A byte in front of a dash would be taken for the start of a range.
  function RenderItem(i: Item, next: Key): Key {
    match i
    case One(b) =>
      if NeedsClassEscape(b) || (next != [] && next[0] == 0x2D) then [0x5C, b] else [b]
    case Range(from, upto) => [from, 0x2D, upto]
  }

  function RenderItems(items: seq<Item>): Key {
    if items == [] then []
    else
      var rest := RenderItems(items[1..]);
      RenderItem(items[0], rest) + rest
  }

  // a class with its sign and without its closing bracket
  function RenderOpen(negated: bool, items: seq<Item>, sign: byte): Key {
    [0x5B] + (if negated then [sign] else []) + RenderItems(items)
  }

  function RenderToken(t: Token, sign: byte): Key
    requires !t.Broken?
  {
    match t
    case Star => [0x2A]
    case Any => [0x3F]
    case Literal(b) => if NeedsEscape(b) then [0x5C, b] else [b]
    case Class(negated, items) => RenderOpen(negated, items, sign) + [0x5D]
  }

  // Every class with the sign at its place, caret or bang.
  function Render(ts: seq<Token>, signs: Key): Key
    requires |signs| == |ts| && Broken !in ts
  {
    if ts == [] then [] else RenderToken(ts[0], signs[0]) + Render(ts[1..], signs[1..])
  }

  // Ranges have no escapes: none starts with a backslash or a closing bracket or ends
  // with a closing bracket, nor starts a class with a sign.
  predicate WritableItem(i: Item) {
    i.Range? ==> i.from != 0x5C && i.from != 0x5D && i.upto != 0x5D
  }

  predicate WritableItems(items: seq<Item>) {
    forall i :: 0 <= i < |items| ==> WritableItem(items[i])
  }

  predicate WritableClass(negated: bool, items: seq<Item>) {
    WritableItems(items) && (!negated && items != [] && items[0].Range? ==> !IsSign(items[0].from))
  }

  predicate WritableToken(t: Token) {
    !t.Broken? && (t.Class? ==> WritableClass(t.negated, t.items))
  }

  predicate Writable(ts: seq<Token>) {
    forall i :: 0 <= i < |ts| ==> WritableToken(ts[i])
  }

  predicate Signed(ts: seq<Token>, signs: Key) {
    |signs| == |ts| && forall i :: 0 <= i < |ts| ==> IsSign(signs[i])
  }

  // One item read back, whatever the bytes behind it that do not start with a dash.
  lemma ItemReadBack(i: Item, rest: Key)
    requires WritableItem(i)
    ensures ParseItems(RenderItem(i, rest) + rest) == WithItem(i, ParseItems(rest))
  {
    var p := RenderItem(i, rest) + rest;
    assert p[|RenderItem(i, rest)|..] == rest;
  }

  lemma {:induction false} ItemsReadBack(items: seq<Item>, tail: Key)
    requires WritableItems(items)
    ensures ParseItems(RenderItems(items) + ([0x5D] + tail)) == Some((items, tail))
    ensures ParseItems(RenderItems(items)) == None
    decreases |items|
  {
    if items == [] {
      assert RenderItems(items) + ([0x5D] + tail) == [0x5D] + tail && ([0x5D] + tail)[1..] == tail;
    } else {
      RestItems(items);
      ItemsReadBack(items[1..], tail);
      ItemBehind(items[0], items[1..], RenderItems(items[1..]), [0x5D] + tail, tail);
    }
  }

  lemma RestItems(items: seq<Item>)
    requires items != [] && WritableItems(items)
    ensures WritableItem(items[0]) && WritableItems(items[1..]) && items == [items[0]] + items[1..]
    ensures RenderItems(items) == RenderItem(items[0], RenderItems(items[1..])) + RenderItems(items[1..])
  {
    forall i | 0 <= i < |items| - 1 ensures WritableItem(items[1..][i]) {
      assert items[1..][i] == items[i + 1];
    }
  }

  lemma ItemBehind(i: Item, items: seq<Item>, rest: Key, more: Key, tail: Key)
    requires WritableItem(i) && more != [] && more[0] != 0x2D
    requires ParseItems(rest + more) == Some((items, tail)) && ParseItems(rest) == None
    ensures ParseItems(RenderItem(i, rest) + rest + more) == Some(([i] + items, tail))
    ensures ParseItems(RenderItem(i, rest) + rest) == None
  {
    assert ParseItems(RenderItem(i, rest) + rest) == None by {
      ItemReadBack(i, rest);
    }
    assert ParseItems(RenderItem(i, rest) + (rest + more)) == Some(([i] + items, tail)) by {
      ItemBefore(i, rest, more);
    }
    Regroup(RenderItem(i, rest), rest, more);
  }

  lemma Regroup(a: Key, b: Key, c: Key)
    ensures a + b + c == a + (b + c)
  {
  }

  // More bytes behind the rest change nothing, unless the rest is empty and a dash comes.
  lemma ItemBefore(i: Item, rest: Key, more: Key)
    requires WritableItem(i) && more != [] && more[0] != 0x2D
    ensures ParseItems(RenderItem(i, rest) + (rest + more)) == WithItem(i, ParseItems(rest + more))
  {
    var next := rest + more;
    assert RenderItem(i, rest) == RenderItem(i, next);
    ItemReadBack(i, next);
  }

  lemma FirstByte(items: seq<Item>)
    requires items != []
    ensures RenderItems(items) != []
    ensures items[0].One? ==> !IsSign(RenderItems(items)[0])
    ensures items[0].Range? ==> RenderItems(items)[0] == items[0].from
  {
  }

  // What is read as a sign is the sign.
  lemma SignReadBack(negated: bool, items: seq<Item>, sign: byte, more: Key)
    requires WritableClass(negated, items) && IsSign(sign) && (more != [] ==> !IsSign(more[0]))
    ensures var p := RenderOpen(negated, items, sign) + more;
      p[0] == OPEN && IsNegation(p[1..]) == negated && ClassBody(p[1..]) == RenderItems(items) + more
  {
    var p := RenderOpen(negated, items, sign) + more;
    if negated {
      assert p[1..] == [sign] + (RenderItems(items) + more);
    } else {
      assert p[1..] == RenderItems(items) + more;
      if items != [] {
        FirstByte(items);
      }
    }
  }

  lemma ClassReadBack(negated: bool, items: seq<Item>, sign: byte, tail: Key, more: Key)
    requires WritableClass(negated, items) && IsSign(sign) && more == [0x5D] + tail
    ensures Parse(RenderOpen(negated, items, sign) + more) == [Class(negated, items)] + Parse(tail)
  {
    SignReadBack(negated, items, sign, more);
    ItemsReadBack(items, tail);
  }

  lemma TokenReadBack(t: Token, sign: byte, tail: Key)
    requires WritableToken(t) && IsSign(sign)
    ensures Parse(RenderToken(t, sign) + tail) == [t] + Parse(tail)
  {
    if t.Class? {
      ClassReadBack(t.negated, t.items, sign, tail, [0x5D] + tail);
      Regroup(RenderOpen(t.negated, t.items, sign), [0x5D], tail);
    } else {
      PlainReadBack(t, sign, tail);
    }
  }

  lemma PlainReadBack(t: Token, sign: byte, tail: Key)
    requires t.Star? || t.Any? || t.Literal?
    ensures Parse(RenderToken(t, sign) + tail) == [t] + Parse(tail)
  {
    var token := RenderToken(t, sign);
    assert (token + tail)[|token|..] == tail;
  }

  // Every list of tokens that can be written is what its pattern is read as, with either
  // sign for every negated class, and what follows is read on its own.
  lemma {:induction false} ReadBack(ts: seq<Token>, signs: Key, tail: Key)
    requires Writable(ts) && Signed(ts, signs)
    ensures Parse(Render(ts, signs) + tail) == ts + Parse(tail)
    decreases |ts|
  {
    if ts == [] {
      assert Render(ts, signs) + tail == tail && ts + Parse(tail) == Parse(tail);
    } else {
      RestWritable(ts, signs);
      ReadBack(ts[1..], signs[1..], tail);
      FirstReadBack(ts[0], ts[1..], signs[0], signs[1..], tail, Render(ts[1..], signs[1..]) + tail);
      RenderFirst(ts, signs, tail);
    }
  }

  lemma RestWritable(ts: seq<Token>, signs: Key)
    requires ts != [] && Writable(ts) && Signed(ts, signs)
    ensures WritableToken(ts[0]) && IsSign(signs[0]) && Writable(ts[1..]) && Signed(ts[1..], signs[1..])
    ensures ts == [ts[0]] + ts[1..]
  {
    forall i | 0 <= i < |ts| - 1 ensures WritableToken(ts[1..][i]) && IsSign(signs[1..][i]) {
      assert ts[1..][i] == ts[i + 1] && signs[1..][i] == signs[i + 1];
    }
  }

  lemma FirstReadBack(t: Token, ts: seq<Token>, sign: byte, signs: Key, tail: Key, rest: Key)
    requires WritableToken(t) && IsSign(sign) && Parse(rest) == ts + Parse(tail)
    ensures Parse(RenderToken(t, sign) + rest) == [t] + ts + Parse(tail)
  {
    TokenReadBack(t, sign, rest);
    assert [t] + (ts + Parse(tail)) == [t] + ts + Parse(tail);
  }

  lemma RenderFirst(ts: seq<Token>, signs: Key, tail: Key)
    requires ts != [] && |signs| == |ts| && Broken !in ts
    ensures Render(ts, signs) + tail == RenderToken(ts[0], signs[0]) + (Render(ts[1..], signs[1..]) + tail)
  {
  }

  lemma ParseRender(ts: seq<Token>, signs: Key)
    requires Writable(ts) && Signed(ts, signs)
    ensures Parse(Render(ts, signs)) == ts
  {
    ReadBack(ts, signs, []);
    assert Render(ts, signs) + [] == Render(ts, signs) && ts + [] == ts;
  }

  // Nothing else is ever read: the tokens of a pattern are writable up to a broken class.
  lemma {:induction false} ParsedIsWritable(p: Key)
    ensures Broken !in Parse(p) ==> Writable(Parse(p))
    decreases |p|
  {
    if p == [] {
    } else if p[0] == OPEN {
      var body := ClassBody(p[1..]);
      var r := ParseItems(body);
      ItemsWritable(body);
      if r.Some? {
        if !IsNegation(p[1..]) {
          FirstIsNoSign(body);
        }
        ParsedIsWritable(r.value.1);
        assert Parse(p)[1..] == Parse(r.value.1);
      }
    } else {
      var rest := if p[0] == ESCAPE && |p| > 1 then p[2..] else p[1..];
      ParsedIsWritable(rest);
      assert Parse(p)[1..] == Parse(rest);
    }
  }

  lemma {:induction false} ItemsWritable(p: Key)
    ensures ParseItems(p).Some? ==> WritableItems(ParseItems(p).value.0)
    decreases |p|
  {
    if p == [] || (p[0] == CLOSE) {
    } else if p[0] == ESCAPE && |p| > 1 {
      ItemsWritable(p[2..]);
    } else if |p| >= 3 && p[1] == DASH && p[2] != CLOSE {
      ItemsWritable(p[3..]);
    } else {
      ItemsWritable(p[1..]);
    }
  }

  lemma FirstIsNoSign(p: Key)
    requires !IsNegation(p) && ParseItems(p).Some?
    ensures var items := ParseItems(p).value.0;
      items != [] && items[0].Range? ==> !IsSign(items[0].from)
  {
  }

  // A class whose items never close is broken, and so is the pattern.
  lemma UnclosedIsBroken(ts: seq<Token>, signs: Key, negated: bool, items: seq<Item>, sign: byte)
    requires Writable(ts) && Signed(ts, signs) && WritableClass(negated, items) && IsSign(sign)
    ensures Parse(Render(ts, signs) + RenderOpen(negated, items, sign)) == ts + [Broken]
  {
    var open := RenderOpen(negated, items, sign);
    SignReadBack(negated, items, sign, []);
    ItemsReadBack(items, []);
    assert open + [] == open && RenderItems(items) + [] == RenderItems(items);
    ReadBack(ts, signs, open);
  }

  // ---------- the matcher ----------

  // Reads a class up to its closing bracket; found says whether c is among its items.
  method ScanClass(p: Key, c: byte) returns (closed: bool, found: bool, rest: Key)
    ensures closed == ParseItems(p).Some?
    ensures closed ==> rest == ParseItems(p).value.1 && found == InItems(ParseItems(p).value.0, c)
    ensures |rest| <= |p|
  {
    rest, found := p, false;
    while true
      invariant |rest| <= |p|
      invariant ParseItems(p).Some? <==> ParseItems(rest).Some?
      invariant ParseItems(p).Some? ==> ParseItems(p).value.1 == ParseItems(rest).value.1
      invariant ParseItems(p).Some? ==>
        (InItems(ParseItems(p).value.0, c) <==> found || InItems(ParseItems(rest).value.0, c))
      decreases |rest|
    {
      if rest == [] {
        return false, found, rest;
      }
      if rest[0] == ESCAPE && |rest| > 1 {
        AddItem(One(rest[1]), ParseItems(rest[2..]), c);
        found := found || rest[1] == c;
        rest := rest[2..];
      } else if rest[0] == CLOSE {
        return true, found, rest[1..];
      } else if |rest| >= 3 && rest[1] == DASH && rest[2] != CLOSE {
        AddItem(Range(rest[0], rest[2]), ParseItems(rest[3..]), c);
        found := found || rest[0] <= c <= rest[2] || rest[2] <= c <= rest[0];
        rest := rest[3..];
      } else {
        AddItem(One(rest[0]), ParseItems(rest[1..]), c);
        found := found || rest[0] == c;
        rest := rest[1..];
      }
    }
  }

  lemma AddItem(i: Item, r: Option<(seq<Item>, Key)>, c: byte)
    ensures r.Some? ==> (InItems(WithItem(i, r).value.0, c) <==> InItem(i, c) || InItems(r.value.0, c))
  {
    if r.Some? {
      var items, all := r.value.0, [i] + r.value.0;
      assert all[0] == i;
      forall j | 0 <= j < |items| && InItem(items[j], c) ensures InItem(all[j + 1], c) {
      }
    }
  }

  // A written pattern matches what its tokens mean, a pattern with a class left open
  // nothing.
  method MatchWritten(ts: seq<Token>, signs: Key, text: Key) returns (r: bool)
    requires Writable(ts) && Signed(ts, signs)
    ensures r <==> Matches(ts, text)
  {
    ParseRender(ts, signs);
    r := MatchesGlobBytes(Render(ts, signs), text);
  }

  method MatchUnclosed(ts: seq<Token>, signs: Key, negated: bool, items: seq<Item>, sign: byte, text: Key)
      returns (r: bool)
    requires Writable(ts) && Signed(ts, signs) && WritableClass(negated, items) && IsSign(sign)
    ensures !r
  {
    var pattern := Render(ts, signs) + RenderOpen(negated, items, sign);
    UnclosedIsBroken(ts, signs, negated, items, sign);
    assert Parse(pattern)[|ts|] == Broken;
    BrokenNeverMatches(pattern, text);
    r := MatchesGlobBytes(pattern, text);
  }

  // Terminates on every pattern and text, and matches exactly what the pattern means.
  method MatchesGlobBytes(pattern: Key, text: Key) returns (r: bool)
    ensures r <==> Matches(Parse(pattern), text)
    decreases |pattern|
  {
    var p, t := pattern, text;
    while p != []
      invariant |p| <= |pattern|
      invariant Matches(Parse(p), t) <==> Matches(Parse(pattern), text)
      decreases |p|
    {
      if p[0] == STAR {
        r := MatchStar(p, t);
        return;
      } else if p[0] == ANY {
        SingleStep(Any, Parse(p[1..]), t);
        if t == [] {
          return false;
        }
        p, t := p[1..], t[1..];
      } else if p[0] == OPEN {
        var body := ClassBody(p[1..]);
        var negated := IsNegation(p[1..]);
        if t == [] {
          ClassNeedsText(p);
          return false;
        }
        var closed, found, rest := ScanClass(body, t[0]);
        if !closed {
          BrokenNeverMatches(p, t);
          return false;
        }
        SingleStep(Class(negated, ParseItems(body).value.0), Parse(rest), t);
        if found == negated {
          return false;
        }
        p, t := rest, t[1..];
      } else {
        var rest := if p[0] == ESCAPE && |p| > 1 then p[1..] else p;
        SingleStep(Literal(rest[0]), Parse(rest[1..]), t);
        if t == [] || rest[0] != t[0] {
          return false;
        }
        p, t := rest[1..], t[1..];
      }
    }
    MatchesEmpty(t);
    r := t == [];
  }

  lemma ClassNeedsText(p: Key)
    requires p != [] && p[0] == OPEN
    ensures !Matches(Parse(p), [])
  {
    var items := ParseItems(ClassBody(p[1..]));
    if items.None? {
      BrokenNeverMatches(p, []);
    } else {
      SingleStep(Class(IsNegation(p[1..]), items.value.0), Parse(items.value.1), []);
    }
  }

  // The rest of the pattern tried at every position the star can leave.
  method MatchStar(pattern: Key, text: Key) returns (r: bool)
    requires pattern != [] && pattern[0] == STAR
    ensures r <==> Matches(Parse(pattern), text)
    decreases |pattern|, 0
  {
    var p, t := pattern, text;
    while |p| > 1 && p[1] == STAR
      invariant p != [] && |p| <= |pattern| && p[0] == STAR
      invariant Matches(Parse(p), t) <==> Matches(Parse(pattern), text)
      decreases |p|
    {
      StarStar(Parse(p[1..][1..]), t);
      p := p[1..];
    }
    if |p| == 1 {
      StarAlone(t);
      assert p[1..] == [] && Parse(p) == [Star];
      return true;
    }
    while t != []
      invariant Matches(Parse(p), t) <==> Matches(Parse(pattern), text)
      decreases |t|
    {
      StarStep(Parse(p[1..]), t);
      var here := MatchesGlobBytes(p[1..], t);
      if here {
        return true;
      }
      t := t[1..];
    }
    StarStep(Parse(p[1..]), t);
    r := MatchesGlobBytes(p[1..], t);
  }
}
