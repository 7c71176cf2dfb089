/** The key-search wildcard: `*`, `?`, bracket classes and backslash escapes.
    A pattern means a sequence of tokens, and a text matches when it can be cut
    into one piece per token. The matcher is proved to decide just that. */
module Glob {
  import opened Prelude

  const STAR: byte := 42
  const QUESTION: byte := 63
  const BACKSLASH: byte := 92
  const OPEN: byte := 91
  const CLOSE: byte := 93
  const BANG: byte := 33
  const DASH: byte := 45

  datatype Item = Single(c: byte) | Span(lo: byte, hi: byte)

  datatype Token = Star | Any | Lit(c: byte) | Class(negate: bool, items: seq<Item>)

  /** A span whose ends are swapped wraps around. */
  predicate ItemHas(it: Item, c: byte) {
    match it
    case Single(x) => c == x
    case Span(lo, hi) => if lo <= hi then lo <= c <= hi else c >= lo || c <= hi
  }

  predicate SomeHas(items: seq<Item>, c: byte) {
    exists i :: 0 <= i < |items| && ItemHas(items[i], c)
  }

  predicate Fits(tok: Token, c: byte) {
    match tok
    case Star => true
    case Any => true
    case Lit(x) => c == x
    case Class(negate, items) => SomeHas(items, c) != negate
  }

  // ---- What a pattern says ----

  /** The items of a class from `k` on, and where its closing bracket is. */
  function Items(pat: Bytes, k: nat): (r: Option<(seq<Item>, nat)>)
    ensures r.Some? ==> k <= r.value.1 < |pat|
    decreases |pat| - k
  {
    if k >= |pat| then None
    else if pat[k] == CLOSE then Some(([], k))
    else Before(ItemAt(pat, k).0, Items(pat, k + ItemAt(pat, k).1))
  }

  /** The item at `k` and its width. */
  function ItemAt(pat: Bytes, k: nat): (r: (Item, nat))
    requires k < |pat|
    ensures 0 < r.1 <= |pat| - k
  {
    if pat[k] == BACKSLASH && k + 1 < |pat| then (Single(pat[k + 1]), 2)
    else if k + 2 < |pat| && pat[k + 1] == DASH && pat[k + 2] != CLOSE then (Span(pat[k], pat[k + 2]), 3)
    else (Single(pat[k]), 1)
  }

  function Before(it: Item, r: Option<(seq<Item>, nat)>): Option<(seq<Item>, nat)> {
    match r
    case None => None
    case Some((items, k)) => Some(([it] + items, k))
  }

  /** The token at `p` and where the next one starts. An escape at the very end
      is a backslash, a bracket that never closes is a bracket. */
  function TokenAt(pat: Bytes, p: nat): (r: (Token, nat))
    requires p < |pat|
    ensures p < r.1 <= |pat|
  {
    if pat[p] == STAR then (Star, p + 1)
    else if pat[p] == QUESTION then (Any, p + 1)
    else if pat[p] == BACKSLASH then
      if p + 1 < |pat| then (Lit(pat[p + 1]), p + 2) else (Lit(BACKSLASH), p + 1)
    else if pat[p] == OPEN then
      match Items(pat, ClassStart(pat, p))
      case None => (Lit(OPEN), p + 1)
      case Some((items, k)) => (Class(Negated(pat, p), items), k + 1)
    else (Lit(pat[p]), p + 1)
  }

  predicate Negated(pat: Bytes, p: nat) {
    p + 1 < |pat| && pat[p + 1] == BANG
  }

  function ClassStart(pat: Bytes, p: nat): nat {
    if Negated(pat, p) then p + 2 else p + 1
  }

  function Tokens(pat: Bytes, p: nat): seq<Token>
    decreases |pat| - p
  {
    if p >= |pat| then [] else [TokenAt(pat, p).0] + Tokens(pat, TokenAt(pat, p).1)
  }

  // ---- What matching means ----

  /** One byte per token, except that a star takes any number. */
  predicate PieceFits(tok: Token, piece: Bytes) {
    tok == Star || (|piece| == 1 && Fits(tok, piece[0]))
  }

  function Glued(pieces: seq<Bytes>): Bytes {
    if pieces == [] then [] else pieces[0] + Glued(pieces[1..])
  }

  predicate Cuts(toks: seq<Token>, text: Bytes, pieces: seq<Bytes>) {
    && |pieces| == |toks|
    && Glued(pieces) == text
    && forall i :: 0 <= i < |toks| ==> PieceFits(toks[i], pieces[i])
  }

  ghost predicate Matches(toks: seq<Token>, text: Bytes) {
    exists pieces :: Cuts(toks, text, pieces)
  }

  lemma CutsTail(toks: seq<Token>, text: Bytes, pieces: seq<Bytes>)
    requires toks != [] && Cuts(toks, text, pieces)
    ensures pieces[0] <= text && PieceFits(toks[0], pieces[0])
    ensures Cuts(toks[1..], text[|pieces[0]|..], pieces[1..])
  {
    assert text[|pieces[0]|..] == Glued(pieces[1..]);
  }

  lemma CutsCons(tok: Token, toks: seq<Token>, piece: Bytes, text: Bytes, pieces: seq<Bytes>)
    requires PieceFits(tok, piece) && Cuts(toks, text, pieces)
    ensures Cuts([tok] + toks, piece + text, [piece] + pieces)
  {
    assert ([piece] + pieces)[1..] == pieces;
  }

  lemma MatchesNone(text: Bytes)
    ensures Matches([], text) <==> text == []
  {
    if text == [] {
      assert Cuts([], text, []);
    }
  }

  lemma MatchesOne(tok: Token, toks: seq<Token>, text: Bytes)
    requires tok != Star
    ensures Matches([tok] + toks, text) <==> text != [] && Fits(tok, text[0]) && Matches(toks, text[1..])
  {
    if Matches([tok] + toks, text) {
      var pieces :| Cuts([tok] + toks, text, pieces);
      CutsTail([tok] + toks, text, pieces);
      assert ([tok] + toks)[1..] == toks;
    }
    if text != [] && Fits(tok, text[0]) && Matches(toks, text[1..]) {
      var pieces :| Cuts(toks, text[1..], pieces);
      CutsCons(tok, toks, text[..1], text[1..], pieces);
      assert text[..1] + text[1..] == text;
    }
  }

  lemma StarTakes(toks: seq<Token>, text: Bytes, i: nat)
    requires i <= |text| && Matches(toks, text[i..])
    ensures Matches([Star] + toks, text)
  {
    var pieces :| Cuts(toks, text[i..], pieces);
    CutsCons(Star, toks, text[..i], text[i..], pieces);
    assert text[..i] + text[i..] == text;
  }

  lemma StarTook(toks: seq<Token>, text: Bytes) returns (i: nat)
    requires Matches([Star] + toks, text)
    ensures i <= |text| && Matches(toks, text[i..])
  {
    var pieces :| Cuts([Star] + toks, text, pieces);
    CutsTail([Star] + toks, text, pieces);
    assert ([Star] + toks)[1..] == toks;
    i := |pieces[0]|;
  }

  lemma StarTookFrom(toks: seq<Token>, text: Bytes, t: nat) returns (j: nat)
    requires t <= |text| && Matches([Star] + toks, text[t..])
    ensures t <= j <= |text| && Matches(toks, text[j..])
  {
    var i := StarTook(toks, text[t..]);
    assert text[t..][i..] == text[t + i..];
    j := t + i;
  }

  /** Stars in a row say no more than one. */
  lemma StarStar(toks: seq<Token>, text: Bytes)
    ensures Matches([Star] + ([Star] + toks), text) <==> Matches([Star] + toks, text)
  {
    if Matches([Star] + ([Star] + toks), text) {
      var i := StarTook([Star] + toks, text);
      var j := StarTook(toks, text[i..]);
      assert text[i..][j..] == text[i + j..];
      StarTakes(toks, text, i + j);
    }
    if Matches([Star] + toks, text) {
      assert text[0..] == text;
      StarTakes([Star] + toks, text, 0);
    }
  }

  lemma StarLast(text: Bytes)
    ensures Matches([Star] + [], text)
  {
    MatchesNone([]);
    assert text[|text|..] == [];
    StarTakes([], text, |text|);
  }

  // ---- The matcher ----

  /** The inner loop over a class: does any item have `c`, and where does the
      class end? Past the end of the pattern when it never closes. */
  method ScanClass(pat: Bytes, j: nat, c: byte) returns (matched: bool, k: nat)
    requires j <= |pat|
    ensures Items(pat, j) == None <==> k >= |pat|
    ensures Items(pat, j).Some? ==> k == Items(pat, j).value.1 && matched == SomeHas(Items(pat, j).value.0, c)
  {
    matched, k := false, j;
    ghost var seen: seq<Item> := [];
    AfterNone(Items(pat, j));
    while k < |pat| && pat[k] != CLOSE
      invariant k <= |pat| && matched == SomeHas(seen, c)
      invariant Items(pat, j) == After(seen, Items(pat, k))
      decreases |pat| - k
    {
      AfterBefore(seen, ItemAt(pat, k).0, Items(pat, k + ItemAt(pat, k).1));
      SomeHasSnoc(seen, ItemAt(pat, k).0, c);
      seen := seen + [ItemAt(pat, k).0];
      if pat[k] == BACKSLASH && k + 1 < |pat| {
        if c == pat[k + 1] {
          matched := true;
        }
        k := k + 2;
      } else if k + 2 < |pat| && pat[k + 1] == DASH && pat[k + 2] != CLOSE {
        var lo, hi := pat[k], pat[k + 2];
        if (lo <= hi && lo <= c && c <= hi) || (lo > hi && (c >= lo || c <= hi)) {
          matched := true;
        }
        k := k + 3;
      } else if c == pat[k] {
        matched := true;
        k := k + 1;
      } else {
        k := k + 1;
      }
    }
    assert seen + [] == seen;
  }

  ghost function After(seen: seq<Item>, r: Option<(seq<Item>, nat)>): Option<(seq<Item>, nat)> {
    match r
    case None => None
    case Some((items, k)) => Some((seen + items, k))
  }

  lemma AfterNone(r: Option<(seq<Item>, nat)>)
    ensures After([], r) == r
  {
    if r.Some? {
      assert [] + r.value.0 == r.value.0;
    }
  }

  lemma AfterBefore(seen: seq<Item>, it: Item, r: Option<(seq<Item>, nat)>)
    ensures After(seen, Before(it, r)) == After(seen + [it], r)
  {
    if r.Some? {
      assert seen + ([it] + r.value.0) == seen + [it] + r.value.0;
    }
  }

  lemma SomeHasSnoc(seen: seq<Item>, it: Item, c: byte)
    ensures SomeHas(seen + [it], c) <==> SomeHas(seen, c) || ItemHas(it, c)
  {
    var all := seen + [it];
    if SomeHas(seen, c) {
      var i :| 0 <= i < |seen| && ItemHas(seen[i], c);
      assert all[i] == seen[i];
    }
    assert all[|seen|] == it;
  }

  /** One non-star token against the text at `t`. */
  method Step(pat: Bytes, p: nat, text: Bytes, t: nat) returns (ok: bool, next: nat)
    requires p < |pat| && pat[p] != STAR && t <= |text|
    ensures ok <==> t < |text| && Fits(TokenAt(pat, p).0, text[t])
    ensures ok ==> next == TokenAt(pat, p).1
  {
    if t >= |text| {
      return false, p;
    }
    var c := text[t];
    if pat[p] == QUESTION {
      return true, p + 1;
    } else if pat[p] == BACKSLASH {
      var pc := if p + 1 < |pat| then pat[p + 1] else pat[p];
      return c == pc, Min(p + 2, |pat|);
    } else if pat[p] == OPEN {
      var negate := p + 1 < |pat| && pat[p + 1] == BANG;
      var j := if negate then p + 2 else p + 1;
      var matched, k := ScanClass(pat, j, c);
      if k >= |pat| {
        return c == OPEN, p + 1;
      }
      return matched != negate, k + 1;
    } else {
      return c == pat[p], p + 1;
    }
  }

  /** The matcher decides the meaning of the pattern from `p` on, for every
      pattern and every text. */
  method MatchFrom(pat: Bytes, p0: nat, text: Bytes, t0: nat) returns (r: bool)
    requires p0 <= |pat| && t0 <= |text|
    ensures r <==> Matches(Tokens(pat, p0), text[t0..])
    decreases |pat| - p0
  {
    var p, t := p0, t0;
    while p < |pat|
      invariant p0 <= p <= |pat| && t0 <= t <= |text|
      invariant Matches(Tokens(pat, p0), text[t0..]) <==> Matches(Tokens(pat, p), text[t..])
    {
      if pat[p] == STAR {
        r := MatchStar(pat, p, text, t);
        return;
      }
      MatchesOne(TokenAt(pat, p).0, Tokens(pat, TokenAt(pat, p).1), text[t..]);
      var ok, next := Step(pat, p, text, t);
      if !ok {
        return false;
      }
      assert text[t..][1..] == text[t + 1..];
      p, t := next, t + 1;
    }
    MatchesNone(text[t..]);
    return t == |text|;
  }

  method MatchStar(pat: Bytes, p0: nat, text: Bytes, t: nat) returns (r: bool)
    requires p0 < |pat| && pat[p0] == STAR && t <= |text|
    ensures r <==> Matches(Tokens(pat, p0), text[t..])
    decreases |pat| - p0, 0
  {
    var p := p0;
    while p + 1 < |pat| && pat[p + 1] == STAR
      invariant p0 <= p < |pat| && pat[p] == STAR
      invariant Matches(Tokens(pat, p0), text[t..]) <==> Matches(Tokens(pat, p), text[t..])
    {
      StarStar(Tokens(pat, p + 2), text[t..]);
      p := p + 1;
    }
    ghost var toks := Tokens(pat, p + 1);
    if p + 1 == |pat| {
      StarLast(text[t..]);
      return true;
    }
    for i := t to |text| + 1
      invariant forall j :: t <= j < i ==> !Matches(toks, text[j..])
    {
      var hit := MatchFrom(pat, p + 1, text, i);
      if hit {
        assert text[t..][i - t..] == text[i..];
        StarTakes(toks, text[t..], i - t);
        return true;
      }
    }
    if Matches(Tokens(pat, p), text[t..]) {
      ghost var j := StarTookFrom(toks, text, t);
      assert false;
    }
    return false;
  }

  /** `glob_match` itself. */
  method GlobMatch(pattern: Bytes, text: Bytes) returns (r: bool)
    ensures r <==> Matches(Tokens(pattern, 0), text)
  {
    assert text[0..] == text;
    r := MatchFrom(pattern, 0, text, 0);
  }

  // ---- Patterns that say one thing ----

  /** A backslash before every byte. */
  function Escaped(s: Bytes): Bytes {
    if s == [] then [] else [BACKSLASH, s[0]] + Escaped(s[1..])
  }

  lemma {:induction false} EscapedLength(s: Bytes)
    ensures |Escaped(s)| == 2 * |s|
  {
    if s != [] {
      EscapedLength(s[1..]);
    }
  }

  lemma {:induction false} EscapedAt(s: Bytes, i: nat)
    requires i < |s|
    ensures |Escaped(s)| == 2 * |s|
    ensures Escaped(s)[2 * i] == BACKSLASH && Escaped(s)[2 * i + 1] == s[i]
  {
    EscapedLength(s);
    if i > 0 {
      EscapedLength(s[1..]);
      EscapedAt(s[1..], i - 1);
    }
  }

  /** An escaped text is a pattern for itself and nothing else, whatever special
      bytes it holds. */
  lemma EscapedMatchesOnlyItself(s: Bytes, text: Bytes)
    ensures Matches(Tokens(Escaped(s), 0), text) <==> text == s
  {
    EscapedFrom(s, 0, text);
    assert s[0..] == s;
  }

  lemma {:induction false} EscapedFrom(s: Bytes, i: nat, text: Bytes)
    requires i <= |s|
    ensures Matches(Tokens(Escaped(s), 2 * i), text) <==> text == s[i..]
    decreases |s| - i
  {
    EscapedLength(s);
    if i == |s| {
      MatchesNone(text);
    } else {
      EscapedAt(s, i);
      MatchesOne(Lit(s[i]), Tokens(Escaped(s), 2 * (i + 1)), text);
      if text != [] {
        EscapedFrom(s, i + 1, text[1..]);
        assert text == [text[0]] + text[1..];
      }
      assert s[i..] == [s[i]] + s[i + 1..];
    }
  }

  // ---- Every meaning can be written ----

  function ItemText(it: Item): Bytes {
    match it
    case Single(c) => [92, c]
    case Span(lo, hi) => [lo, 45, hi]
  }

  function ItemsText(items: seq<Item>): Bytes {
    if items == [] then [] else ItemText(items[0]) + ItemsText(items[1..])
  }

  /** `*`, `?`, `\c`, `[...]` and `[!...]`. */
  function TokenText(tok: Token): Bytes {
    match tok
    case Star => [42]
    case Any => [63]
    case Lit(c) => [92, c]
    case Class(negate, items) => [91] + (if negate then [33] else []) + ItemsText(items) + [93]
  }

  function PatternText(toks: seq<Token>): Bytes {
    if toks == [] then [] else TokenText(toks[0]) + PatternText(toks[1..])
  }

  /** A span cannot begin with `]` or a backslash nor end with `]`, and the first
      one of a class cannot begin with `!`. */
  predicate WritableItem(it: Item) {
    it.Span? ==> it.lo != 93 && it.lo != 92 && it.hi != 93
  }

  predicate WritableToken(tok: Token) {
    tok.Class? ==>
      && (forall i :: 0 <= i < |tok.items| ==> WritableItem(tok.items[i]))
      && (!tok.negate && tok.items != [] && tok.items[0].Span? ==> tok.items[0].lo != 33)
  }

  lemma ItemReads(pre: Bytes, it: Item, post: Bytes)
    requires WritableItem(it)
    ensures var pat := pre + ItemText(it) + post;
            pat[|pre|] != CLOSE && ItemAt(pat, |pre|) == (it, |ItemText(it)|)
  {
  }

  lemma {:induction false} ItemsRead(pre: Bytes, items: seq<Item>, post: Bytes)
    requires forall i :: 0 <= i < |items| ==> WritableItem(items[i])
    ensures Items(pre + ItemsText(items) + ([CLOSE] + post), |pre|) == Some((items, |pre| + |ItemsText(items)|))
    decreases |items|
  {
    var pat := pre + ItemsText(items) + ([CLOSE] + post);
    if items == [] {
      assert pat[|pre|] == CLOSE;
    } else {
      var head := ItemText(items[0]);
      var tail := ItemsText(items[1..]) + ([CLOSE] + post);
      assert pat == pre + head + tail;
      ItemReads(pre, items[0], tail);
      ItemsRead(pre + head, items[1..], post);
      assert pat == pre + head + ItemsText(items[1..]) + ([CLOSE] + post);
      assert [items[0]] + items[1..] == items;
    }
  }

  lemma ClassReads(pre: Bytes, negate: bool, items: seq<Item>, post: Bytes)
    requires WritableToken(Class(negate, items))
    ensures var text := TokenText(Class(negate, items));
            TokenAt(pre + text + post, |pre|) == (Class(negate, items), |pre| + |text|)
  {
    var text := TokenText(Class(negate, items));
    var pat, open := pre + text + post, pre + [91] + if negate then [33] else [];
    assert pat == open + ItemsText(items) + ([CLOSE] + post);
    ItemsRead(open, items, post);
    assert pat[|pre|] == 91;
    assert Negated(pat, |pre|) == negate by {
      assert !negate ==> pat[|pre| + 1] == (ItemsText(items) + [CLOSE])[0];
    }
    assert ClassStart(pat, |pre|) == |open|;
  }

  lemma TokenReads(pre: Bytes, tok: Token, post: Bytes)
    requires WritableToken(tok)
    ensures TokenAt(pre + TokenText(tok) + post, |pre|) == (tok, |pre| + |TokenText(tok)|)
  {
    if tok.Class? {
      ClassReads(pre, tok.negate, tok.items, post);
    }
  }

  lemma {:induction false} TokensRead(pre: Bytes, toks: seq<Token>)
    requires forall i :: 0 <= i < |toks| ==> WritableToken(toks[i])
    ensures Tokens(pre + PatternText(toks), |pre|) == toks
    decreases |toks|
  {
    hide TokenAt, TokenText;
    if toks != [] {
      var head, tail := TokenText(toks[0]), PatternText(toks[1..]);
      TokenReads(pre, toks[0], tail);
      TokensRead(pre + head, toks[1..]);
      assert pre + PatternText(toks) == pre + head + tail;
      TokenTextNotEmpty(toks[0]);
      assert [toks[0]] + toks[1..] == toks;
    }
  }

  lemma TokenTextNotEmpty(tok: Token)
    ensures 0 < |TokenText(tok)|
  {
  }

  /** Any sequence of tokens can be written as a pattern, and matching that
      pattern is matching those tokens. */
  lemma PatternMeans(toks: seq<Token>, text: Bytes)
    requires forall i :: 0 <= i < |toks| ==> WritableToken(toks[i])
    ensures Tokens(PatternText(toks), 0) == toks
    ensures Matches(Tokens(PatternText(toks), 0), text) <==> Matches(toks, text)
  {
    TokensRead([], toks);
    assert [] + PatternText(toks) == PatternText(toks);
  }

  // ---- Familiar patterns ----

  /** `?` is any one byte. */
  lemma QuestionMatches(text: Bytes)
    ensures Matches(Tokens([63], 0), text) <==> |text| == 1
  {
    assert Tokens([63], 0) == [Any] + [];
    MatchesOne(Any, [], text);
    if text != [] {
      MatchesNone(text[1..]);
    }
  }

  /** `[lo-hi]` and `[!lo-hi]` are one byte in or out of the range; a range whose
      ends are swapped wraps around. */
  lemma RangeMatches(lo: byte, hi: byte, negate: bool, text: Bytes)
    requires lo != 93 && lo != 92 && lo != 33 && hi != 93
    ensures Matches(Tokens([91] + (if negate then [33] else []) + [lo, 45, hi, 93], 0), text) <==>
            |text| == 1 && (if lo <= hi then lo <= text[0] <= hi else lo <= text[0] || text[0] <= hi) != negate
  {
    var tok := Class(negate, [Span(lo, hi)]);
    var pat := [91] + (if negate then [33] else []) + [lo, 45, hi, 93];
    assert [Span(lo, hi)][1..] == [];
    assert ItemsText([Span(lo, hi)]) == [lo, 45, hi] + [];
    assert TokenText(tok) == pat;
    assert [tok][1..] == [];
    assert PatternText([tok]) == pat + [] == pat;
    PatternMeans([tok], text);
    MatchesOne(tok, [], text);
    assert [tok] + [] == [tok];
    if text != [] {
      MatchesNone(text[1..]);
      OneItem(Span(lo, hi), text[0]);
    }
  }

  function Singles(bs: Bytes): seq<Item> {
    seq(|bs|, i requires 0 <= i < |bs| => Single(bs[i]))
  }

  lemma {:induction false} RawItemsRead(pre: Bytes, bs: Bytes, i: nat)
    requires i <= |bs| && forall j :: 0 <= j < |bs| ==> bs[j] != 93 && bs[j] != 92 && (0 < j < |bs| - 1 ==> bs[j] != 45)
    ensures Items(pre + bs + [CLOSE], |pre| + i) == Some((Singles(bs[i..]), |pre| + |bs|))
    decreases |bs| - i
  {
    var pat := pre + bs + [CLOSE];
    if i == |bs| {
      assert pat[|pre| + i] == CLOSE;
    } else {
      assert pat[|pre| + i] == bs[i];
      assert i + 1 < |bs| ==> pat[|pre| + i + 1] == bs[i + 1];
      assert ItemAt(pat, |pre| + i) == (Single(bs[i]), 1);
      RawItemsRead(pre, bs, i + 1);
      assert Singles(bs[i..]) == [Single(bs[i])] + Singles(bs[i + 1..]);
    }
  }

  /** Bytes that stand for themselves in a class: no bracket or backslash, a dash
      only at either end, and no `!` in front. */
  predicate Raw(bs: Bytes) {
    && (forall j :: 0 <= j < |bs| ==> bs[j] != 93 && bs[j] != 92 && (0 < j < |bs| - 1 ==> bs[j] != 45))
    && (bs != [] ==> bs[0] != 33)
  }

  lemma RawClassReads(bs: Bytes)
    requires Raw(bs)
    ensures Tokens([91] + bs + [93], 0) == [Class(false, Singles(bs))] + []
  {
    var pat := [91] + bs + [93];
    RawItemsRead([91], bs, 0);
    assert bs[0..] == bs;
    assert pat[1] == if bs == [] then 93 else bs[0];
    assert TokenAt(pat, 0) == (Class(false, Singles(bs)), |pat|);
    assert Tokens(pat, |pat|) == [];
  }

  /** `[abc]` is any one of the bytes listed. */
  lemma SetMatches(bs: Bytes, text: Bytes)
    requires Raw(bs)
    ensures Matches(Tokens([91] + bs + [93], 0), text) <==> |text| == 1 && text[0] in bs
  {
    hide Raw, Tokens, Matches, Singles, SomeHas;
    var tok := Class(false, Singles(bs));
    RawClassReads(bs);
    MatchesOne(tok, [], text);
    if text != [] {
      MatchesNone(text[1..]);
      SinglesHave(bs, text[0]);
    }
  }

  lemma SinglesHave(bs: Bytes, c: byte)
    ensures SomeHas(Singles(bs), c) <==> c in bs
  {
    if c in bs {
      var i :| 0 <= i < |bs| && bs[i] == c;
      assert ItemHas(Singles(bs)[i], c);
    }
  }

  lemma OneItem(it: Item, c: byte)
    ensures SomeHas([it], c) == ItemHas(it, c)
  {
    assert [it][0] == it;
  }

  function Lits(s: Bytes): seq<Token> {
    seq(|s|, i requires 0 <= i < |s| => Lit(s[i]))
  }

  /** A text followed by `*` finds exactly what begins with it. */
  lemma {:induction false} PrefixSearch(p: Bytes, text: Bytes)
    ensures Matches(Lits(p) + [Star], text) <==> p <= text
    decreases |p|
  {
    if p == [] {
      StarLast(text);
      assert Lits(p) + [Star] == [Star] + [];
    } else {
      assert Lits(p) + [Star] == [Lit(p[0])] + (Lits(p[1..]) + [Star]);
      MatchesOne(Lit(p[0]), Lits(p[1..]) + [Star], text);
      if text != [] {
        PrefixSearch(p[1..], text[1..]);
        assert p == [p[0]] + p[1..] && text == [text[0]] + text[1..];
      }
    }
  }

  lemma {:induction false} NeverClosed(pat: Bytes, k: nat)
    requires forall i :: 0 <= i < |pat| ==> pat[i] != 93
    ensures Items(pat, k) == None
    decreases |pat| - k
  {
    if k < |pat| {
      NeverClosed(pat, k + ItemAt(pat, k).1);
    }
  }

  /** A pattern without `*`, `?`, a backslash or a closing bracket matches itself
      and nothing else, opening brackets included. */
  lemma PlainMatchesOnlyItself(s: Bytes, text: Bytes)
    requires forall i :: 0 <= i < |s| ==> s[i] != 42 && s[i] != 63 && s[i] != 92 && s[i] != 93
    ensures Matches(Tokens(s, 0), text) <==> text == s
  {
    PlainFrom(s, 0, text);
    assert s[0..] == s;
  }

  lemma {:induction false} PlainFrom(s: Bytes, i: nat, text: Bytes)
    requires i <= |s| && forall j :: 0 <= j < |s| ==> s[j] != 42 && s[j] != 63 && s[j] != 92 && s[j] != 93
    ensures Matches(Tokens(s, i), text) <==> text == s[i..]
    decreases |s| - i
  {
    if i == |s| {
      MatchesNone(text);
    } else {
      NeverClosed(s, ClassStart(s, i));
      assert TokenAt(s, i) == (Lit(s[i]), i + 1);
      MatchesOne(Lit(s[i]), Tokens(s, i + 1), text);
      if text != [] {
        PlainFrom(s, i + 1, text[1..]);
        assert text == [text[0]] + text[1..];
      }
      assert s[i..] == [s[i]] + s[i + 1..];
    }
  }

  /** A backslash at the very end is a backslash. */
  lemma TrailingBackslash(text: Bytes)
    ensures Matches(Tokens([92], 0), text) <==> text == [92]
  {
    assert Tokens([92], 0) == [Lit(92)] + [];
    MatchesOne(Lit(92), [], text);
    if text != [] {
      MatchesNone(text[1..]);
    }
  }
}
