/**
  The strategy file cut short by a torn write. The loader means to distrust a value without its closing
  quote, and tells one by its last character.

  Main results: a value that is never closed is taken if and only if the text ends in an escaped quote;
  over every member list, each prefix of its file reads as a prefix of the list if and only if no value
  holds a quote in front of its last character; and since the values of a snapshot hold no quote at all,
  loading any prefix of a snapshot's file restores exactly the winners of its first lines, or none.
 */
module TornFile {
  import opened Collections
  import opened Basics
  import opened Json
  import opened Learning
  import opened StoreFile
  import opened StoreLayout
  import opened StorePersistence

  // ---- the closing quote ----

  /** The value whose opening quote is at `at` is believed to be closed. */
  predicate Trusted(s: string, at: nat)
    requires at < |s|
  {
    LiteralEnd(s, at + 1) >= at + 2 && s[LiteralEnd(s, at + 1) - 1] == '"'
  }

  /** An unclosed literal that ends in a quote ends in an escaped one. */
  lemma {:induction false} LastQuoteIsEscaped(s: string, pos: nat)
    requires pos < |s| && StringEnd(s, pos) == |s| && s[|s| - 1] == '"'
    ensures pos + 2 <= |s| && s[|s| - 2] == '\\'
    decreases |s| - pos
  {
    if UnitEnd(s, pos) < |s| {
      LastQuoteIsEscaped(s, UnitEnd(s, pos));
    } else if s[pos] == '\\' && pos + 2 < |s| {
      HexBehind(s, pos + 2, 4);
    }
  }

  lemma {:induction false} HexBehind(s: string, pos: nat, left: nat)
    requires pos < |s| && HexEnd(s, pos, left) == |s|
    ensures s[|s| - 1] != '"'
    decreases left
  {
    if pos + 1 < |s| { HexBehind(s, pos + 1, left - 1); }
  }

  /** A value that is never closed is trusted if and only if the text ends in an escaped quote behind its first. */
  lemma {:induction false} UnclosedTrustedExactly(s: string, at: nat)
    requires at < |s| && s[at] == '"' && StringEnd(s, at + 1) == |s|
    ensures Trusted(s, at) <==> |s| >= at + 3 && s[|s| - 2] == '\\' && s[|s| - 1] == '"'
  {
    if |s| >= at + 2 && s[|s| - 1] == '"' { LastQuoteIsEscaped(s, at + 1); }
  }

  const UNCLOSED: string := ['"', 'a', '"', ':', '"', 'b', '\\', '"']

  /** One that is: the value is cut behind an escaped quote, and the member is taken. */
  lemma {:induction false} UnclosedValueIsTaken()
    ensures StringEnd(UNCLOSED, 5) == |UNCLOSED| && MemberEnd(UNCLOSED, 0) == |UNCLOSED|
  {
    assert StringEnd(UNCLOSED, 6) == 8;
    assert StringEnd(UNCLOSED, 5) == 8;
    assert StringEnd(UNCLOSED, 1) == 2;
  }

  // ---- where the text is cut ----

  /** What is left of `s` from `pos` on is a beginning of `p`. */
  predicate Begins(s: string, pos: nat, p: string) {
    pos <= |s| <= pos + |p| && At(s, pos, p[..|s| - pos])
  }

  lemma {:induction false} BeginsChar(s: string, pos: nat, p: string, k: nat)
    requires Begins(s, pos, p) && pos <= k < |s|
    ensures k - pos < |p| && s[k] == p[k - pos]
  {
    AtChar(s, pos, p[..|s| - pos], k - pos);
  }

  lemma {:induction false} BeginsChars(s: string, pos: nat, p: string)
    requires pos <= |s| <= pos + |p| && forall k :: pos <= k < |s| ==> s[k] == p[k - pos]
    ensures Begins(s, pos, p)
  {
    AtChars(s, pos, p[..|s| - pos]);
  }

  lemma {:induction false} BeginsParts(s: string, pos: nat, a: string, b: string)
    requires Begins(s, pos, a + b)
    ensures |s| <= pos + |a| ==> Begins(s, pos, a)
    ensures |s| >= pos + |a| ==> At(s, pos, a) && Begins(s, pos + |a|, b)
  {
    var n := |s| - pos;
    if n <= |a| { assert (a + b)[..n] == a[..n]; }
    if n >= |a| {
      assert (a + b)[..n] == a + b[..n - |a|];
      AtSplit(s, pos, a, b[..n - |a|]);
    }
  }

  lemma {:induction false} BeginsThen(s: string, pos: nat, a: string, b: string)
    requires Begins(s, pos, Then(a, b))
    ensures |s| <= pos + |a| ==> Begins(s, pos, a)
    ensures |s| >= pos + |a| ==> At(s, pos, a) && Begins(s, pos + |a|, b)
  {
    ThenIsAppended(a, b);
    BeginsParts(s, pos, a, b);
  }

  /** No quote in front of the last character. */
  predicate Sealed(t: string) {
    forall j :: 0 <= j < |t| - 1 ==> t[j] != '"'
  }

  /** The text ends inside one escaped character. */
  lemma {:induction false} CutUnit(s: string, pos: nat, c: char)
    requires Begins(s, pos, EscapeChar(c)) && pos < |s| < pos + |EscapeChar(c)|
    ensures s[pos] != '"' && s[|s| - 1] != '"' && UnitEnd(s, pos) == |s|
    ensures RawEnd(s, '{', '}', pos, 1, true) == |s|
  {
    BeginsChar(s, pos, EscapeChar(c), pos);
    if pos + 1 < |s| {
      BeginsChar(s, pos, EscapeChar(c), pos + 1);
      HexOfDigit(c as int / 16);
      HexOfDigit(c as int % 16);
      forall k | pos + 2 <= k < |s| ensures IsHex(s[k]) { BeginsChar(s, pos, EscapeChar(c), k); }
      CutHex(s, pos + 2, 4);
    }
  }

  lemma {:induction false} CutHex(s: string, pos: nat, left: nat)
    requires pos <= |s| < pos + left
    requires forall k :: pos <= k < |s| ==> IsHex(s[k])
    ensures HexEnd(s, pos, left) == |s| && RawEnd(s, '{', '}', pos, 1, true) == |s|
    decreases left
  {
    if pos < |s| { CutHex(s, pos + 1, left - 1); }
  }

  /** A literal cut short: neither the reader nor the scanner finds its end, and it may look closed only if whole. */
  ghost predicate Unclosed(s: string, pos: nat, t: string, i: nat)
    requires i <= |t|
  {
    && pos <= |s| && StringEnd(s, pos) == |s| && RawEnd(s, '{', '}', pos, 1, true) == |s|
    && (|s| == pos + |Escaped(t, i)| ==> Spells(s, pos, t, i))
    && (Sealed(t) && pos < |s| && s[|s| - 1] == '"' ==> |s| == pos + |Escaped(t, i)|)
  }

  lemma {:induction false} LastOfUnit(c: char)
    ensures EscapeChar(c)[|EscapeChar(c)| - 1] == '"' <==> c == '"'
  {
    if c as int < 0x20 { HexOfDigit(c as int % 16); }
  }

  lemma {:induction false} CutLiteral(s: string, pos: nat, t: string, i: nat)
    requires i <= |t| && Begins(s, pos, Escaped(t, i))
    ensures Unclosed(s, pos, t, i)
    decreases |t| - i
  {
    if i < |t| && pos < |s| {
      FirstUnit(s, pos, t, i);
      var next := pos + |EscapeChar(t[i])|;
      if |s| < next {
        CutUnit(s, pos, t[i]);
        InsideUnit(s, pos, t, i);
      } else {
        CutLiteral(s, next, t, i + 1);
        WholeUnit(s, pos, t, i);
      }
    }
  }

  lemma {:induction false} FirstUnit(s: string, pos: nat, t: string, i: nat)
    requires i < |t| && Begins(s, pos, Escaped(t, i))
    ensures var e := EscapeChar(t[i]);
      && (|s| <= pos + |e| ==> Begins(s, pos, e))
      && (|s| >= pos + |e| ==> At(s, pos, e) && Begins(s, pos + |e|, Escaped(t, i + 1)))
  {
    BeginsParts(s, pos, EscapeChar(t[i]), Escaped(t, i + 1));
  }

  lemma {:induction false} InsideUnit(s: string, pos: nat, t: string, i: nat)
    requires i < |t| && pos < |s| < pos + |EscapeChar(t[i])| && UnitEnd(s, pos) == |s| && s[pos] != '"'
    requires s[|s| - 1] != '"' && RawEnd(s, '{', '}', pos, 1, true) == |s|
    ensures Unclosed(s, pos, t, i)
  {
  }

  lemma {:induction false} WholeUnit(s: string, pos: nat, t: string, i: nat)
    requires i < |t| && At(s, pos, EscapeChar(t[i])) && Unclosed(s, pos + |EscapeChar(t[i])|, t, i + 1)
    ensures Unclosed(s, pos, t, i)
  {
    CharReads(s, pos, t[i]);
    ScanChar(s, '{', '}', pos, t[i], 1);
    var next := pos + |EscapeChar(t[i])|;
    if next == |s| {
      LastOfUnit(t[i]);
      AtChar(s, pos, EscapeChar(t[i]), |EscapeChar(t[i])| - 1);
    }
  }

  // ---- the cut member ----

  /** From `pos` on the reader finds `items`, and the scanner no end. */
  ghost predicate Torn(s: string, pos: nat, items: seq<Item>) {
    pos <= |s| && ReadItems(s, pos) == items && RawEnd(s, '{', '}', pos, 1, false) == |s|
  }

  lemma {:induction false} TornAtEnd(s: string, pos: nat)
    requires pos <= |s| && forall k :: pos <= k < |s| ==> IsSpace(s[k])
    ensures Torn(s, pos, [])
  {
    SkipSpaces(s, pos, |s|);
    ScanSpaces(s, pos, |s|);
  }

  /** What stands in front of a member changes nothing. */
  lemma {:induction false} TornBehindGap(s: string, pos: nat, q: nat, comma: bool, items: seq<Item>)
    requires q <= |s| && Gap(s, pos, q, comma) && (q < |s| ==> !IsSpace(s[q])) && Torn(s, q, items)
    ensures Torn(s, pos, items)
  {
    if comma {
      TornBehindSpace(s, pos + 1, q, items);
      SkipSpaces(s, pos, pos);
    } else {
      TornBehindSpace(s, pos, q, items);
    }
  }

  lemma {:induction false} TornBehindSpace(s: string, pos: nat, q: nat, items: seq<Item>)
    requires pos <= q <= |s| && (forall x :: pos <= x < q ==> IsSpace(s[x])) && Torn(s, q, items)
    ensures Torn(s, pos, items)
    decreases q - pos
  {
    if pos < q {
      TornBehindSpace(s, pos + 1, q, items);
      OneSpace(s, pos, items);
    }
  }

  lemma {:induction false} OneSpace(s: string, pos: nat, items: seq<Item>)
    requires pos < |s| && IsSpace(s[pos]) && Torn(s, pos + 1, items)
    ensures Torn(s, pos, items)
  {
    SkipOneSpace(s, pos);
    ScanSpaces(s, pos, pos + 1);
  }

  /** The key is cut, or nothing is left behind it. */
  lemma {:induction false} TornKey(s: string, q: nat, key: string)
    requires q < |s| && s[q] == '"' && Unclosed(s, q + 1, key, 0)
    ensures Torn(s, q, [])
  {
    SkipSpaces(s, q, q);
  }

  /** The text ends between key and value. */
  lemma {:induction false} TornBetween(s: string, q: nat, key: string, a: nat)
    requires q < a < |s| <= a + 3 && s[q] == '"' && Lit(s, q + 1, key, a)
    requires (a + 1 < |s| ==> s[a + 1] == ':') && (a + 2 < |s| ==> s[a + 2] == ' ')
    ensures Torn(s, q, [])
  {
    SkipSpaces(s, q, q);
    SkipSpaces(s, a + 1, a + 1);
    if a + 1 < |s| { SkipSpaces(s, a + 2, |s|); }
    ScanSpaces(s, a + 1, |s|);
  }

  /** The text ends in the value of the member at quote `q`, which starts behind `a + 3`. */
  ghost predicate InValue(s: string, q: nat, item: Item, a: nat) {
    && q < a && a + 4 <= |s| && s[q] == '"' && Lit(s, q + 1, item.key, a)
    && s[a + 1] == ':' && s[a + 2] == ' ' && s[a + 3] == '"' && Unclosed(s, a + 4, item.value, 0)
  }

  lemma {:induction false} InValueScans(s: string, q: nat, item: Item, a: nat)
    requires InValue(s, q, item, a)
    ensures RawEnd(s, '{', '}', q, 1, false) == |s|
  {
    ScanSpaces(s, a + 1, a + 3);
  }

  lemma {:induction false} InValueEnds(s: string, q: nat, item: Item, a: nat)
    requires InValue(s, q, item, a)
    ensures MemberEnd(s, q) == if s[|s| - 1] == '"' && |s| > a + 4 then |s| else -1
    ensures MemberEnd(s, q) >= 0 ==> ValueStart(s, q) == a + 4
  {
    SkipSpaces(s, a + 1, a + 1);
    SkipSpaces(s, a + 2, a + 3);
  }

  /** It is dropped, or it looks closed. */
  lemma {:induction false} TornValue(s: string, q: nat, item: Item, a: nat, taken: bool)
    requires InValue(s, q, item, a) && (taken <==> s[|s| - 1] == '"' && |s| > a + 4)
    requires taken ==> |s| == a + 4 + |Literal(item.value)|
    ensures Torn(s, q, Salvaged(item, taken))
  {
    InValueScans(s, q, item, a);
    InValueEnds(s, q, item, a);
    SkipSpaces(s, q, q);
    if taken { MemberText(s, q, item); }
  }

  /** The cut member is dropped, or it is whole up to its closing quote and taken. */
  function Salvaged(item: Item, taken: bool): seq<Item> {
    if taken then [item] else []
  }

  predicate EndsInQuote(t: string) {
    |t| > 0 && t[|t| - 1] == '"'
  }

  lemma {:induction false} LastOfLiteral(t: string, i: nat)
    requires i < |t|
    ensures |Escaped(t, i)| > 0
    ensures Escaped(t, i)[|Escaped(t, i)| - 1] == '"' <==> t[|t| - 1] == '"'
    decreases |t| - i
  {
    LastOfUnit(t[i]);
    if i + 1 < |t| { LastOfLiteral(t, i + 1); }
  }

  lemma {:induction false} LastOfCut(s: string, pos: nat, t: string)
    requires Begins(s, pos, Literal(t)) && |s| == pos + |Literal(t)| && EndsInQuote(t)
    ensures |s| > pos && s[|s| - 1] == '"'
  {
    LastOfLiteral(t, 0);
    BeginsChar(s, pos, Literal(t), |s| - 1);
  }

  /** The end of the text is reached in the value, or at its end. */
  lemma {:induction false} CutInValue(s: string, q: nat, item: Item, a: nat) returns (taken: bool)
    requires q < a && a + 4 <= |s| && s[q] == '"' && Lit(s, q + 1, item.key, a)
    requires s[a + 1] == ':' && s[a + 2] == ' ' && s[a + 3] == '"' && Begins(s, a + 4, Literal(item.value))
    requires Sealed(item.value) || |s| == a + 4 + |Literal(item.value)|
    ensures Torn(s, q, Salvaged(item, taken))
    ensures |s| == a + 4 + |Literal(item.value)| && EndsInQuote(item.value) ==> taken
  {
    CutLiteral(s, a + 4, item.value, 0);
    taken := s[|s| - 1] == '"' && |s| > a + 4;
    TornValue(s, q, item, a, taken);
    if |s| == a + 4 + |Literal(item.value)| && EndsInQuote(item.value) { LastOfCut(s, a + 4, item.value); }
  }

  lemma {:induction false} CutBehindKey(s: string, q: nat, item: Item, a: nat) returns (taken: bool)
    requires q < a < |s| && s[q] == '"' && Lit(s, q + 1, item.key, a)
    requires Begins(s, a, Then(BETWEEN, Then(Literal(item.value), "\"")))
    requires |s| < a + 5 + |Literal(item.value)|
    requires Sealed(item.value) || |s| == a + 4 + |Literal(item.value)|
    ensures Torn(s, q, Salvaged(item, taken))
    ensures |s| == a + 4 + |Literal(item.value)| && EndsInQuote(item.value) ==> taken
  {
    var v := Literal(item.value);
    BeginsThen(s, a, BETWEEN, Then(v, "\""));
    if |s| < a + 4 {
      if a + 1 < |s| { BeginsChar(s, a, BETWEEN, a + 1); }
      if a + 2 < |s| { BeginsChar(s, a, BETWEEN, a + 2); }
      TornBetween(s, q, item.key, a);
      taken := false;
    } else {
      BetweenParts(s, a);
      BeginsThen(s, a + 4, v, "\"");
      taken := CutInValue(s, q, item, a);
    }
  }

  /** Where a member's quote is, or the end of the text if that comes first. */
  function QuoteAt(s: string, start: nat): (q: nat)
    ensures q <= |s|
  {
    if start + 4 <= |s| then start + 4 else |s|
  }

  lemma {:induction false} CutAtKey(s: string, pos: nat, item: Item, rest: string) returns (taken: bool)
    requires rest == Then(BETWEEN, Then(Literal(item.value), "\""))
    requires 0 < pos <= |s| && s[pos - 1] == '"' && Begins(s, pos, Then(Literal(item.key), rest))
    requires |s| < pos + |Literal(item.key)| + |rest|
    requires Sealed(item.value) || |s| + 1 == pos + |Literal(item.key)| + |rest|
    ensures Torn(s, pos - 1, Salvaged(item, taken))
    ensures |s| + 1 == pos + |Literal(item.key)| + |rest| && EndsInQuote(item.value) ==> taken
  {
    BeginsThen(s, pos, Literal(item.key), rest);
    var a := pos + |Literal(item.key)|;
    if |s| <= a {
      CutLiteral(s, pos, item.key, 0);
      TornKey(s, pos - 1, item.key);
      taken := false;
    } else {
      RestStarts(item.value);
      BeginsChar(s, a, rest, a);
      LiteralReads(s, pos, item.key);
      taken := CutBehindKey(s, pos - 1, item, a);
    }
  }

  lemma {:induction false} RestStarts(value: string)
    ensures var rest := Then(BETWEEN, Then(Literal(value), "\""));
      |rest| == 5 + |Literal(value)| && rest[0] == '"'
  {
  }

  lemma {:induction false} CutMember(s: string, start: nat, item: Item) returns (taken: bool)
    requires Begins(s, start, ItemText(item)) && |s| < start + |ItemText(item)|
    requires Sealed(item.value) || |s| + 1 == start + |ItemText(item)|
    ensures var q := QuoteAt(s, start);
      Gap(s, start, q, false) && (q < |s| ==> s[q] == '"') && Torn(s, q, Salvaged(item, taken))
    ensures |s| + 1 == start + |ItemText(item)| && EndsInQuote(item.value) ==> taken
  {
    var rest := Then(BETWEEN, Then(Literal(item.value), "\""));
    BeginsThen(s, start, BEFORE_KEY, Then(Literal(item.key), rest));
    if |s| < start + 5 {
      forall x | start <= x < |s| ensures IsSpace(s[x]) { BeginsChar(s, start, BEFORE_KEY, x); }
      TornAtEnd(s, |s|);
      taken := false;
    } else {
      BeforeKeyParts(s, start);
      taken := CutAtKey(s, start + 5, item, rest);
    }
  }

  // ---- the cut list ----

  lemma {:induction false} CutLine(s: string, pos: nat, start: nat, item: Item) returns (taken: bool)
    requires Separates(s, pos, start) && Begins(s, start, ItemText(item)) && |s| < start + |ItemText(item)|
    requires Sealed(item.value) || |s| + 1 == start + |ItemText(item)|
    ensures Torn(s, pos, Salvaged(item, taken))
    ensures |s| + 1 == start + |ItemText(item)| && EndsInQuote(item.value) ==> taken
  {
    taken := CutMember(s, start, item);
    var q := QuoteAt(s, start);
    WiderGap(s, pos, start, q);
    TornBehindGap(s, pos, q, start != pos, Salvaged(item, taken));
  }

  lemma {:induction false} CutSeparator(s: string, pos: nat, rest: string)
    requires Begins(s, pos, Then(SEPARATOR, rest))
    ensures |s| < pos + 2 ==> Torn(s, pos, [])
    ensures |s| >= pos + 2 ==> Separates(s, pos, pos + 2) && Begins(s, pos + 2, rest)
  {
    BeginsThen(s, pos, SEPARATOR, rest);
    if |s| < pos + 2 {
      if pos < |s| { BeginsChar(s, pos, SEPARATOR, pos); }
      TornAtEnd(s, |s|);
    } else {
      AllAt(s, pos, SEPARATOR);
    }
  }

  lemma {:induction false} CutTail(s: string, pos: nat)
    requires Begins(s, pos, TAIL) && |s| < pos + 4
    ensures Torn(s, pos, [])
  {
    forall x | pos <= x < |s| ensures IsSpace(s[x]) { BeginsChar(s, pos, TAIL, x); }
    TornAtEnd(s, pos);
  }

  lemma {:induction false} OneMore(s: string, pos: nat, next: nat, items: seq<Item>, i: nat, k: nat)
    requires i < k <= |items| && Consumed(s, pos, items[i], next) && Torn(s, next, items[i + 1..k])
    ensures Torn(s, pos, items[i..k])
  {
    assert items[i..k] == [items[i]] + items[i + 1..k];
  }

  lemma {:induction false} LastOne(s: string, pos: nat, items: seq<Item>, i: nat, taken: bool)
    requires i < |items| && Torn(s, pos, Salvaged(items[i], taken))
    ensures Torn(s, pos, items[i..if taken then i + 1 else i])
  {
    assert items[i..i + 1] == [items[i]] && items[i..i] == [];
  }

  /** What the writer puts from line `i` on. */
  function Rest(texts: seq<string>, i: nat): string
    requires i <= |texts|
  {
    Then(Lines(texts, i), TAIL)
  }

  lemma {:induction false} ThenAssoc(a: string, b: string, c: string)
    ensures Then(Then(a, b), c) == Then(a, Then(b, c))
  {
    ThenIsAppended(a, b);
    ThenIsAppended(b, c);
    ThenIsAppended(a, b + c);
    ThenIsAppended(a + b, c);
    AppendAssoc(a, b, c);
  }

  lemma {:induction false} RestUnfolds(texts: seq<string>, i: nat)
    requires i < |texts|
    ensures i == 0 ==> Rest(texts, i) == Then(texts[i], Rest(texts, i + 1))
    ensures i > 0 ==> Rest(texts, i) == Then(SEPARATOR, Then(texts[i], Rest(texts, i + 1)))
  {
    var text, more := texts[i], Lines(texts, i + 1);
    ThenAssoc(text, more, TAIL);
    ThenAssoc(SEPARATOR, Then(text, more), TAIL);
  }

  /** The text ends before the brace that closes the object, in what stands at `pos` from line `i` on. */
  ghost predicate OpenFrom(s: string, pos: nat, texts: seq<string>, i: nat)
    requires i <= |texts|
  {
    Begins(s, pos, Rest(texts, i)) && |s| < pos + |Lines(texts, i)| + 4
  }

  ghost predicate AllSealed(items: seq<Item>) {
    forall j :: 0 <= j < |items| ==> Sealed(items[j].value)
  }

  /** The text ends in the member that starts at `start`. */
  ghost predicate CutAt(s: string, pos: nat, start: nat, text: string) {
    Separates(s, pos, start) && Begins(s, start, text) && |s| < start + |text|
  }

  /** The member that starts at `start` is whole. */
  ghost predicate WholeAt(s: string, pos: nat, start: nat, next: nat, text: string) {
    Separates(s, pos, start) && At(s, start, text) && next == start + |text|
  }

  /** What is left of the text is the beginning of line `i` and what follows it, with the object still open. */
  ghost predicate StartsAt(s: string, pos: nat, start: nat, texts: seq<string>, i: nat)
    requires i < |texts|
  {
    && Separates(s, pos, start) && Begins(s, start, Then(texts[i], Rest(texts, i + 1)))
    && |s| < start + |texts[i]| + |Lines(texts, i + 1)| + 4
  }

  /** Line `i` starts behind a separator unless it is the first. */
  lemma {:induction false} LineStarts(s: string, pos: nat, texts: seq<string>, i: nat) returns (start: nat)
    requires i < |texts| && OpenFrom(s, pos, texts, i)
    ensures |s| < start ==> Torn(s, pos, [])
    ensures |s| >= start ==> StartsAt(s, pos, start, texts, i)
  {
    RestUnfolds(texts, i);
    start := if i == 0 then pos else pos + 2;
    if i > 0 { CutSeparator(s, pos, Then(texts[i], Rest(texts, i + 1))); }
  }

  /** It is cut, or whole with the text ending in what comes behind it. */
  lemma {:induction false} LineFate(s: string, pos: nat, start: nat, texts: seq<string>, i: nat) returns (next: nat)
    requires i < |texts| && StartsAt(s, pos, start, texts, i)
    ensures |s| < next ==> CutAt(s, pos, start, texts[i])
    ensures |s| >= next ==> WholeAt(s, pos, start, next, texts[i]) && OpenFrom(s, next, texts, i + 1)
  {
    BeginsThen(s, start, texts[i], Rest(texts, i + 1));
    next := start + |texts[i]|;
  }

  lemma {:induction false} WholeConsumed(s: string, pos: nat, start: nat, next: nat, item: Item)
    requires WholeAt(s, pos, start, next, ItemText(item))
    ensures Consumed(s, pos, item, next)
  {
    WrittenIsConsumed(s, pos, start, next, item);
  }

  lemma {:induction false} TornAtTail(s: string, pos: nat, texts: seq<string>)
    requires OpenFrom(s, pos, texts, |texts|)
    ensures Torn(s, pos, [])
  {
    CutTail(s, pos);
  }

  /** Before the brace that closes the object: the reader finds some of the members, in order, from the first on. */
  lemma {:induction false} TornLines(s: string, pos: nat, texts: seq<string>, items: seq<Item>, i: nat)
    returns (k: nat)
    requires texts == Texts(items) && i <= |texts| && AllSealed(items) && OpenFrom(s, pos, texts, i)
    ensures i <= k <= |items| && Torn(s, pos, items[i..k])
    decreases |items| - i
  {
    k := i;
    assert items[i..i] == [];
    if i == |items| {
      TornAtTail(s, pos, texts);
    } else {
      var start := LineStarts(s, pos, texts, i);
      if start <= |s| { k := TornFrom(s, pos, start, texts, items, i); }
    }
  }

  lemma {:induction false} TornFrom(s: string, pos: nat, start: nat, texts: seq<string>, items: seq<Item>, i: nat)
    returns (k: nat)
    requires texts == Texts(items) && i < |texts| && AllSealed(items) && StartsAt(s, pos, start, texts, i)
    ensures i <= k <= |items| && Torn(s, pos, items[i..k])
    decreases |items| - i, 0
  {
    var next := LineFate(s, pos, start, texts, i);
    if |s| < next {
      k := TornHere(s, pos, start, items, i);
    } else {
      WholeConsumed(s, pos, start, next, items[i]);
      k := TornLines(s, next, texts, items, i + 1);
      OneMore(s, pos, next, items, i, k);
    }
  }

  lemma {:induction false} TornHere(s: string, pos: nat, start: nat, items: seq<Item>, i: nat) returns (k: nat)
    requires i < |items| && CutAt(s, pos, start, ItemText(items[i]))
    requires Sealed(items[i].value) || |s| + 1 == start + |ItemText(items[i])|
    ensures i <= k <= i + 1 && Torn(s, pos, items[i..k])
    ensures |s| + 1 == start + |ItemText(items[i])| && EndsInQuote(items[i].value) ==> k == i + 1
  {
    var taken := CutLine(s, pos, start, items[i]);
    LastOne(s, pos, items, i, taken);
    k := if taken then i + 1 else i;
  }

  // ---- the cut file ----

  /** The load finds no object, or it reads the first members of the list, for some number of them. */
  ghost predicate ReadsPrefix(s: string, items: seq<Item>) {
    var v := Raw(s, "domains");
    |v| == 0 || v[0] != '{' || exists k :: 0 <= k <= |items| && ReadItems(v, 1) == items[..k]
  }

  lemma {:induction false} NoNeedle(s: string, p: nat)
    requires p <= |s| && forall q :: p <= q < |s| ==> !At(s, q, NEEDLE)
    ensures Find(s, NEEDLE, p) == |s|
    decreases |s| - p
  {
    if p < |s| { NoNeedle(s, p + 1); }
  }

  lemma {:induction false} NeedleNotInHead(s: string, p: nat)
    requires Begins(s, 0, HEAD) && p < 20
    ensures !At(s, p, NEEDLE)
  {
    if At(s, p, NEEDLE) {
      NeedleStarts(s, p);
      BeginsChar(s, 0, HEAD, p);
      BeginsChar(s, 0, HEAD, p + 1);
      HeadQuotes(p);
      HeadTells();
    }
  }

  /** Before the object's brace there is nothing to read. */
  lemma {:induction false} CutHead(s: string)
    requires Begins(s, 0, HEAD) && |s| < 32
    ensures Raw(s, "domains") == ""
  {
    NeedleIsQuoted();
    if |s| < 29 {
      forall q | 0 <= q < |s| ensures !At(s, q, NEEDLE) { if q < 20 { NeedleNotInHead(s, q); } }
      NoNeedle(s, 0);
    } else {
      CutBehindNeedle(s);
    }
  }

  lemma {:induction false} NeedleFirst(s: string, p: nat)
    requires Begins(s, 0, HEAD) && p <= 20 && At(s, 20, NEEDLE)
    ensures Find(s, NEEDLE, p) == 20
    decreases 20 - p
  {
    if p < 20 {
      NeedleNotInHead(s, p);
      NeedleFirst(s, p + 1);
    }
  }

  lemma {:induction false} HeadNeedle(s: string)
    requires Begins(s, 0, HEAD) && 29 <= |s|
    ensures Find(s, NEEDLE, 0) == 20
    ensures (|s| > 29 ==> s[29] == ':') && (|s| > 30 ==> s[30] == ' ') && (|s| > 31 ==> s[31] == '{')
  {
    HeadNeedleAt();
    forall i | 0 <= i < 9 ensures s[20 + i] == NEEDLE[i] { BeginsChar(s, 0, HEAD, 20 + i); }
    AtChars(s, 20, NEEDLE);
    NeedleFirst(s, 0);
    if |s| > 29 { BeginsChar(s, 0, HEAD, 29); }
    if |s| > 30 { BeginsChar(s, 0, HEAD, 30); }
    if |s| > 31 { BeginsChar(s, 0, HEAD, 31); }
  }

  lemma {:induction false} HeadNeedleAt()
    ensures |HEAD| == 33 && forall i :: 0 <= i < 9 ==> HEAD[20 + i] == NEEDLE[i]
  {
  }

  lemma {:induction false} CutBehindNeedle(s: string)
    requires Begins(s, 0, HEAD) && 29 <= |s| < 32
    ensures ValueAt(s, NEEDLE, 0) == if |s| == 29 then NotFound else Position(|s|)
  {
    HeadNeedle(s);
    if |s| == 29 {
      forall q | 21 <= q < |s| ensures !At(s, q, NEEDLE) { assert |NEEDLE| == 9; }
      NoNeedle(s, 21);
    } else {
      SkipSpaces(s, 29, 29);
      SkipSpaces(s, 30, |s|);
    }
  }

  lemma {:induction false} OnlyBrace(s: string)
    requires Begins(s, 0, HEAD) && |s| == 32
    ensures Raw(s, "domains") == ['{'] && ReadItems(['{'], 1) == []
  {
    NeedleIsQuoted();
    HeadNeedle(s);
    SkipSpaces(s, 29, 29);
    SkipSpaces(s, 30, 31);
    assert RawEnd(s, '{', '}', 32, 1, false) == 32;
    assert s[31..32] == ['{'];
  }

  /** The object is open to the end of the text: its members are those of the whole rest. */
  lemma {:induction false} OpenObject(s: string)
    requires HeadAt(s) && RawEnd(s, '{', '}', 33, 1, false) == |s|
    ensures Raw(s, "domains") == s[31..]
  {
    ObjectFound(s);
    assert RawEnd(s, '{', '}', 31, 0, false) == RawEnd(s, '{', '}', 32, 1, false);
    assert RawEnd(s, '{', '}', 32, 1, false) == RawEnd(s, '{', '}', 33, 1, false);
  }

  lemma {:induction false} BeginsInside(s: string, from: nat, pos: nat, p: string)
    requires from <= pos && Begins(s, pos, p)
    ensures Begins(s[from..], pos - from, p)
  {
    var v := s[from..];
    forall k | pos - from <= k < |v| ensures v[k] == p[k - (pos - from)] { BeginsChar(s, pos, p, from + k); }
    BeginsChars(v, pos - from, p);
  }

  /** What is read of the rest is what the load reads. */
  lemma {:induction false} OpenReads(s: string, scanned: seq<Item>, items: seq<Item>, k: nat)
    requires HeadAt(s) && Torn(s, 33, scanned) && k <= |items| && Torn(s[31..], 2, items[..k])
    ensures ReadsPrefix(s, items)
  {
    OpenObject(s);
    OpenLine(s, s[31..], items[..k]);
    PrefixFound(s, s[31..], items, k);
  }

  lemma {:induction false} OpenLine(s: string, v: string, found: seq<Item>)
    requires HeadAt(s) && v == s[31..] && Torn(v, 2, found)
    ensures |v| > 1 && v[0] == '{' && ReadItems(v, 1) == found
  {
    SkipOneSpace(v, 1);
  }

  lemma {:induction false} PrefixFound(s: string, v: string, items: seq<Item>, k: nat)
    requires v == Raw(s, "domains") && |v| > 1 && k <= |items| && ReadItems(v, 1) == items[..k]
    ensures ReadsPrefix(s, items)
  {
  }

  lemma {:induction false} CutInside(s: string, items: seq<Item>, texts: seq<string>, rest: string)
    requires HeadAt(s) && AllSealed(items) && texts == Texts(items)
    requires rest == Rest(texts, 0) && Begins(s, 33, rest) && |s| < 37 + |Lines(texts, 0)|
    ensures ReadsPrefix(s, items)
  {
    var n := TornLines(s, 33, texts, items, 0);
    BeginsInside(s, 31, 33, rest);
    var k := TornLines(s[31..], 2, texts, items, 0);
    assert items[..k] == items[0..k];
    OpenReads(s, items[0..n], items, k);
  }

  lemma {:induction false} ClosedByTail(s: string, pos: nat)
    requires Begins(s, pos, TAIL) && pos + 4 <= |s|
    ensures Closes(s, pos)
  {
    BeginsChar(s, pos, TAIL, pos);
    BeginsChar(s, pos, TAIL, pos + 1);
    BeginsChar(s, pos, TAIL, pos + 2);
    BeginsChar(s, pos, TAIL, pos + 3);
  }

  lemma {:induction false} WholeIsPrefix(s: string, items: seq<Item>)
    requires ReadsAs(s, items)
    ensures ReadsPrefix(s, items)
  {
    assert items[..|items|] == items;
  }

  lemma {:induction false} ClosedLines(s: string, pos: nat, lines: string)
    requires Begins(s, pos, Then(lines, TAIL)) && |s| >= pos + |lines| + 4
    ensures At(s, pos, lines) && Closes(s, pos + |lines|)
  {
    BeginsThen(s, pos, lines, TAIL);
    ClosedByTail(s, pos + |lines|);
  }

  lemma {:induction false} CutBehind(s: string, items: seq<Item>, lines: string)
    requires HeadAt(s) && lines == Lines(Texts(items), 0) && At(s, 33, lines) && Closes(s, 33 + |lines|)
    ensures ReadsPrefix(s, items)
  {
    PlacedFileReads(s, items, |lines|);
    WholeIsPrefix(s, items);
  }

  lemma {:induction false} CutInHead(s: string, items: seq<Item>)
    requires Begins(s, 0, HEAD) && |s| <= 32
    ensures ReadsPrefix(s, items)
  {
    if |s| < 32 {
      CutHead(s);
    } else {
      OnlyBrace(s);
      assert items[..0] == [];
    }
  }

  lemma {:induction false} CutBehindHead(s: string, items: seq<Item>, lines: string)
    requires AllSealed(items) && HeadAt(s) && lines == Lines(Texts(items), 0) && Begins(s, 33, Then(lines, TAIL))
    ensures ReadsPrefix(s, items)
  {
    if |s| < 37 + |lines| {
      CutInside(s, items, Texts(items), Then(lines, TAIL));
    } else {
      ClosedLines(s, 33, lines);
      CutBehind(s, items, lines);
    }
  }

  lemma {:induction false} HeadIsCutOrWhole(s: string, rest: string)
    requires Begins(s, 0, Then(HEAD, rest))
    ensures |s| <= 32 ==> Begins(s, 0, HEAD)
    ensures |s| > 32 ==> HeadAt(s) && Begins(s, 33, rest)
  {
    BeginsThen(s, 0, HEAD, rest);
    if |s| > 32 { HeadChars(s); }
  }

  /** Wherever the file is cut, the load reads a prefix of the list, if no value holds a quote before its end. */
  lemma {:induction false} CutFileReads(items: seq<Item>, s: string)
    requires Begins(s, 0, FileText(items)) && AllSealed(items)
    ensures ReadsPrefix(s, items)
  {
    var lines := Lines(Texts(items), 0);
    HeadIsCutOrWhole(s, Then(lines, TAIL));
    if |s| <= 32 { CutInHead(s, items); } else { CutBehindHead(s, items, lines); }
  }

  // ---- and only if ----

  /** A member up to its closing quote. */
  function OpenText(item: Item): string {
    Then(BEFORE_KEY, Then(Literal(item.key), Then(BETWEEN, Literal(item.value))))
  }

  lemma {:induction false} ThenGrows(a: string, b: string, c: string)
    requires b <= c
    ensures Then(a, b) <= Then(a, c)
  {
    ThenIsAppended(a, b);
    ThenIsAppended(a, c);
  }

  lemma {:induction false} ThenStarts(a: string, b: string, rest: string)
    requires a <= b
    ensures a <= Then(b, rest)
  {
    ThenIsAppended(b, rest);
  }

  lemma {:induction false} EscapedGrows(t: string, n: nat, i: nat)
    requires i <= n <= |t|
    ensures Escaped(t[..n], i) <= Escaped(t, i)
    decreases n - i
  {
    if i < n {
      EscapedGrows(t, n, i + 1);
      Appended(EscapeChar(t[i]), Escaped(t[..n], i + 1), Escaped(t, i + 1));
    }
  }

  lemma {:induction false} Appended(a: string, b: string, c: string)
    requires b <= c
    ensures a + b <= a + c
  {
  }

  /** Cutting the value cuts the text. */
  lemma {:induction false} OpenGrows(item: Item, n: nat)
    requires n <= |item.value|
    ensures OpenText(Item(item.key, item.value[..n])) <= ItemText(item)
  {
    var v := Literal(item.value[..n]);
    EscapedGrows(item.value, n, 0);
    ThenStarts(v, Literal(item.value), "\"");
    ThenGrows(BETWEEN, v, Then(Literal(item.value), "\""));
    ThenGrows(Literal(item.key), Then(BETWEEN, v), Then(BETWEEN, Then(Literal(item.value), "\"")));
    ThenGrows(BEFORE_KEY, Then(Literal(item.key), Then(BETWEEN, v)),
              Then(Literal(item.key), Then(BETWEEN, Then(Literal(item.value), "\""))));
  }

  lemma {:induction false} OpenLength(item: Item)
    ensures |ItemText(item)| == |OpenText(item)| + 1
  {
  }

  /** The lines up to one that is cut are a beginning of all the lines. */
  lemma {:induction false} LinesGrow(texts: seq<string>, all: seq<string>, k: nat)
    requires k < |texts| <= |all| && texts[|texts| - 1] <= all[|texts| - 1]
    requires forall q :: 0 <= q < |texts| - 1 ==> texts[q] == all[q]
    ensures Lines(texts, k) <= Lines(all, k)
    decreases |texts| - k
  {
    if k + 1 < |texts| {
      LinesGrow(texts, all, k + 1);
      ThenGrows(texts[k], Lines(texts, k + 1), Lines(all, k + 1));
    } else {
      ThenIsAppended(texts[k], "");
      ThenStarts(texts[k], all[k], Lines(all, k + 1));
    }
    ThenGrows(SEPARATOR, Then(texts[k], Lines(texts, k + 1)), Then(all[k], Lines(all, k + 1)));
  }

  lemma {:induction false} BeginsAtEnd(s: string, pos: nat, p: string, q: string)
    requires At(s, pos, p) && |s| == pos + |p| && p <= q
    ensures Begins(s, pos, q)
  {
    assert q[..|p|] == p;
  }

  /** A line taken for whole that lacks its closing quote. */
  lemma {:induction false} MisreadLine(s: string, pos: nat, start: nat, items: seq<Item>, k: nat)
    requires k < |items| && Separates(s, pos, start) && EndsInQuote(items[k].value)
    requires At(s, start, OpenText(items[k])) && |s| == start + |OpenText(items[k])|
    ensures Torn(s, pos, items[k..k + 1])
  {
    OpenLength(items[k]);
    OpenGrows(items[k], |items[k].value|);
    assert Item(items[k].key, items[k].value[..|items[k].value|]) == items[k];
    BeginsAtEnd(s, start, OpenText(items[k]), ItemText(items[k]));
    var next := TornHere(s, pos, start, items, k);
  }

  lemma {:induction false} LineParts(s: string, pos: nat, texts: seq<string>, k: nat) returns (start: nat, next: nat)
    requires k < |texts| && At(s, pos, Lines(texts, k))
    ensures WholeAt(s, pos, start, next, texts[k])
    ensures At(s, next, Lines(texts, k + 1)) && next + |Lines(texts, k + 1)| == pos + |Lines(texts, k)|
  {
    if k > 0 {
      start, next := LaterMember(s, pos, texts[k], Lines(texts, k + 1));
    } else {
      start := pos;
      next := FirstMember(s, pos, texts[k], Lines(texts, k + 1));
    }
  }

  lemma {:induction false} WholeThenRest(s: string, pos: nat, start: nat, next: nat, items: seq<Item>, k: nat)
    requires k < |items| && WholeAt(s, pos, start, next, ItemText(items[k])) && Torn(s, next, items[k + 1..|items|])
    ensures Torn(s, pos, items[k..|items|])
  {
    WholeConsumed(s, pos, start, next, items[k]);
    OneMore(s, pos, next, items, k, |items|);
  }

  /** The lines in front of the cut one are read, and the cut one is taken for whole. */
  lemma {:induction false} MisreadLines(s: string, pos: nat, texts: seq<string>, items: seq<Item>, k: nat)
    requires k < |texts| == |items| && At(s, pos, Lines(texts, k)) && |s| == pos + |Lines(texts, k)|
    requires forall q :: 0 <= q < |texts| - 1 ==> texts[q] == ItemText(items[q])
    requires texts[|texts| - 1] == OpenText(items[|items| - 1]) && EndsInQuote(items[|items| - 1].value)
    ensures Torn(s, pos, items[k..|items|])
    decreases |texts| - k
  {
    var start, next := LineParts(s, pos, texts, k);
    if k + 1 < |texts| {
      MisreadLines(s, next, texts, items, k + 1);
      WholeThenRest(s, pos, start, next, items, k);
    } else {
      MisreadLine(s, pos, start, items, k);
    }
  }

  lemma {:induction false} FileStarts(s: string, lines: string)
    requires s == Then(HEAD, lines)
    ensures HeadAt(s) && |s| == 33 + |lines| && At(s, 33, lines) && At(s[31..], 2, lines)
  {
    AtSelf(s);
    AtThen(s, 0, HEAD, lines);
    HeadChars(s);
    AtInside(s, 31, |s|, 33, lines);
    assert s[31..|s|] == s[31..];
  }

  lemma {:induction false} OpenReadsAs(s: string, items: seq<Item>)
    requires HeadAt(s) && Torn(s, 33, items[0..|items|]) && Torn(s[31..], 2, items[0..|items|])
    ensures ReadsAs(s, items)
  {
    OpenObject(s);
    OpenLine(s, s[31..], items[0..|items|]);
    assert items[0..|items|] == items;
  }

  /** The load of the misread file. */
  lemma {:induction false} MisreadFile(s: string, lines: string, texts: seq<string>, items: seq<Item>)
    requires 0 < |texts| == |items| && lines == Lines(texts, 0) && s == Then(HEAD, lines)
    requires forall q :: 0 <= q < |texts| - 1 ==> texts[q] == ItemText(items[q])
    requires texts[|texts| - 1] == OpenText(items[|items| - 1]) && EndsInQuote(items[|items| - 1].value)
    ensures ReadsAs(s, items)
  {
    FileStarts(s, lines);
    MisreadLines(s, 33, texts, items, 0);
    MisreadLines(s[31..], 2, texts, items, 0);
    OpenReadsAs(s, items);
  }

  lemma {:induction false} NotAPrefix(s: string, items: seq<Item>, found: seq<Item>, i: nat)
    requires i < |items| && |found| == i + 1 && found[i] != items[i] && ReadsAs(s, found)
    ensures !ReadsPrefix(s, items)
  {
    forall k | 0 <= k <= |items| ensures found != items[..k] {
      if k > i { assert items[..k][i] == items[i]; }
    }
  }

  function CutTexts(items: seq<Item>, i: nat, cut: Item): seq<string>
    requires i < |items|
  {
    Texts(items)[..i] + [OpenText(cut)]
  }

  /** The file up to a cut value is a beginning of the file. */
  lemma {:induction false} CutIsBeginning(items: seq<Item>, i: nat, n: nat, cut: Item, lines: string)
    requires i < |items| && n <= |items[i].value| && cut == Item(items[i].key, items[i].value[..n])
    requires lines == Lines(CutTexts(items, i, cut), 0)
    ensures Then(HEAD, lines) <= FileText(items)
  {
    OpenGrows(items[i], n);
    LinesGrow(CutTexts(items, i, cut), Texts(items), 0);
    ThenStarts(lines, Lines(Texts(items), 0), TAIL);
    ThenGrows(HEAD, lines, Rest(Texts(items), 0));
  }

  lemma {:induction false} CutIsMisread(items: seq<Item>, i: nat, cut: Item, lines: string)
    requires i < |items| && EndsInQuote(cut.value) && lines == Lines(CutTexts(items, i, cut), 0)
    ensures ReadsAs(Then(HEAD, lines), items[..i] + [cut])
  {
    MisreadFile(Then(HEAD, lines), lines, CutTexts(items, i, cut), items[..i] + [cut]);
  }

  lemma {:induction false} MisreadText(items: seq<Item>, i: nat, n: nat, cut: Item) returns (s: string)
    requires i < |items| && n <= |items[i].value| && cut == Item(items[i].key, items[i].value[..n])
    requires EndsInQuote(cut.value)
    ensures s <= FileText(items) && ReadsAs(s, items[..i] + [cut])
  {
    var lines := Lines(CutTexts(items, i, cut), 0);
    CutIsBeginning(items, i, n, cut, lines);
    CutIsMisread(items, i, cut, lines);
    s := Then(HEAD, lines);
  }

  /** Where the file is cut behind a quote inside a value, the load reads a value that was never written. */
  lemma {:induction false} QuoteMisleads(items: seq<Item>, i: nat, j: nat) returns (m: nat, found: seq<Item>)
    requires i < |items| && j + 1 < |items[i].value| && items[i].value[j] == '"'
    ensures m <= |FileText(items)| && ReadsAs(FileText(items)[..m], found)
    ensures found == items[..i] + [Item(items[i].key, items[i].value[..j + 1])]
    ensures !ReadsPrefix(FileText(items)[..m], items)
  {
    var s := MisreadText(items, i, j + 1, Item(items[i].key, items[i].value[..j + 1]));
    m, found := |s|, items[..i] + [Item(items[i].key, items[i].value[..j + 1])];
    FoundIsNew(s, items, i, j, found);
    SliceOf(s, FileText(items));
  }

  lemma {:induction false} SliceOf(s: string, all: string)
    requires s <= all
    ensures all[..|s|] == s
  {
  }

  lemma {:induction false} FoundIsNew(s: string, items: seq<Item>, i: nat, j: nat, found: seq<Item>)
    requires i < |items| && j + 1 < |items[i].value| && ReadsAs(s, found)
    requires found == items[..i] + [Item(items[i].key, items[i].value[..j + 1])]
    ensures !ReadsPrefix(s, items)
  {
    assert |found[i].value| == j + 1;
    NotAPrefix(s, items, found, i);
  }

  /** Every prefix of the file reads as a prefix of the list. */
  ghost predicate SafeToTear(items: seq<Item>) {
    forall m :: 0 <= m <= |FileText(items)| ==> ReadsPrefix(FileText(items)[..m], items)
  }

  lemma {:induction false} PrefixBegins(all: string, m: nat)
    requires m <= |all|
    ensures Begins(all[..m], 0, all)
  {
    BeginsChars(all[..m], 0, all);
  }

  lemma {:induction false} SealedCutReads(items: seq<Item>, m: nat)
    requires AllSealed(items) && m <= |FileText(items)|
    ensures ReadsPrefix(FileText(items)[..m], items)
  {
    PrefixBegins(FileText(items), m);
    CutFileReads(items, FileText(items)[..m]);
  }

  /**
    The loader's promise about torn writes, exactly: every prefix of the file reads as a prefix of the list
    if and only if no value holds a quote in front of its last character.
   */
  lemma {:induction false} SafeToTearExactly(items: seq<Item>)
    ensures SafeToTear(items) <==> forall i :: 0 <= i < |items| ==> Sealed(items[i].value)
  {
    if AllSealed(items) {
      forall m | 0 <= m <= |FileText(items)| ensures ReadsPrefix(FileText(items)[..m], items) {
        SealedCutReads(items, m);
      }
    } else {
      var i :| 0 <= i < |items| && !Sealed(items[i].value);
      var j :| 0 <= j < |items[i].value| - 1 && items[i].value[j] == '"';
      var m, found := QuoteMisleads(items, i, j);
    }
  }

  // ---- the store ----

  lemma {:induction false} SnapshotIsSealed(lines: seq<Line>)
    requires Savable(lines)
    ensures AllSealed(ItemsOf(lines))
  {
    forall j | 0 <= j < |lines| ensures Sealed(ItemsOf(lines)[j].value) {
      EncodeUnquoted(lines[j].winner);
    }
  }

  /** Loading the first members of a list loads as many members of the list. */
  lemma {:induction false} LoadsAsMany(items: seq<Item>, k: nat, n: nat, at: nat)
    requires n <= k <= |items|
    ensures LoadItems(items[..k], n, at) == LoadItems(items, n, at)
  {
    if n > 0 { LoadsAsMany(items, k, n - 1, at); }
  }

  /** The load leaves the store alone, or takes in the first `k` lines and nothing else. */
  ghost predicate LoadsFirst(t: Option<Tables>, lines: seq<Line>, k: nat, at: nat) {
    t.None? || (k <= |lines| && Exact(t.value.entries, lines, k, at) && t.value == LoadItems(ItemsOf(lines), k, at))
  }

  /** Whatever part of a snapshot reached the disk, the load restores the winners of its first lines as saved. */
  lemma {:induction false} TornSnapshotLoads(
    lines: seq<Line>, s: State, savedAt: nat, loadedAt: nat, m: nat) returns (k: nat)
    requires Snapshot(lines, s, savedAt) && Savable(lines) && Bounded(s) && m <= |FileText(ItemsOf(lines))|
    ensures LoadsFirst(LoadText(FileText(ItemsOf(lines))[..m], loadedAt), lines, k, loadedAt)
  {
    SnapshotIsSealed(lines);
    SealedCutReads(ItemsOf(lines), m);
    k := PrefixLoads(FileText(ItemsOf(lines))[..m], lines, s, savedAt, loadedAt);
  }

  lemma {:induction false} PrefixLoads(text: string, lines: seq<Line>, s: State, savedAt: nat, loadedAt: nat)
    returns (k: nat)
    requires ReadsPrefix(text, ItemsOf(lines)) && Snapshot(lines, s, savedAt) && Savable(lines) && Bounded(s)
    ensures LoadsFirst(LoadText(text, loadedAt), lines, k, loadedAt)
  {
    k := 0;
    if LoadText(text, loadedAt).Some? {
      var items := ItemsOf(lines);
      k :| 0 <= k <= |items| && ReadItems(Raw(text, "domains"), 1) == items[..k];
      LoadsAsMany(items, k, k, loadedAt);
      LoadedExactly(lines, k, s, savedAt, loadedAt);
    }
  }

  /** Every winner of the loaded tables is an unexpired winner of the saved store, as it was. */
  ghost predicate OnlySaved(t: Option<Tables>, s: State, loadedAt: nat) {
    t.Some? ==> forall key :: key in t.value.entries ==>
      key in LiveEntries(s.entries, loadedAt) && t.value.entries[key].winner == s.entries[key].winner
  }

  /**
    In every run whose clock never read more than it does at the load: wherever the write of a snapshot was
    torn, the load neither invents nor alters a winner.
   */
  lemma {:induction false} TornWriteInventsNothing(
    events: seq<Event>, states: seq<State>, dirty: seq<bool>, n: nat, lines: seq<Line>, savedAt: nat, loadedAt: nat,
    m: nat)
    requires Run(events, states, dirty) && n <= |events| && Snapshot(lines, states[n], savedAt)
    requires forall i :: 0 <= i < n ==> OnTime(events[i], loadedAt)
    requires savedAt <= loadedAt && loadedAt + LEARNING_TTL < UINT64 && m <= |FileText(ItemsOf(lines))|
    ensures OnlySaved(LoadText(FileText(ItemsOf(lines))[..m], loadedAt), states[n], loadedAt)
  {
    ReachableIsSavable(events, states, dirty, n, lines, savedAt, loadedAt);
    RunKeepsDated(events, states, dirty, n, loadedAt);
    var k := TornSnapshotLoads(lines, states[n], savedAt, loadedAt, m);
    FirstLinesAreSaved(LoadText(FileText(ItemsOf(lines))[..m], loadedAt), lines, k, states[n], savedAt, loadedAt);
  }

  lemma {:induction false} FirstLinesAreSaved(
    t: Option<Tables>, lines: seq<Line>, k: nat, s: State, savedAt: nat, loadedAt: nat)
    requires LoadsFirst(t, lines, k, loadedAt) && Snapshot(lines, s, savedAt) && Dated(s, loadedAt)
    ensures OnlySaved(t, s, loadedAt)
  {
    if t.Some? {
      forall key | key in t.value.entries
        ensures key in LiveEntries(s.entries, loadedAt) && t.value.entries[key].winner == s.entries[key].winner
      {
        var i :| 0 <= i < k && lines[i].key == key && Survives(lines[i].winner, loadedAt);
        assert SavesWinner(s, lines[i], savedAt);
        assert DatedWinner(key, s.entries[key].winner, loadedAt);
      }
    }
  }
}
