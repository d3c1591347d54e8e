/**
  The layout of the strategy file: a version and an object of string members, one per line.

  Main result: the reader, which finds the object by its key and by counting braces, gets back exactly
  the members that were written, whatever text their keys and values hold.
 */
module StoreLayout {
  import opened Collections
  import opened Json

  datatype Item = Item(key: string, value: string)

  const HEAD := "{\n  \"version\": 2,\n  \"domains\": {\n"
  const TAIL := "\n  }\n}\n"
  const BEFORE_KEY := "    \""
  const BETWEEN := "\": \""
  const SEPARATOR := ",\n"

  // ---- writing ----

  function Literal(t: string): string {
    Escaped(t, 0)
  }

  /** One text behind the other, character by character. */
  function Then(a: string, b: string): (s: string)
    ensures |s| == |a| + |b|
  {
    if |a| == 0 then b else [a[0]] + Then(a[1..], b)
  }

  lemma {:induction false} ThenIsAppended(a: string, b: string)
    ensures Then(a, b) == a + b
  {
    if |a| > 0 {
      ThenIsAppended(a[1..], b);
      assert a == [a[0]] + a[1..];
    }
  }

  function ItemText(item: Item): string {
    Then(BEFORE_KEY, Then(Literal(item.key), Then(BETWEEN, Then(Literal(item.value), "\""))))
  }

  function Texts(items: seq<Item>): (texts: seq<string>)
    ensures |texts| == |items|
  {
    seq(|items|, i requires 0 <= i < |items| => ItemText(items[i]))
  }

  /** The members from index `i` on, each but the first behind a separator. */
  function Lines(texts: seq<string>, i: nat): string
    requires i <= |texts|
    decreases |texts| - i
  {
    if i == |texts| then ""
    else if i == 0 then Then(texts[i], Lines(texts, i + 1))
    else Then(SEPARATOR, Then(texts[i], Lines(texts, i + 1)))
  }

  function FileText(items: seq<Item>): string {
    Then(HEAD, Then(Lines(Texts(items), 0), TAIL))
  }

  lemma {:induction false} AtThen(s: string, pos: nat, a: string, b: string)
    requires At(s, pos, Then(a, b))
    ensures At(s, pos, a) && At(s, pos + |a|, b)
  {
    ThenIsAppended(a, b);
    AtSplit(s, pos, a, b);
  }

  // ---- reading ----

  /** Just past the quote that closes the literal whose text starts at `pos`. */
  function LiteralEnd(s: string, pos: nat): (end: nat)
    requires pos <= |s|
    ensures pos <= end <= |s|
  {
    if StringEnd(s, pos) < |s| then StringEnd(s, pos) + 1 else |s|
  }

  /** One member whose key starts at the quote at `pos`: where it ends, or -1 if it is not one. */
  function MemberEnd(s: string, pos: nat): (end: int)
    requires pos < |s|
    ensures end == -1 || pos < end <= |s|
  {
    var colon := SkipWs(s, LiteralEnd(s, pos + 1));
    if colon >= |s| || s[colon] != ':' then -1
    else
      var value := SkipWs(s, colon + 1);
      if value >= |s| || s[value] != '"' then -1
      else
        var end := LiteralEnd(s, value + 1);
        if end < value + 2 || s[end - 1] != '"' then -1 else end
  }

  /** Where the text of the value starts. */
  function ValueStart(s: string, pos: nat): (start: nat)
    requires pos < |s| && MemberEnd(s, pos) >= 0
    ensures start <= |s|
  {
    SkipWs(s, SkipWs(s, LiteralEnd(s, pos + 1)) + 1) + 1
  }

  function MemberItem(s: string, pos: nat): Item
    requires pos < |s| && MemberEnd(s, pos) >= 0
  {
    Item(StringText(s, pos + 1), StringText(s, ValueStart(s, pos)))
  }

  ghost predicate MemberIs(s: string, pos: nat, item: Item)
    requires pos < |s| && MemberEnd(s, pos) >= 0
  {
    Spells(s, pos + 1, item.key, 0) && Spells(s, ValueStart(s, pos), item.value, 0)
  }

  lemma {:induction false} MemberText(s: string, pos: nat, item: Item)
    requires pos < |s| && MemberEnd(s, pos) >= 0 && MemberIs(s, pos, item)
    ensures MemberItem(s, pos) == item
  {
    SpelledText(s, pos + 1, item.key, 0);
    SpelledText(s, ValueStart(s, pos), item.value, 0);
    assert item.key[0..] == item.key && item.value[0..] == item.value;
  }

  /** The members read from `pos` on, up to the first thing that is not one. */
  function ReadItems(s: string, pos: nat): (items: seq<Item>)
    requires pos <= |s|
    decreases |s| - pos
  {
    var p := SkipWs(s, pos);
    if p >= |s| || s[p] == '}' then []
    else if s[p] == ',' then ReadItems(s, p + 1)
    else if s[p] != '"' || MemberEnd(s, p) < 0 then []
    else [MemberItem(s, p)] + ReadItems(s, MemberEnd(s, p))
  }

  // ---- where things are ----

  lemma {:induction false} SkipSpaces(s: string, pos: nat, next: nat)
    requires pos <= next <= |s| && (forall k :: pos <= k < next ==> IsSpace(s[k])) && (next < |s| ==> !IsSpace(s[next]))
    ensures SkipWs(s, pos) == next
    decreases next - pos
  {
    if pos < next { SkipSpaces(s, pos + 1, next); }
  }

  lemma {:induction false} AllAt(s: string, pos: nat, p: string)
    requires At(s, pos, p)
    ensures forall k :: pos <= k < pos + |p| ==> s[k] == p[k - pos]
  {
    forall k | pos <= k < pos + |p| ensures s[k] == p[k - pos] { AtChar(s, pos, p, k - pos); }
  }

  /** A literal whose text starts at `pos` and whose quote is at `end`, as the reader and the scanner see it. */
  ghost predicate Lit(s: string, pos: nat, t: string, end: nat) {
    && pos <= end < |s| && s[end] == '"' && LiteralEnd(s, pos) == end + 1 && Spells(s, pos, t, 0)
    && RawEnd(s, '{', '}', pos, 1, true) == RawEnd(s, '{', '}', end + 1, 1, false)
  }

  lemma {:induction false} LiteralReads(s: string, pos: nat, t: string)
    requires At(s, pos, Literal(t)) && pos + |Literal(t)| < |s| && s[pos + |Literal(t)|] == '"'
    ensures Lit(s, pos, t, pos + |Literal(t)|)
  {
    EscapedEnds(s, pos, t, 0);
    EscapedReads(s, pos, t, 0);
    ScanEscaped(s, '{', '}', pos, t, 0, 1);
  }

  lemma {:induction false} BetweenParts(s: string, pos: nat)
    requires At(s, pos, BETWEEN)
    ensures pos + 4 <= |s| && s[pos] == '"' && s[pos + 1] == ':' && s[pos + 2] == ' ' && s[pos + 3] == '"'
  {
    AllAt(s, pos, BETWEEN);
  }

  lemma {:induction false} BeforeKeyParts(s: string, pos: nat)
    requires At(s, pos, BEFORE_KEY)
    ensures pos + 5 <= |s| && s[pos + 4] == '"' && forall k :: pos <= k < pos + 4 ==> IsSpace(s[k])
  {
    AllAt(s, pos, BEFORE_KEY);
  }

  /** Where the parts of a member are: its key ends at quote `a`, its value at quote `b`. */
  ghost predicate Placed(s: string, pos: nat, item: Item, a: nat, b: nat) {
    && pos + 5 <= a && a + 4 <= b < |s|
    && (forall x :: pos <= x < pos + 4 ==> IsSpace(s[x])) && s[pos + 4] == '"'
    && s[a + 1] == ':' && s[a + 2] == ' ' && s[a + 3] == '"'
    && Lit(s, pos + 5, item.key, a) && Lit(s, a + 4, item.value, b)
  }

  lemma {:induction false} SecondHalf(s: string, pos: nat, value: string) returns (b: nat)
    requires At(s, pos, Then(BETWEEN, Then(Literal(value), "\"")))
    ensures pos + 4 <= b < |s| && b + 1 == pos + 5 + |Literal(value)|
    ensures s[pos] == '"' && s[pos + 1] == ':' && s[pos + 2] == ' ' && s[pos + 3] == '"' && Lit(s, pos + 4, value, b)
  {
    var v := Literal(value);
    AtThen(s, pos, BETWEEN, Then(v, "\""));
    AtThen(s, pos + 4, v, "\"");
    b := pos + 4 + |v|;
    AtChar(s, b, "\"", 0);
    BetweenParts(s, pos);
    LiteralReads(s, pos + 4, value);
  }

  lemma {:induction false} FirstHalf(s: string, pos: nat, key: string, rest: string) returns (a: nat)
    requires At(s, pos, Then(BEFORE_KEY, Then(Literal(key), rest))) && |rest| > 0 && rest[0] == '"'
    ensures pos + 5 <= a < |s| && a == pos + 5 + |Literal(key)| && At(s, a, rest)
    ensures (forall x :: pos <= x < pos + 4 ==> IsSpace(s[x])) && s[pos + 4] == '"' && Lit(s, pos + 5, key, a)
  {
    var k := Literal(key);
    AtThen(s, pos, BEFORE_KEY, Then(k, rest));
    AtThen(s, pos + 5, k, rest);
    a := pos + 5 + |k|;
    AtChar(s, a, rest, 0);
    BeforeKeyParts(s, pos);
    LiteralReads(s, pos + 5, key);
  }

  lemma {:induction false} MemberIsPlaced(s: string, pos: nat, item: Item) returns (a: nat, b: nat)
    requires At(s, pos, ItemText(item))
    ensures Placed(s, pos, item, a, b) && b + 1 == pos + |ItemText(item)|
  {
    var rest := Then(BETWEEN, Then(Literal(item.value), "\""));
    a := FirstHalf(s, pos, item.key, rest);
    b := SecondHalf(s, a, item.value);
  }

  lemma {:induction false} PlacedReads(s: string, pos: nat, item: Item, a: nat, b: nat)
    requires Placed(s, pos, item, a, b)
    ensures MemberEnd(s, pos + 4) == b + 1 && MemberIs(s, pos + 4, item)
  {
    SkipSpaces(s, a + 1, a + 1);
    SkipSpaces(s, a + 2, a + 3);
  }

  lemma {:induction false} PlacedScans(s: string, pos: nat, item: Item, a: nat, b: nat)
    requires Placed(s, pos, item, a, b)
    ensures RawEnd(s, '{', '}', pos + 4, 1, false) == RawEnd(s, '{', '}', b + 1, 1, false)
  {
    ScanSpaces(s, a + 1, a + 3);
    assert RawEnd(s, '{', '}', a + 3, 1, false) == RawEnd(s, '{', '}', a + 4, 1, true);
  }

  /** A member with its quote at `q` and its end at `next`, as the reader and the scanner see it. */
  ghost predicate Reads(s: string, q: nat, item: Item, next: nat) {
    && q < next <= |s| && s[q] == '"' && MemberEnd(s, q) == next && MemberIs(s, q, item)
    && RawEnd(s, '{', '}', q, 1, false) == RawEnd(s, '{', '}', next, 1, false)
  }

  /** A written member reads back as itself, and the scanner passes over it. */
  lemma {:induction false} MemberReads(s: string, pos: nat, next: nat, item: Item)
    requires At(s, pos, ItemText(item)) && next == pos + |ItemText(item)|
    ensures Reads(s, pos + 4, item, next) && Gap(s, pos, pos + 4, false)
  {
    var a, b := MemberIsPlaced(s, pos, item);
    PlacedReads(s, pos, item, a, b);
    PlacedScans(s, pos, item, a, b);
  }

  /** What may stand in front of a member: white space, behind a comma unless it is the first. */
  predicate Gap(s: string, pos: nat, q: nat, comma: bool)
    requires q <= |s|
  {
    if comma then pos < q && s[pos] == ',' && forall x :: pos + 1 <= x < q ==> IsSpace(s[x])
    else pos <= q && forall x :: pos <= x < q ==> IsSpace(s[x])
  }

  /** From `pos`, the reader takes `item` and goes on at `next`, and so does the scanner. */
  ghost predicate Consumed(s: string, pos: nat, item: Item, next: nat) {
    && pos <= next <= |s| && ReadItems(s, pos) == [item] + ReadItems(s, next)
    && RawEnd(s, '{', '}', pos, 1, false) == RawEnd(s, '{', '}', next, 1, false)
  }

  lemma {:induction false} MemberIsConsumed(s: string, pos: nat, q: nat, next: nat, item: Item, comma: bool)
    requires Reads(s, q, item, next) && Gap(s, pos, q, comma)
    ensures Consumed(s, pos, item, next)
  {
    if comma { SkipSpaces(s, pos + 1, q); } else { SkipSpaces(s, pos, q); }
    ScanSpaces(s, pos, q);
    MemberText(s, q, item);
  }

  lemma {:induction false} WiderGap(s: string, pos: nat, start: nat, q: nat)
    requires start <= q <= |s| && Gap(s, start, q, false) && Separates(s, pos, start)
    ensures Gap(s, pos, q, start != pos)
  {
  }

  /** Nothing, or a comma and a line break. */
  predicate Separates(s: string, pos: nat, start: nat) {
    start == pos || (start == pos + 2 && start <= |s| && s[pos] == ',' && s[pos + 1] == '\n')
  }

  /** The same for a member as it is written. */
  lemma {:induction false} WrittenIsConsumed(s: string, pos: nat, start: nat, next: nat, item: Item)
    requires At(s, start, ItemText(item)) && next == start + |ItemText(item)| && Separates(s, pos, start)
    ensures Consumed(s, pos, item, next)
  {
    MemberReads(s, start, next, item);
    WiderGap(s, pos, start, start + 4);
    MemberIsConsumed(s, pos, start + 4, next, item, start != pos);
  }

  lemma {:induction false} ClosedReads(s: string, pos: nat)
    requires Closes(s, pos)
    ensures ReadItems(s, pos) == [] && RawEnd(s, '{', '}', pos, 1, false) == pos + 4
  {
    SkipSpaces(s, pos, pos + 3);
    ScanSpaces(s, pos, pos + 3);
  }

  lemma {:induction false} SeparatorParts(s: string, pos: nat, rest: string)
    requires At(s, pos, Then(SEPARATOR, rest))
    ensures At(s, pos + 2, rest) && pos + 2 <= |s| && s[pos] == ',' && s[pos + 1] == '\n'
  {
    AtThen(s, pos, SEPARATOR, rest);
    AllAt(s, pos, SEPARATOR);
  }

  lemma {:induction false} FirstMember(s: string, pos: nat, text: string, rest: string) returns (next: nat)
    requires At(s, pos, Then(text, rest))
    ensures At(s, pos, text) && next == pos + |text| && At(s, next, rest)
  {
    AtThen(s, pos, text, rest);
    next := pos + |text|;
  }

  lemma {:induction false} LaterMember(s: string, pos: nat, text: string, rest: string) returns (start: nat, next: nat)
    requires At(s, pos, Then(SEPARATOR, Then(text, rest)))
    ensures Separates(s, pos, start) && start == pos + 2
    ensures At(s, start, text) && next == start + |text| && At(s, next, rest)
  {
    SeparatorParts(s, pos, Then(text, rest));
    start := pos + 2;
    next := FirstMember(s, start, text, rest);
  }

  /** Line `k` stands between its start and the start of the next, behind a separator unless it is the first. */
  ghost predicate LineAt(s: string, starts: seq<nat>, texts: seq<string>, k: nat)
    requires k < |texts| && k + 1 < |starts|
  {
    var start := if k > 0 then starts[k] + 2 else starts[k];
    Separates(s, starts[k], start) && At(s, start, texts[k]) && starts[k + 1] == start + |texts[k]|
  }

  ghost predicate LinesAt(s: string, starts: seq<nat>, texts: seq<string>) {
    0 < |starts| <= |texts| + 1 && forall k :: 0 <= k < |starts| - 1 ==> LineAt(s, starts, texts, k)
  }

  lemma {:induction false} OneMoreLine(s: string, starts: seq<nat>, texts: seq<string>, next: nat)
    requires LinesAt(s, starts, texts) && |starts| <= |texts| && LineAt(s, starts + [next], texts, |starts| - 1)
    ensures LinesAt(s, starts + [next], texts)
  {
    forall k | 0 <= k < |starts| ensures LineAt(s, starts + [next], texts, k) {
      if k < |starts| - 1 { assert LineAt(s, starts, texts, k); }
    }
  }

  /** Where the lines start when they stand at `pos`; the last entry is where they end. */
  lemma {:induction false} StartsOf(s: string, pos: nat, texts: seq<string>) returns (starts: seq<nat>)
    requires At(s, pos, Lines(texts, 0))
    ensures LinesAt(s, starts, texts) && |starts| == |texts| + 1
    ensures starts[0] == pos && starts[|texts|] == pos + |Lines(texts, 0)|
  {
    starts := [pos];
    var at := pos;
    for i := 0 to |texts|
      invariant |starts| == i + 1 && starts[0] == pos && starts[i] == at && LinesAt(s, starts, texts)
      invariant At(s, at, Lines(texts, i)) && at + |Lines(texts, i)| == pos + |Lines(texts, 0)|
    {
      var next;
      if i > 0 {
        var start;
        start, next := LaterMember(s, at, texts[i], Lines(texts, i + 1));
      } else {
        next := FirstMember(s, at, texts[i], Lines(texts, i + 1));
      }
      OneMoreLine(s, starts, texts, next);
      starts := starts + [next];
      at := next;
    }
  }

  lemma {:induction false} LineIsConsumed(s: string, starts: seq<nat>, items: seq<Item>, k: nat)
    requires k < |items| && k + 1 < |starts| && LineAt(s, starts, Texts(items), k)
    ensures Consumed(s, starts[k], items[k], starts[k + 1])
  {
    WrittenIsConsumed(s, starts[k], if k > 0 then starts[k] + 2 else starts[k], starts[k + 1], items[k]);
  }

  /** Reading gives back the members, and counting braces finds the brace behind them. */
  lemma {:induction false} MembersRead(s: string, starts: seq<nat>, items: seq<Item>, i: nat)
    requires |starts| == |items| + 1 && LinesAt(s, starts, Texts(items)) && i <= |items| && Closes(s, starts[|items|])
    ensures starts[i] <= |s| && ReadItems(s, starts[i]) == items[i..]
    ensures RawEnd(s, '{', '}', starts[i], 1, false) == starts[|items|] + 4
    decreases |items| - i
  {
    if i == |items| {
      ClosedReads(s, starts[i]);
    } else {
      MembersRead(s, starts, items, i + 1);
      LineIsConsumed(s, starts, items, i);
      DropOne(items, i);
    }
  }

  /** The object is closed here: a line break, two spaces and a brace. */
  predicate Closes(s: string, pos: nat) {
    pos + 4 <= |s| && s[pos] == '\n' && s[pos + 1] == ' ' && s[pos + 2] == ' ' && s[pos + 3] == '}'
  }

  // ---- finding the object ----

  lemma {:induction false} ScanSpaces(s: string, pos: nat, next: nat)
    requires pos <= next <= |s| && forall k :: pos <= k < next ==> Json.Plain(s[k], '{', '}')
    ensures RawEnd(s, '{', '}', pos, 1, false) == RawEnd(s, '{', '}', next, 1, false)
    decreases next - pos
  {
    if pos < next { ScanSpaces(s, pos + 1, next); }
  }

  const NEEDLE := "\"domains\""

  lemma {:induction false} NeedleIsQuoted()
    ensures Quoted("domains") == NEEDLE
  {
  }

  lemma {:induction false} AtSelf(s: string)
    ensures At(s, 0, s)
  {
    AtChars(s, 0, s);
  }

  /** What the reader needs to know about the head of the file. */
  ghost predicate HeadAt(s: string) {
    && |s| >= 33 && s[28] == '"' && s[29] == ':' && s[30] == ' ' && s[31] == '{' && s[32] == '\n'
    && At(s, 20, NEEDLE) && forall p :: 0 <= p < 20 ==> s[p] != '"' || s[p + 1] != 'd'
  }

  lemma {:induction false} HeadChars(s: string)
    requires At(s, 0, HEAD)
    ensures HeadAt(s)
  {
    AllAt(s, 0, HEAD);
    assert |HEAD| == 33;
    AtChars(s, 20, NEEDLE);
    forall p | 0 <= p < 20 ensures s[p] != '"' || s[p + 1] != 'd' {
      AtChar(s, 0, HEAD, p);
      if s[p] == '"' {
        HeadQuotes(p);
        HeadTells();
        AtChar(s, 0, HEAD, p + 1);
      }
    }
  }

  lemma {:induction false} HeadTells()
    ensures |HEAD| == 33 && HEAD[5] == 'v' && HEAD[13] == ':'
  {
  }

  lemma {:induction false} HeadQuotes(p: nat)
    requires p < 20 && HEAD[p] == '"'
    ensures p == 4 || p == 12
  {
  }

  lemma {:induction false} NeedleFound(s: string, p: nat)
    requires HeadAt(s) && p <= 20
    ensures Find(s, NEEDLE, p) == 20
    decreases 20 - p
  {
    if p < 20 {
      NotHere(s, p);
      NeedleFound(s, p + 1);
    }
  }

  lemma {:induction false} NotHere(s: string, p: nat)
    requires p + 1 < |s| && (s[p] != '"' || s[p + 1] != 'd')
    ensures !At(s, p, NEEDLE)
  {
    if At(s, p, NEEDLE) { NeedleStarts(s, p); }
  }

  lemma {:induction false} NeedleStarts(s: string, p: nat)
    requires At(s, p, NEEDLE)
    ensures p + 1 < |s| && s[p] == '"' && s[p + 1] == 'd'
  {
    AtChar(s, p, NEEDLE, 0);
    AtChar(s, p, NEEDLE, 1);
  }

  lemma {:induction false} ObjectFound(s: string)
    requires HeadAt(s)
    ensures ValueAt(s, Quoted("domains"), 0) == Position(31)
  {
    NeedleIsQuoted();
    NeedleFound(s, 0);
    SkipSpaces(s, 29, 29);
    SkipSpaces(s, 30, 31);
  }

  lemma {:induction false} TailCloses(s: string, pos: nat)
    requires At(s, pos, TAIL)
    ensures Closes(s, pos)
  {
    AllAt(s, pos, TAIL);
  }

  lemma {:induction false} PartsOf(s: string, lines: string)
    requires At(s, 0, Then(HEAD, Then(lines, TAIL)))
    ensures HeadAt(s) && At(s, 33, lines) && Closes(s, 33 + |lines|)
  {
    AtThen(s, 0, HEAD, Then(lines, TAIL));
    AtThen(s, 33, lines, TAIL);
    HeadChars(s);
    TailCloses(s, 33 + |lines|);
  }

  /** The members that stand at `pos` and are closed there are read, and the scanner finds their end. */
  lemma {:induction false} LinesRead(s: string, pos: nat, items: seq<Item>)
    requires At(s, pos, Lines(Texts(items), 0)) && Closes(s, pos + |Lines(Texts(items), 0)|)
    ensures pos <= |s| && ReadItems(s, pos) == items
    ensures RawEnd(s, '{', '}', pos, 1, false) == pos + |Lines(Texts(items), 0)| + 4
  {
    var starts := StartsOf(s, pos, Texts(items));
    MembersRead(s, starts, items, 0);
    assert items[0..] == items;
  }

  /** A part of a text says what the text says there. */
  lemma {:induction false} AtInside(s: string, from: nat, end: nat, pos: nat, p: string)
    requires from <= pos && pos + |p| <= end <= |s| && At(s, pos, p)
    ensures At(s[from..end], pos - from, p)
  {
    AllAt(s, pos, p);
    AtChars(s[from..end], pos - from, p);
  }

  lemma {:induction false} SkipOneSpace(s: string, pos: nat)
    requires pos < |s| && IsSpace(s[pos])
    ensures ReadItems(s, pos) == ReadItems(s, pos + 1)
  {
  }

  lemma {:induction false} ObjectCut(s: string, end: nat)
    requires HeadAt(s) && 37 <= end <= |s| && RawEnd(s, '{', '}', 33, 1, false) == end
    ensures Raw(s, "domains") == s[31..end]
  {
    ObjectFound(s);
    assert RawEnd(s, '{', '}', 31, 0, false) == RawEnd(s, '{', '}', 32, 1, false);
    assert RawEnd(s, '{', '}', 32, 1, false) == RawEnd(s, '{', '}', 33, 1, false);
  }

  lemma {:induction false} CutReads(v: string, items: seq<Item>)
    requires |v| > 2 && v[1] == '\n' && At(v, 2, Lines(Texts(items), 0)) && Closes(v, 2 + |Lines(Texts(items), 0)|)
    ensures ReadItems(v, 1) == items
  {
    LinesRead(v, 2, items);
    SkipOneSpace(v, 1);
  }

  /** The object cut out of the file has the lines at its beginning. */
  lemma {:induction false} CutHolds(s: string, lines: string)
    requires HeadAt(s) && At(s, 33, lines) && Closes(s, 33 + |lines|)
    ensures var v := s[31..37 + |lines|];
      |v| > 2 && v[0] == '{' && v[1] == '\n' && At(v, 2, lines) && Closes(v, 2 + |lines|)
  {
    AtInside(s, 31, 37 + |lines|, 33, lines);
    CutCloses(s, |lines|);
  }

  lemma {:induction false} CutCloses(s: string, n: nat)
    requires Closes(s, 33 + n)
    ensures Closes(s[31..37 + n], 2 + n)
  {
  }

  /** The text holds the object, and the object's members are these. */
  ghost predicate ReadsAs(s: string, items: seq<Item>) {
    var v := Raw(s, "domains");
    |v| > 1 && v[0] == '{' && ReadItems(v, 1) == items
  }

  /** Counting braces from behind the head finds the end of the object. */
  lemma {:induction false} ScanFindsEnd(s: string, items: seq<Item>, n: nat)
    requires n == |Lines(Texts(items), 0)| && At(s, 33, Lines(Texts(items), 0)) && Closes(s, 33 + n)
    ensures 37 + n <= |s| && RawEnd(s, '{', '}', 33, 1, false) == 37 + n
  {
    LinesRead(s, 33, items);
  }

  /** What is cut out there reads as the members. */
  lemma {:induction false} CutGivesMembers(s: string, items: seq<Item>, n: nat)
    requires HeadAt(s) && n == |Lines(Texts(items), 0)| && At(s, 33, Lines(Texts(items), 0)) && Closes(s, 33 + n)
    ensures var v := s[31..37 + n]; |v| > 2 && v[0] == '{' && ReadItems(v, 1) == items
  {
    CutHolds(s, Lines(Texts(items), 0));
    CutReads(s[31..37 + n], items);
  }

  lemma {:induction false} CutIsRaw(s: string, items: seq<Item>, n: nat)
    requires HeadAt(s) && 37 + n <= |s| && RawEnd(s, '{', '}', 33, 1, false) == 37 + n
    requires var v := s[31..37 + n]; |v| > 2 && v[0] == '{' && ReadItems(v, 1) == items
    ensures ReadsAs(s, items)
  {
    ObjectCut(s, 37 + n);
  }

  lemma {:induction false} PlacedFileReads(s: string, items: seq<Item>, n: nat)
    requires HeadAt(s) && n == |Lines(Texts(items), 0)| && At(s, 33, Lines(Texts(items), 0)) && Closes(s, 33 + n)
    ensures ReadsAs(s, items)
  {
    ScanFindsEnd(s, items, n);
    CutGivesMembers(s, items, n);
    CutIsRaw(s, items, n);
  }

  lemma {:induction false} WrittenFileReads(s: string, items: seq<Item>)
    requires At(s, 0, Then(HEAD, Then(Lines(Texts(items), 0), TAIL)))
    ensures ReadsAs(s, items)
  {
    PartsOf(s, Lines(Texts(items), 0));
    PlacedFileReads(s, items, |Lines(Texts(items), 0)|);
  }

  /** Reading the file gives back exactly the members that were written. */
  lemma {:induction false} FileRoundTrip(items: seq<Item>)
    ensures ReadsAs(FileText(items), items)
  {
    AtSelf(FileText(items));
    WrittenFileReads(FileText(items), items);
  }
}
