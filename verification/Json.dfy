/**
  The JSON helpers: writing a string literal, reading one, finding a key and cutting out its value
  by counting braces outside of strings.

  Main results: reading what was escaped gives back the text, whatever its characters; and scanning for
  braces passes over an escaped literal without noticing what is inside.
 */
module Json {
  import opened Collections

  predicate IsSpace(c: char) {
    c == ' ' || c == '\t' || c == '\n' || c == '\r'
  }

  function SkipWs(s: string, pos: nat): (next: nat)
    ensures pos <= next && (next < |s| ==> !IsSpace(s[next])) && (pos <= |s| ==> next <= |s|)
    decreases |s| - pos
  {
    if pos < |s| && IsSpace(s[pos]) then SkipWs(s, pos + 1) else pos
  }

  // ---- text at a position ----

  /** `p` stands in `s` at `pos`. */
  predicate At(s: string, pos: nat, p: string) {
    pos + |p| <= |s| && SameFrom(s, pos, p, 0)
  }

  /** From its character `k` on, `p` agrees with `s` at `pos`. */
  predicate SameFrom(s: string, pos: nat, p: string, k: nat)
    requires k <= |p| && pos + |p| <= |s|
    decreases |p| - k
  {
    k == |p| || (s[pos + k] == p[k] && SameFrom(s, pos, p, k + 1))
  }

  lemma {:induction false} SameFromChar(s: string, pos: nat, p: string, from: nat, k: nat)
    requires from <= k < |p| && pos + |p| <= |s| && SameFrom(s, pos, p, from)
    ensures s[pos + k] == p[k]
    decreases k - from
  {
    if from < k { SameFromChar(s, pos, p, from + 1, k); }
  }

  lemma {:induction false} SameFromChars(s: string, pos: nat, p: string, k: nat)
    requires k <= |p| && pos + |p| <= |s| && forall i :: k <= i < |p| ==> s[pos + i] == p[i]
    ensures SameFrom(s, pos, p, k)
    decreases |p| - k
  {
    if k < |p| { SameFromChars(s, pos, p, k + 1); }
  }

  lemma {:induction false} AtChar(s: string, pos: nat, p: string, k: nat)
    requires At(s, pos, p) && k < |p|
    ensures pos + k < |s| && s[pos + k] == p[k]
  {
    SameFromChar(s, pos, p, 0, k);
  }

  lemma {:induction false} AtChars(s: string, pos: nat, p: string)
    requires pos + |p| <= |s| && forall i :: 0 <= i < |p| ==> s[pos + i] == p[i]
    ensures At(s, pos, p)
  {
    SameFromChars(s, pos, p, 0);
  }

  lemma {:induction false} AtSplit(s: string, pos: nat, a: string, b: string)
    requires At(s, pos, a + b)
    ensures At(s, pos, a) && At(s, pos + |a|, b)
  {
    forall i | 0 <= i < |a| ensures s[pos + i] == a[i] { AtChar(s, pos, a + b, i); }
    AtChars(s, pos, a);
    forall i | 0 <= i < |b| ensures s[pos + |a| + i] == b[i] { AtChar(s, pos, a + b, |a| + i); }
    AtChars(s, pos + |a|, b);
  }

  // ---- writing a literal ----

  function HexDigit(v: nat): char
    requires v < 16
  {
    if v < 10 then ('0' as int + v) as char else ('a' as int + v - 10) as char
  }

  function EscapeChar(c: char): (e: string)
    ensures |e| > 0
  {
    if c == '"' then "\\\""
    else if c == '\\' then "\\\\"
    else if c == '\n' then "\\n"
    else if c == '\r' then "\\r"
    else if c == '\t' then "\\t"
    else if c as int < 0x20 then ['\\', 'u', '0', '0', HexDigit(c as int / 16), HexDigit(c as int % 16)]
    else [c]
  }

  /** The escaped text from character `i` on. */
  function Escaped(t: string, i: nat): (e: string)
    requires i <= |t|
    decreases |t| - i
  {
    if i == |t| then "" else EscapeChar(t[i]) + Escaped(t, i + 1)
  }

  method Escape(t: string) returns (out: string)
    ensures out == Escaped(t, 0)
  {
    out := "";
    ghost var all := Escaped(t, 0);
    for i := 0 to |t|
      invariant all == out + Escaped(t, i)
    {
      EscapeStep(out, t, i);
      out := out + EscapeChar(t[i]);
    }
  }

  lemma {:induction false} EscapeStep(out: string, t: string, i: nat)
    requires i < |t|
    ensures out + Escaped(t, i) == (out + EscapeChar(t[i])) + Escaped(t, i + 1)
  {
  }

  // ---- reading a literal ----

  predicate IsHex(c: char) {
    '0' <= c <= '9' || 'a' <= c <= 'f' || 'A' <= c <= 'F'
  }

  function HexValue(c: char): (v: nat)
    requires IsHex(c)
    ensures v < 16
  {
    if c <= '9' then c as int - '0' as int
    else if c <= 'F' then c as int - 'A' as int + 10
    else c as int - 'a' as int + 10
  }

  /** Where the hex digits at `pos` end, at most `left` of them. */
  function HexEnd(s: string, pos: nat, left: nat): (end: nat)
    ensures pos <= end <= pos + left && (pos <= |s| ==> end <= |s|)
    decreases left
  {
    if left > 0 && pos < |s| && IsHex(s[pos]) then HexEnd(s, pos + 1, left - 1) else pos
  }

  function HexCode(s: string, pos: nat, left: nat, code: nat): nat
    decreases left
  {
    if left > 0 && pos < |s| && IsHex(s[pos]) then HexCode(s, pos + 1, left - 1, code * 16 + HexValue(s[pos])) else code
  }

  /** Where the character or escape sequence at `pos` ends. */
  function UnitEnd(s: string, pos: nat): (end: nat)
    requires pos < |s|
    ensures pos < end <= |s|
  {
    if s[pos] != '\\' || pos + 1 == |s| then pos + 1
    else if s[pos + 1] == 'u' then HexEnd(s, pos + 2, 4)
    else pos + 2
  }

  /** What it stands for. */
  function UnitText(s: string, pos: nat): (t: string)
    requires pos < |s|
  {
    if s[pos] != '\\' then [s[pos]]
    else if pos + 1 == |s| then ""
    else
      var c := s[pos + 1];
      if c == 'n' then "\n"
      else if c == 't' then "\t"
      else if c == 'r' then "\r"
      else if c == 'b' then [8 as char]
      else if c == 'f' then [12 as char]
      else if c == 'u' then
        var code := HexCode(s, pos + 2, 4, 0);
        if HexEnd(s, pos + 2, 4) == pos + 6 && code < 0x80 then [code as char] else "?"
      else [c]
  }

  /** The position of the quote that closes the literal whose text starts at `pos`, or the end. */
  function StringEnd(s: string, pos: nat): (end: nat)
    requires pos <= |s|
    ensures pos <= end <= |s| && (end < |s| ==> s[end] == '"')
    decreases |s| - pos
  {
    if pos == |s| || s[pos] == '"' then pos else StringEnd(s, UnitEnd(s, pos))
  }

  function StringText(s: string, pos: nat): (t: string)
    requires pos <= |s|
    decreases |s| - pos
  {
    if pos == |s| || s[pos] == '"' then "" else UnitText(s, pos) + StringText(s, UnitEnd(s, pos))
  }

  method ScanHex(s: string, start: nat) returns (end: nat, code: nat)
    requires start <= |s|
    ensures end == HexEnd(s, start, 4) && code == HexCode(s, start, 4, 0)
  {
    var digits := 0;
    end, code := start, 0;
    while digits < 4 && end < |s| && IsHex(s[end])
      invariant 0 <= digits <= 4 && end <= |s|
      invariant HexEnd(s, start, 4) == HexEnd(s, end, 4 - digits)
      invariant HexCode(s, start, 4, 0) == HexCode(s, end, 4 - digits, code)
    {
      code := code * 16 + HexValue(s[end]);
      end := end + 1;
      digits := digits + 1;
    }
  }

  /** The literal at `start`, which must point at a quote; `end` is just past the closing one. */
  method ParseString(s: string, start: nat) returns (out: string, end: nat)
    ensures start >= |s| || s[start] != '"' ==> out == "" && end == start
    ensures start < |s| && s[start] == '"' ==>
      && out == StringText(s, start + 1)
      && end == (if StringEnd(s, start + 1) < |s| then StringEnd(s, start + 1) + 1 else |s|)
  {
    out := "";
    if start >= |s| || s[start] != '"' { return out, start; }
    var pos: nat := start + 1;
    ghost var all := StringText(s, pos);
    while pos < |s| && s[pos] != '"'
      invariant start < pos <= |s|
      invariant StringEnd(s, start + 1) == StringEnd(s, pos)
      invariant all == out + StringText(s, pos)
    {
      AppendAssoc(out, UnitText(s, pos), StringText(s, UnitEnd(s, pos)));
      var unit, next := ReadUnit(s, pos);
      out, pos := out + unit, next;
    }
    assert out + "" == out;
    end := if pos < |s| then pos + 1 else |s|;
  }

  /** One turn of the reader: a plain character, or a backslash and what it escapes. */
  method ReadUnit(s: string, start: nat) returns (unit: string, pos: nat)
    requires start < |s|
    ensures unit == UnitText(s, start) && pos == UnitEnd(s, start)
  {
    pos := start;
    if s[pos] != '\\' { return [s[pos]], pos + 1; }
    pos := pos + 1;
    if pos >= |s| { return "", pos; }
    var c := s[pos];
    pos := pos + 1;
    if c == 'n' { unit := "\n"; }
    else if c == 't' { unit := "\t"; }
    else if c == 'r' { unit := "\r"; }
    else if c == 'b' { unit := [8 as char]; }
    else if c == 'f' { unit := [12 as char]; }
    else if c == 'u' {
      var end, code := ScanHex(s, pos);
      unit := if end == pos + 4 && code < 0x80 then [code as char] else "?";
      pos := end;
    } else { unit := [c]; }
  }

  // ---- reading what was written ----

  lemma {:induction false} HexOfDigit(v: nat)
    requires v < 16
    ensures IsHex(HexDigit(v)) && HexValue(HexDigit(v)) == v && HexDigit(v) != '"' && HexDigit(v) != '\\'
  {
  }

  lemma {:induction false} FourHex(s: string, pos: nat, a: nat, b: nat)
    requires pos + 4 <= |s| && a < 16 && b < 16
    requires s[pos] == '0' && s[pos + 1] == '0' && s[pos + 2] == HexDigit(a) && s[pos + 3] == HexDigit(b)
    ensures HexEnd(s, pos, 4) == pos + 4 && HexCode(s, pos, 4, 0) == a * 16 + b
  {
    HexOfDigit(a);
    HexOfDigit(b);
    assert HexEnd(s, pos + 4, 0) == pos + 4 && HexCode(s, pos + 4, 0, a * 16 + b) == a * 16 + b;
    assert HexEnd(s, pos + 3, 1) == pos + 4 && HexCode(s, pos + 3, 1, a) == a * 16 + b;
    assert HexEnd(s, pos + 2, 2) == pos + 4 && HexCode(s, pos + 2, 2, 0) == a * 16 + b;
    assert HexEnd(s, pos + 1, 3) == pos + 4 && HexCode(s, pos + 1, 3, 0) == a * 16 + b;
  }

  lemma {:induction false} ControlReads(s: string, pos: nat, c: char)
    requires c as int < 0x20 && pos + 6 <= |s| && s[pos] == '\\' && s[pos + 1] == 'u'
    requires s[pos + 2] == '0' && s[pos + 3] == '0' && s[pos + 4] == HexDigit(c as int / 16)
    requires s[pos + 5] == HexDigit(c as int % 16)
    ensures UnitEnd(s, pos) == pos + 6 && UnitText(s, pos) == [c]
  {
    FourHex(s, pos + 2, c as int / 16, c as int % 16);
  }

  /** One escaped character reads back as itself. */
  lemma {:induction false} CharReads(s: string, pos: nat, c: char)
    requires At(s, pos, EscapeChar(c))
    ensures pos < |s| && s[pos] != '"' && UnitEnd(s, pos) == pos + |EscapeChar(c)| && UnitText(s, pos) == [c]
  {
    var e := EscapeChar(c);
    AtChar(s, pos, e, 0);
    if |e| == 2 {
      AtChar(s, pos, e, 1);
    } else if |e| == 6 {
      AtChar(s, pos, e, 1);
      AtChar(s, pos, e, 2);
      AtChar(s, pos, e, 3);
      AtChar(s, pos, e, 4);
      AtChar(s, pos, e, 5);
      ControlReads(s, pos, c);
    }
  }

  lemma {:induction false} EscapedEnds(s: string, pos: nat, t: string, i: nat)
    requires i <= |t| && At(s, pos, Escaped(t, i))
    requires pos + |Escaped(t, i)| < |s| && s[pos + |Escaped(t, i)|] == '"'
    ensures StringEnd(s, pos) == pos + |Escaped(t, i)|
    decreases |t| - i
  {
    if i < |t| {
      AtSplit(s, pos, EscapeChar(t[i]), Escaped(t, i + 1));
      CharReads(s, pos, t[i]);
      EscapedEnds(s, pos + |EscapeChar(t[i])|, t, i + 1);
    }
  }

  /** The literal from `pos` on spells `t` from character `i` on, one unit per character. */
  predicate Spells(s: string, pos: nat, t: string, i: nat)
    requires pos <= |s| && i <= |t|
    decreases |s| - pos
  {
    if pos == |s| || s[pos] == '"' then i == |t|
    else i < |t| && UnitText(s, pos) == [t[i]] && Spells(s, UnitEnd(s, pos), t, i + 1)
  }

  lemma {:induction false} SpelledText(s: string, pos: nat, t: string, i: nat)
    requires pos <= |s| && i <= |t| && Spells(s, pos, t, i)
    ensures StringText(s, pos) == t[i..]
    decreases |s| - pos
  {
    if pos < |s| && s[pos] != '"' {
      SpelledText(s, UnitEnd(s, pos), t, i + 1);
      DropOne(t, i);
    }
  }

  /** Reading an escaped text up to its quote gives back the text, for every text. */
  lemma {:induction false} EscapedReads(s: string, pos: nat, t: string, i: nat)
    requires i <= |t| && At(s, pos, Escaped(t, i))
    requires pos + |Escaped(t, i)| < |s| && s[pos + |Escaped(t, i)|] == '"'
    ensures Spells(s, pos, t, i)
    decreases |t| - i
  {
    if i < |t| {
      var next := pos + |EscapeChar(t[i])|;
      AtSplit(s, pos, EscapeChar(t[i]), Escaped(t, i + 1));
      CharReads(s, pos, t[i]);
      EscapedReads(s, next, t, i + 1);
    }
  }

  /** The round trip: a written literal, read from behind its opening quote, is the text again. */
  lemma {:induction false} LiteralRoundTrip(t: string, before: string, after: string)
    ensures var s := before + (Escaped(t, 0) + ("\"" + after));
      StringText(s, |before|) == t && StringEnd(s, |before|) == |before| + |Escaped(t, 0)|
  {
    var e := Escaped(t, 0);
    var s := before + (e + ("\"" + after));
    assert s[|before| + |e|] == '"';
    AtChars(s, |before|, e);
    EscapedEnds(s, |before|, t, 0);
    EscapedReads(s, |before|, t, 0);
    SpelledText(s, |before|, t, 0);
    assert t[0..] == t;
  }

  // ---- the brace scanner ----

  /** One past the bracket that closes the value, scanning from `pos`; the end of the text if none does. */
  function RawEnd(s: string, open: char, close: char, pos: nat, depth: int, inString: bool): (end: nat)
    ensures end <= |s|
    decreases |s| - pos
  {
    if pos >= |s| then |s|
    else
      var c := s[pos];
      if inString then
        if c == '\\' then RawEnd(s, open, close, pos + 2, depth, true)
        else RawEnd(s, open, close, pos + 1, depth, c != '"')
      else if c == '"' then RawEnd(s, open, close, pos + 1, depth, true)
      else if c == open then RawEnd(s, open, close, pos + 1, depth + 1, false)
      else if c == close then if depth == 1 then pos + 1 else RawEnd(s, open, close, pos + 1, depth - 1, false)
      else RawEnd(s, open, close, pos + 1, depth, false)
  }

  predicate Plain(c: char, open: char, close: char) {
    c != '"' && c != open && c != close
  }

  /** Text outside of strings that is no bracket is passed over. */
  lemma {:induction false} ScanPlain(s: string, open: char, close: char, pos: nat, p: string, i: nat, depth: int)
    requires i <= |p| && At(s, pos, p) && forall k :: 0 <= k < |p| ==> Plain(p[k], open, close)
    ensures RawEnd(s, open, close, pos + i, depth, false) == RawEnd(s, open, close, pos + |p|, depth, false)
    decreases |p| - i
  {
    if i < |p| {
      AtChar(s, pos, p, i);
      ScanPlain(s, open, close, pos, p, i + 1, depth);
    }
  }

  /** One escaped character is passed over inside a string. */
  lemma {:induction false} ScanChar(s: string, open: char, close: char, pos: nat, c: char, depth: int)
    requires At(s, pos, EscapeChar(c))
    ensures RawEnd(s, open, close, pos, depth, true) == RawEnd(s, open, close, pos + |EscapeChar(c)|, depth, true)
  {
    var e := EscapeChar(c);
    AtChar(s, pos, e, 0);
    if |e| == 6 {
      AtChar(s, pos, e, 2);
      AtChar(s, pos, e, 3);
      AtChar(s, pos, e, 4);
      AtChar(s, pos, e, 5);
      HexOfDigit(c as int / 16);
      HexOfDigit(c as int % 16);
      ScanFour(s, open, close, pos + 2, depth);
    }
  }

  lemma {:induction false} ScanFour(s: string, open: char, close: char, pos: nat, depth: int)
    requires pos + 4 <= |s| && forall k :: pos <= k < pos + 4 ==> s[k] != '"' && s[k] != '\\'
    ensures RawEnd(s, open, close, pos, depth, true) == RawEnd(s, open, close, pos + 4, depth, true)
  {
    assert RawEnd(s, open, close, pos, depth, true) == RawEnd(s, open, close, pos + 1, depth, true);
    assert RawEnd(s, open, close, pos + 1, depth, true) == RawEnd(s, open, close, pos + 2, depth, true);
    assert RawEnd(s, open, close, pos + 2, depth, true) == RawEnd(s, open, close, pos + 3, depth, true);
  }

  /** A whole escaped literal is passed over, whatever its text holds. */
  lemma {:induction false} ScanEscaped(s: string, open: char, close: char, pos: nat, t: string, i: nat, depth: int)
    requires i <= |t| && At(s, pos, Escaped(t, i))
    requires pos + |Escaped(t, i)| < |s| && s[pos + |Escaped(t, i)|] == '"'
    ensures RawEnd(s, open, close, pos, depth, true) == RawEnd(s, open, close, pos + |Escaped(t, i)| + 1, depth, false)
    decreases |t| - i
  {
    if i < |t| {
      var e := EscapeChar(t[i]);
      AtSplit(s, pos, e, Escaped(t, i + 1));
      ScanChar(s, open, close, pos, t[i], depth);
      ScanEscaped(s, open, close, pos + |e|, t, i + 1, depth);
    }
  }

  method ScanRaw(s: string, open: char, close: char, start: nat) returns (end: nat)
    requires start <= |s|
    ensures end == RawEnd(s, open, close, start, 0, false)
  {
    var pos: nat, depth, inString := start, 0, false;
    while pos < |s|
      invariant RawEnd(s, open, close, start, 0, false) == RawEnd(s, open, close, pos, depth, inString)
      decreases |s| - pos
    {
      var c := s[pos];
      if inString {
        if c == '\\' { pos := pos + 1; }
        else if c == '"' { inString := false; }
      } else if c == '"' {
        inString := true;
      } else if c == open {
        depth := depth + 1;
      } else if c == close {
        depth := depth - 1;
        if depth == 0 { return pos + 1; }
      }
      pos := pos + 1;
    }
    return |s|;
  }

  // ---- finding a key ----

  /** The first place from `pos` on where `needle` stands; the length of the text if there is none. */
  function Find(s: string, needle: string, pos: nat): (at: nat)
    requires pos <= |s|
    ensures pos <= at <= |s|
    decreases |s| - pos
  {
    if pos == |s| || At(s, pos, needle) then pos else Find(s, needle, pos + 1)
  }

  datatype Position = NotFound | Position(at: nat)

  function Quoted(key: string): string {
    "\"" + key + "\""
  }

  /** Just after the colon behind the first `needle` that has one. */
  function ValueAt(s: string, needle: string, pos: nat): (at: Position)
    requires pos <= |s|
    ensures at.Position? ==> at.at <= |s|
    decreases |s| - pos
  {
    var found := Find(s, needle, pos);
    if found == |s| then NotFound
    else
      var colon := SkipWs(s, found + |needle|);
      if colon < |s| && s[colon] == ':' then Position(SkipWs(s, colon + 1))
      else ValueAt(s, needle, found + 1)
  }

  method FindValue(s: string, needle: string) returns (at: Position)
    ensures at == ValueAt(s, needle, 0)
  {
    var pos: nat := Find(s, needle, 0);
    ghost var from: nat := 0;
    ghost var target := ValueAt(s, needle, 0);
    while pos < |s|
      invariant from <= pos <= |s| && pos == Find(s, needle, from)
      invariant target == ValueAt(s, needle, from)
      decreases |s| - pos
    {
      var colon := SkipWs(s, pos + |needle|);
      if colon < |s| && s[colon] == ':' { return Position(SkipWs(s, colon + 1)); }
      from := pos + 1;
      pos := Find(s, needle, pos + 1);
    }
    return NotFound;
  }

  /** The raw value of `key`, with balanced brackets when it starts with one; empty if there is no such key. */
  function Raw(s: string, key: string): (value: string) {
    var found := ValueAt(s, Quoted(key), 0);
    if found.NotFound? || found.at == |s| then ""
    else if s[found.at] != '{' && s[found.at] != '[' then s[found.at..]
    else
      var end := RawEnd(s, s[found.at], if s[found.at] == '{' then '}' else ']', found.at, 0, false);
      if found.at <= end then s[found.at..end] else ""
  }

  lemma {:induction false} RawEndIsLater(s: string, open: char, close: char, pos: nat, depth: int, inString: bool)
    requires pos <= |s|
    ensures RawEnd(s, open, close, pos, depth, inString) >= pos
    decreases |s| - pos
  {
    if pos < |s| {
      var c := s[pos];
      if inString {
        if c == '\\' { if pos + 2 <= |s| { RawEndIsLater(s, open, close, pos + 2, depth, true); } }
        else { RawEndIsLater(s, open, close, pos + 1, depth, c != '"'); }
      } else if c == '"' { RawEndIsLater(s, open, close, pos + 1, depth, true); }
      else if c == open { RawEndIsLater(s, open, close, pos + 1, depth + 1, false); }
      else if c == close { if depth != 1 { RawEndIsLater(s, open, close, pos + 1, depth - 1, false); } }
      else { RawEndIsLater(s, open, close, pos + 1, depth, false); }
    }
  }

  method GetRaw(s: string, key: string) returns (value: string)
    ensures value == Raw(s, key)
  {
    var found := FindValue(s, Quoted(key));
    if found.NotFound? || found.at >= |s| { return ""; }
    var open := s[found.at];
    if open != '{' && open != '[' { return s[found.at..]; }
    var close := if open == '{' then '}' else ']';
    var end := ScanRaw(s, open, close, found.at);
    RawEndIsLater(s, open, close, found.at, 0, false);
    return s[found.at..end];
  }
}
