/**
  The values of the file of learned winners, and the loader: six fields joined by semicolons, the members
  of the file read one by one, judged by the loading clock and taken while the tables have room.

  Main results: splitting what was joined gives back the fields; a written winner, under any key that has
  a network part, decodes to that winner as the loading clock judges it; and the loops of the loader
  compute the tables of exactly the members that the layout's reader finds.
 */
module StoreFile {
  import opened Collections
  import opened Basics
  import opened Diagnosis
  import opened Learning
  import opened StoreLayout
  import opened Json
  import Text
  import Profiles = RecordSplits

  const UINT64 := 0x1_0000_0000_0000_0000

  // ---- fields ----

  /** The place of the first `;` from `i` on, or the end. */
  function FirstSemicolon(s: string, i: nat): (at: nat)
    requires i <= |s|
    ensures i <= at <= |s| && (at < |s| ==> s[at] == ';')
    decreases |s| - i
  {
    if i == |s| || s[i] == ';' then i else FirstSemicolon(s, i + 1)
  }

  function Split(s: string): (fields: seq<string>)
    ensures |fields| >= 1
    decreases |s|
  {
    var end := FirstSemicolon(s, 0);
    if end == |s| then [s] else [s[..end]] + Split(s[end + 1..])
  }

  function Join(fields: seq<string>): string
    requires |fields| >= 1
  {
    if |fields| == 1 then fields[0] else fields[0] + ";" + Join(fields[1..])
  }

  predicate Whole(field: string) {
    ';' !in field
  }

  lemma {:induction false} SemicolonBehind(s: string, field: string, i: nat)
    requires Whole(field) && i <= |field| <= |s| && field == s[..|field|] && (|field| == |s| || s[|field|] == ';')
    ensures FirstSemicolon(s, i) == |field|
    decreases |field| - i
  {
    if i < |field| {
      assert s[i] == field[i] && field[i] in field;
      SemicolonBehind(s, field, i + 1);
    }
  }

  lemma {:induction false} SplitFirst(field: string, rest: string)
    requires Whole(field)
    ensures Split(field + ";" + rest) == [field] + Split(rest)
  {
    var s := field + ";" + rest;
    assert s[..|field|] == field && s[|field| + 1..] == rest;
    SemicolonBehind(s, field, 0);
  }

  lemma {:induction false} SplitOnly(field: string)
    requires Whole(field)
    ensures Split(field) == [field]
  {
    assert field[..|field|] == field;
    SemicolonBehind(field, field, 0);
  }

  /** Splitting what was joined gives back the fields. */
  lemma {:induction false} SplitOfJoin(fields: seq<string>)
    requires |fields| >= 1 && forall f :: f in fields ==> Whole(f)
    ensures Split(Join(fields)) == fields
  {
    if |fields| == 1 {
      SplitOnly(fields[0]);
    } else {
      SplitOfJoin(fields[1..]);
      SplitFirst(fields[0], Join(fields[1..]));
    }
  }

  method SplitFields(s: string) returns (fields: seq<string>)
    ensures fields == Split(s)
  {
    fields := [];
    var start := 0;
    ghost var all := Split(s);
    assert s[0..] == s;
    while true
      invariant 0 <= start <= |s|
      invariant all == fields + Split(s[start..])
      decreases |s| - start
    {
      var end := FirstSemicolon(s, start);
      SplitAt(s, start);
      if end == |s| { return fields + [s[start..end]]; }
      AppendAssoc(fields, [s[start..end]], Split(s[end + 1..]));
      fields := fields + [s[start..end]];
      start := end + 1;
    }
  }

  lemma {:induction false} SemicolonOfTail(s: string, start: nat, i: nat)
    requires start <= i <= |s|
    ensures FirstSemicolon(s[start..], i - start) == FirstSemicolon(s, i) - start
    decreases |s| - i
  {
    if i < |s| && s[i] != ';' { SemicolonOfTail(s, start, i + 1); }
  }

  lemma {:induction false} SplitAt(s: string, start: nat)
    requires start <= |s|
    ensures var end := FirstSemicolon(s, start);
      Split(s[start..]) == if end == |s| then [s[start..end]] else [s[start..end]] + Split(s[end + 1..])
  {
    var end := FirstSemicolon(s, start);
    SemicolonOfTail(s, start, start);
    var tail := s[start..];
    if end == |s| {
      assert s[start..end] == tail;
    } else {
      assert tail[..end - start] == s[start..end] && tail[end - start + 1..] == s[end + 1..];
    }
  }

  // ---- kinds ----

  function KindName(kind: Kind): string {
    match kind
    case Unknown => "unknown"
    case NoInterference => "no-interference"
    case SniInterferenceLikely => "sni-interference-likely"
    case TlsIncompatible => "tls-incompatible"
    case TransportFailure => "transport-failure"
    case ThrottlingSuspected => "throttling-suspected"
    case LearnedProfile => "learned-profile"
    case TransientFailure => "transient-failure"
    case InterferenceSuspected => "interference-suspected"
  }

  const KINDS: seq<Kind> := [
    Unknown, NoInterference, SniInterferenceLikely, TlsIncompatible, TransportFailure, ThrottlingSuspected,
    LearnedProfile, TransientFailure, InterferenceSuspected]

  function KindIn(kinds: seq<Kind>, text: string, i: nat): Kind
    requires i <= |kinds|
    decreases |kinds| - i
  {
    if i == |kinds| then Unknown else if text == KindName(kinds[i]) then kinds[i] else KindIn(kinds, text, i + 1)
  }

  function ParseKind(text: string): Kind {
    KindIn(KINDS, text, 0)
  }

  /** Tells the names apart: their length, and one character where two have the same. */
  function KindCode(name: string): int {
    |name| * 256 + (if |name| > 5 then (if |name| == 17 then name[5] else name[0]) as int else 0)
  }

  lemma {:induction false} KindNamesDiffer(a: Kind, b: Kind)
    requires KindName(a) == KindName(b)
    ensures a == b
  {
    assert KindCode(KindName(a)) == KindCode(KindName(b));
  }

  lemma {:induction false} KindFound(kinds: seq<Kind>, kind: Kind, i: nat)
    requires i <= |kinds| && kind in kinds[i..]
    ensures KindIn(kinds, KindName(kind), i) == kind
    decreases |kinds| - i
  {
    if KindName(kind) == KindName(kinds[i]) {
      KindNamesDiffer(kind, kinds[i]);
    } else {
      assert kind in kinds[i + 1..];
      KindFound(kinds, kind, i + 1);
    }
  }

  lemma {:induction false} KindRoundTrip(kind: Kind)
    ensures ParseKind(KindName(kind)) == kind
  {
    assert KINDS[0..] == KINDS;
    assert kind in KINDS;
    KindFound(KINDS, kind, 0);
  }

  // ---- one winner ----

  /** A winner as one value of the file. */
  function Encode(w: Winner): string {
    w.profile + ";" + KindName(w.kind) + ";" + Text.Decimal(w.confidence) + ";" + Text.Decimal(w.expiresAt) + ";"
    + Text.Decimal(w.failures) + ";" + Text.Decimal(w.verifiedAt)
  }

  function FieldsOf(w: Winner): seq<string> {
    [w.profile, KindName(w.kind), Text.Decimal(w.confidence), Text.Decimal(w.expiresAt), Text.Decimal(w.failures),
     Text.Decimal(w.verifiedAt)]
  }

  lemma {:induction false} JoinTwo(a: string, rest: seq<string>)
    requires |rest| >= 1
    ensures Join([a] + rest) == a + ";" + Join(rest)
  {
    assert ([a] + rest)[1..] == rest;
  }

  lemma {:induction false} SixFields(a: string, b: string, c: string, d: string, e: string, f: string)
    ensures a + ";" + b + ";" + c + ";" + d + ";" + e + ";" + f == Join([a, b, c, d, e, f])
  {
    assert Join([f]) == f;
    JoinTwo(e, [f]);
    assert [e] + [f] == [e, f];
    JoinTwo(d, [e, f]);
    assert [d] + [e, f] == [d, e, f];
    JoinTwo(c, [d, e, f]);
    assert [c] + [d, e, f] == [c, d, e, f];
    JoinTwo(b, [c, d, e, f]);
    assert [b] + [c, d, e, f] == [b, c, d, e, f];
    JoinTwo(a, [b, c, d, e, f]);
    assert [a] + [b, c, d, e, f] == [a, b, c, d, e, f];
  }

  /** A field that neither splits its value nor needs an escape: what a snapshot writes. */
  predicate Clean(field: string) {
    ';' !in field && '"' !in field
  }

  lemma {:induction false} DecimalIsClean(n: nat)
    ensures Clean(Text.Decimal(n))
  {
    Text.DecimalRoundTrip(n);
  }

  lemma {:induction false} KindNameIsClean(kind: Kind)
    ensures Clean(KindName(kind))
  {
    if kind.Unknown? || kind.NoInterference? || kind.SniInterferenceLikely? || kind.TlsIncompatible? {
      FirstKindsAreClean(kind);
    } else {
      LastKindsAreClean(kind);
    }
  }

  lemma {:induction false} FirstKindsAreClean(kind: Kind)
    requires kind.Unknown? || kind.NoInterference? || kind.SniInterferenceLikely? || kind.TlsIncompatible?
    ensures Clean(KindName(kind))
  {
  }

  lemma {:induction false} LastKindsAreClean(kind: Kind)
    requires !(kind.Unknown? || kind.NoInterference? || kind.SniInterferenceLikely? || kind.TlsIncompatible?)
    ensures Clean(KindName(kind))
  {
  }

  lemma {:induction false} KnownIsTabled(name: string, from: nat) returns (k: nat)
    requires from <= |Profiles.PROFILES| && Profiles.FindProfile(name, from).Some?
    ensures k < |Profiles.PROFILES| && Profiles.PROFILES[k].name == name
    decreases |Profiles.PROFILES| - from
  {
    if Profiles.PROFILES[from].name == name { k := from; } else { k := KnownIsTabled(name, from + 1); }
  }

  lemma {:induction false} FirstNamesAreClean()
    ensures forall k :: 0 <= k < 3 ==> Clean(Profiles.PROFILES[k].name)
  {
  }

  lemma {:induction false} EarlyNamesAreClean()
    ensures forall k :: 3 <= k < 5 ==> Clean(Profiles.PROFILES[k].name)
  {
  }

  lemma {:induction false} MiddleNamesAreClean()
    ensures Clean(Profiles.PROFILES[5].name) && Clean(Profiles.PROFILES[6].name)
  {
  }

  lemma {:induction false} LateNamesAreClean()
    ensures forall k :: 7 <= k < 10 ==> Clean(Profiles.PROFILES[k].name)
  {
  }

  lemma {:induction false} LastNamesAreClean()
    ensures Clean(Profiles.PROFILES[10].name) && Clean(Profiles.PROFILES[11].name)
  {
  }

  lemma {:induction false} ProfileIsClean(profile: string)
    requires Known(profile)
    ensures Clean(profile)
  {
    var k := KnownIsTabled(profile, 0);
    FirstNamesAreClean();
    EarlyNamesAreClean();
    MiddleNamesAreClean();
    LateNamesAreClean();
    LastNamesAreClean();
  }

  lemma {:induction false} FieldsAreClean(w: Winner)
    requires Known(w.profile)
    ensures forall f :: f in FieldsOf(w) ==> Clean(f)
  {
    ProfileIsClean(w.profile);
    KindNameIsClean(w.kind);
    DecimalIsClean(w.confidence);
    DecimalIsClean(w.expiresAt);
    DecimalIsClean(w.failures);
    DecimalIsClean(w.verifiedAt);
  }

  lemma {:induction false} EncodeJoins(w: Winner)
    ensures Encode(w) == Join(FieldsOf(w))
  {
    SixFields(w.profile, KindName(w.kind), Text.Decimal(w.confidence), Text.Decimal(w.expiresAt),
              Text.Decimal(w.failures), Text.Decimal(w.verifiedAt));
  }

  /** The fields of a written winner, in this order. */
  lemma {:induction false} EncodeSplits(w: Winner)
    requires Known(w.profile)
    ensures Split(Encode(w)) == FieldsOf(w) == [
      w.profile, KindName(w.kind), Text.Decimal(w.confidence), Text.Decimal(w.expiresAt), Text.Decimal(w.failures),
      Text.Decimal(w.verifiedAt)]
  {
    EncodeJoins(w);
    FieldsAreClean(w);
    SplitOfJoin(FieldsOf(w));
  }

  lemma {:induction false} JoinUnquoted(fields: seq<string>)
    requires |fields| >= 1 && forall f :: f in fields ==> Clean(f)
    ensures '"' !in Join(fields)
  {
    assert fields[0] in fields;
    if |fields| > 1 {
      JoinUnquoted(fields[1..]);
      var rest := Join(fields[1..]);
      forall c | c in fields[0] + ";" + rest ensures c != '"' {
        assert c in fields[0] || c == ';' || c in rest;
      }
    }
  }

  /** The value written for a winner holds no quote. */
  lemma {:induction false} EncodeUnquoted(w: Winner)
    requires Known(w.profile)
    ensures '"' !in Encode(w)
  {
    FieldsAreClean(w);
    JoinUnquoted(FieldsOf(w));
    EncodeJoins(w);
  }

  // ---- decoding ----

  datatype Decoded = Skipped | Nomination(key: string, candidate: Candidate) | Restored(key: string, winner: Winner)


  function NumberField(fields: seq<string>, i: nat, before: nat, limit: nat): nat {
    if |fields| > i then Text.FromChars(fields[i], before, limit) else before
  }

  /** The winner a value describes, before it is judged. */
  function ReadWinner(fields: seq<string>, loadedAt: nat): Winner
    requires |fields| >= 1
  {
    Winner(
      fields[0], if |fields| > 1 then ParseKind(fields[1]) else Unknown,
      NumberField(fields, 2, 50, UINT32), NumberField(fields, 3, loadedAt + LEARNING_TTL, UINT64),
      NumberField(fields, 4, 0, UINT32), NumberField(fields, 5, 0, UINT64))
  }

  /** Nothing outlives one TTL from now, and a stamp from the future proves nothing. */
  function Believed(w: Winner, loadedAt: nat): Winner {
    w.(confidence := Min(w.confidence, 100), expiresAt := Min(w.expiresAt, loadedAt + LEARNING_TTL),
       verifiedAt := if w.verifiedAt > loadedAt + CLOCK_SKEW then 0 else w.verifiedAt)
  }

  function Judge(key: string, w: Winner, loadedAt: nat): Decoded {
    if w.expiresAt <= loadedAt then Skipped
    else if w.verifiedAt == 0 then Nomination(key, Candidate(w.profile, 0, 0, w.expiresAt))
    else Restored(key, w)
  }

  function Decode(item: Item, loadedAt: nat): Decoded {
    var fields := Split(item.value);
    if item.key == "" || !Bypass(fields[0]) then Skipped
    else
      Judge(if '|' in item.key then item.key else ScopeKey(DEFAULT_NETWORK, item.key),
            Believed(ReadWinner(fields, loadedAt), loadedAt), loadedAt)
  }

  /** A winner the file can carry: the widths of its numbers. */
  predicate Storable(w: Winner) {
    Bypass(w.profile) && w.confidence < UINT32 && w.expiresAt < UINT64 && w.failures < UINT32 && w.verifiedAt < UINT64
  }

  lemma {:induction false} ReadsBack(w: Winner, loadedAt: nat)
    requires Storable(w)
    ensures ReadWinner(FieldsOf(w), loadedAt) == w
  {
    KindRoundTrip(w.kind);
    Text.FromCharsOfDecimal(w.confidence, 50, UINT32);
    Text.FromCharsOfDecimal(w.expiresAt, loadedAt + LEARNING_TTL, UINT64);
    Text.FromCharsOfDecimal(w.failures, 0, UINT32);
    Text.FromCharsOfDecimal(w.verifiedAt, 0, UINT64);
  }

  /** Decoding a written winner judges that winner, under its own key. */
  lemma {:induction false} DecodeOfEncode(key: string, w: Winner, loadedAt: nat)
    requires Storable(w) && '|' in key
    ensures Decode(Item(key, Encode(w)), loadedAt) == Judge(key, Believed(w, loadedAt), loadedAt)
  {
    EncodeSplits(w);
    ReadsBack(w, loadedAt);
  }

  // ---- loading ----

  datatype Tables = Tables(entries: map<string, Entry>, candidates: map<string, Candidate>)

  /** One member of the file, taken into the tables while they have room. */
  function Admit(t: Tables, d: Decoded): Tables {
    match d
    case Skipped => t
    case Nomination(key, candidate) =>
      if |t.candidates| < MAX_CANDIDATES then t.(candidates := t.candidates[key := candidate]) else t
    case Restored(key, winner) =>
      if |t.entries| < MAX_WINNERS then t.(entries := t.entries[key := Entry(winner, 0)]) else t
  }

  function LoadItems(items: seq<Item>, n: nat, loadedAt: nat): Tables
    requires n <= |items|
  {
    if n == 0 then Tables(map[], map[]) else Admit(LoadItems(items, n - 1, loadedAt), Decode(items[n - 1], loadedAt))
  }

  /** The tables after a load; nothing if the file does not hold the object. */
  function LoadText(content: string, loadedAt: nat): Option<Tables> {
    var domains := Raw(content, "domains");
    if |domains| == 0 || domains[0] != '{' then None
    else
      var items := ReadItems(domains, 1);
      Some(LoadItems(items, |items|, loadedAt))
  }

  /** What a decoded member stands for, and where: the parse of one value. */
  method DecodeItem(item: Item, loadedAt: nat) returns (d: Decoded)
    ensures d == Decode(item, loadedAt)
  {
    var fields := SplitFields(item.value);
    if item.key == "" || !Bypass(fields[0]) { return Skipped; }
    var key := if '|' in item.key then item.key else ScopeKey(DEFAULT_NETWORK, item.key);
    var w := Winner(fields[0], Unknown, 50, loadedAt + LEARNING_TTL, 0, 0);
    if |fields| > 1 { w := w.(kind := ParseKind(fields[1])); }
    if |fields| > 2 { w := w.(confidence := Text.FromChars(fields[2], w.confidence, UINT32)); }
    if |fields| > 3 { w := w.(expiresAt := Text.FromChars(fields[3], w.expiresAt, UINT64)); }
    if |fields| > 4 { w := w.(failures := Text.FromChars(fields[4], w.failures, UINT32)); }
    if |fields| > 5 { w := w.(verifiedAt := Text.FromChars(fields[5], w.verifiedAt, UINT64)); }
    w := w.(confidence := Min(w.confidence, 100), expiresAt := Min(w.expiresAt, loadedAt + LEARNING_TTL));
    if w.verifiedAt > loadedAt + CLOCK_SKEW { w := w.(verifiedAt := 0); }
    if w.expiresAt <= loadedAt { return Skipped; }
    return if w.verifiedAt == 0 then Nomination(key, Candidate(w.profile, 0, 0, w.expiresAt)) else Restored(key, w);
  }

  /** One member at the quote at `pos`; not ok when the reader has to stop there. */
  method ScanMember(s: string, pos: nat) returns (ok: bool, item: Item, end: nat)
    requires pos < |s| && s[pos] == '"'
    ensures ok == (MemberEnd(s, pos) >= 0)
    ensures ok ==> end == MemberEnd(s, pos) && item == MemberItem(s, pos)
  {
    var key, at := ParseString(s, pos);
    assert at == LiteralEnd(s, pos + 1);
    var colon := SkipWs(s, at);
    if colon >= |s| || s[colon] != ':' { return false, Item("", ""), 0; }
    var value, start := "", SkipWs(s, colon + 1);
    ok, value, end := ScanValue(s, start);
    assert ok ==> ValueStart(s, pos) == start + 1;
    item := Item(key, value);
  }

  /**
    The value at `at`, which is trusted when the text read for it ends in a quote. That need not be a
    closing one: an unclosed value may end in an escaped quote.
   */
  method ScanValue(s: string, at: nat) returns (ok: bool, value: string, end: nat)
    ensures ok == (at < |s| && s[at] == '"' && LiteralEnd(s, at + 1) >= at + 2 && s[LiteralEnd(s, at + 1) - 1] == '"')
    ensures ok ==> end == LiteralEnd(s, at + 1) && value == StringText(s, at + 1)
  {
    if at >= |s| || s[at] != '"' { return false, "", 0; }
    value, end := ParseString(s, at);
    ok := end >= at + 2 && s[end - 1] == '"';
  }

  datatype Turn = Stop | Skip(next: nat) | Take(item: Item, next: nat)

  /** One turn of the loader: white space, then a comma, a member, or the end. */
  method NextMember(s: string, start: nat) returns (turn: Turn)
    requires start <= |s|
    ensures turn.Stop? ==> ReadItems(s, start) == []
    ensures turn.Skip? ==> start < turn.next <= |s| && ReadItems(s, start) == ReadItems(s, turn.next)
    ensures turn.Take? ==> start < turn.next <= |s| && ReadItems(s, start) == [turn.item] + ReadItems(s, turn.next)
  {
    var pos := SkipWs(s, start);
    if pos >= |s| || s[pos] == '}' { return Stop; }
    if s[pos] == ',' { return Skip(pos + 1); }
    if s[pos] != '"' { return Stop; }
    var ok, item, end := ScanMember(s, pos);
    return if ok then Take(item, end) else Stop;
  }

  /** The loop of the loader over the members of the object. */
  method LoadMembers(domains: string, loadedAt: nat) returns (t: Tables)
    requires |domains| > 0
    ensures var items := ReadItems(domains, 1); t == LoadItems(items, |items|, loadedAt)
  {
    t := Tables(map[], map[]);
    var pos: nat := 1;
    ghost var items, n := ReadItems(domains, 1), 0;
    assert items[0..] == items;
    while true
      invariant pos <= |domains| && n <= |items| && t == LoadItems(items, n, loadedAt)
      invariant ReadItems(domains, pos) == items[n..]
      decreases |domains| - pos
    {
      var turn := NextMember(domains, pos);
      match turn
      case Stop => return;
      case Skip(next) => pos := next;
      case Take(item, next) =>
        TakeItem(items, n, item, ReadItems(domains, next));
        var d := DecodeItem(item, loadedAt);
        t, n, pos := Admit(t, d), n + 1, next;
    }
  }

  lemma {:induction false} TakeItem(items: seq<Item>, n: nat, item: Item, rest: seq<Item>)
    requires n <= |items| && items[n..] == [item] + rest
    ensures n < |items| && items[n] == item && items[n + 1..] == rest
  {
    var tail := items[n..];
    assert tail[0] == items[n] && tail[1..] == items[n + 1..];
  }

  method Load(content: string, loadedAt: nat) returns (t: Option<Tables>)
    ensures t == LoadText(content, loadedAt)
  {
    var domains := GetRaw(content, "domains");
    if |domains| == 0 || domains[0] != '{' { return None; }
    var tables := LoadMembers(domains, loadedAt);
    return Some(tables);
  }
}
