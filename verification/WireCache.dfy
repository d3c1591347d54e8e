/**
  The cache of relayed DNS answers: keyed by what a query asks, filled with answers that were checked
  against their question, and served with the asking query's identifier and aged TTLs.

  Main results: two accepted queries with the same key ask the same question up to ASCII case; in
  every run of look-ups, stores and clearings, by any number of threads, a hit is the answer some
  earlier store accepted under the same key, changed only in its identifier and in its TTLs, which
  are older by exactly the seconds it was kept; it is walkable and repeats the asking query's question.
 */
module WireCache {
  import opened Collections
  import opened Basics
  import opened Bytes
  import opened DnsMessage
  import opened DnsQuery
  import opened Expiring
  import Built = DnsAnswer
  import Text

  const MIN_TTL := 10
  const MAX_TTL := 3600
  const NEGATIVE_MAX := 60
  const NEGATIVE_DEFAULT := 30
  const MAX_ENTRIES := 1024
  const RCODE_NX_DOMAIN := 3

  // ---- the key ----

  function Flags(q: Query): (s: string)
    ensures |s| == 4
  {
    (if q.recursionDesired then "|r" else "|-") + (if q.dnssecOk then "d" else "-")
    + (if q.ednsPayload != 0 then "e" else "-")
  }

  function WireKey(q: Query): (key: string) {
    q.name + ['|'] + Text.Decimal(q.kind) + Flags(q)
  }

  lemma {:induction false} FlagsDetermine(p: Query, q: Query)
    requires Flags(p) == Flags(q)
    ensures p.recursionDesired == q.recursionDesired && p.dnssecOk == q.dnssecOk
    ensures (p.ednsPayload != 0) == (q.ednsPayload != 0)
  {
    assert Flags(p)[1] == Flags(q)[1] && Flags(p)[2] == Flags(q)[2] && Flags(p)[3] == Flags(q)[3];
  }

  lemma {:induction false} SplitSuffix(a: string, x: string, b: string, y: string)
    requires a + x == b + y && |x| == |y|
    ensures a == b && x == y
  {
    assert a == (a + x)[..|a|] && b == (b + y)[..|b|];
    assert x == (a + x)[|a|..] && y == (b + y)[|b|..];
  }

  /** The key determines the name, the type and the three flags. */
  lemma {:induction false} KeyDetermines(p: Query, q: Query)
    requires WireKey(p) == WireKey(q)
    ensures p.name == q.name && p.kind == q.kind
    ensures p.recursionDesired == q.recursionDesired && p.dnssecOk == q.dnssecOk
    ensures (p.ednsPayload != 0) == (q.ednsPayload != 0)
  {
    SplitSuffix(p.name + ['|'] + Text.Decimal(p.kind), Flags(p), q.name + ['|'] + Text.Decimal(q.kind), Flags(q));
    Text.SuffixedInjective(p.name, p.kind, q.name, q.kind, '|');
    FlagsDetermine(p, q);
  }

  /** Accepted queries that share a key ask the same question, up to ASCII case. */
  lemma {:induction false} SameKeySameQuestion(d: seq<Byte>, e: seq<Byte>)
    requires Parse(d).ok && Parse(e).ok && WireKey(Parse(d).query) == WireKey(Parse(e).query)
    ensures SameFolded(Parse(d).query.question, Parse(e).query.question)
  {
    KeyDetermines(Parse(d).query, Parse(e).query);
    NameAndTypeDetermineQuestion(d, e);
  }

  // ---- how long an answer may be kept ----

  /** The smaller of two TTLs, where there are any. */
  function Least(a: Option<nat>, ttl: nat): Option<nat> {
    if a.Some? && a.value <= ttl then a else Some(ttl)
  }

  /** The least TTL among the first `k` records, of this section and other than OPT. */
  function LeastTtl(d: seq<Byte>, refs: seq<RecordRef>, k: nat, section: nat): (ttl: Option<nat>)
    requires k <= |refs| && forall j :: 0 <= j < |refs| ==> refs[j].ttlOffset + 4 <= |d|
  {
    if k == 0 then None
    else
      var before := LeastTtl(d, refs, k - 1, section);
      if refs[k - 1].kind == TYPE_OPT || refs[k - 1].section != section then before
      else Least(before, Read32(d, refs[k - 1].ttlOffset))
  }

  lemma {:induction false} LeastTtlIsLeast(d: seq<Byte>, refs: seq<RecordRef>, k: nat, section: nat, j: nat)
    requires j < k <= |refs| && forall i :: 0 <= i < |refs| ==> refs[i].ttlOffset + 4 <= |d|
    requires refs[j].kind != TYPE_OPT && refs[j].section == section
    ensures var ttl := LeastTtl(d, refs, k, section); ttl.Some? && ttl.value <= Read32(d, refs[j].ttlOffset)
  {
    if j < k - 1 { LeastTtlIsLeast(d, refs, k - 1, section, j); }
  }

  datatype ResponseInfo = ResponseInfo(
    response: bool, truncated: bool, rcode: nat, answers: nat, answerTtl: Option<nat>, authorityTtl: Option<nat>)

  function Info(d: seq<Byte>): (info: ResponseInfo)
    requires Walk(d).Good?
  {
    RecordsAreSpaced(d, CountsOf(d), 0, Walk(d).questionEnd);
    var refs := Walk(d).records;
    ResponseInfo(d[2] >= 0x80, d[2] as int / 2 % 2 == 1, d[3] as int % 16, Read16(d, 6),
                 LeastTtl(d, refs, |refs|, 0), LeastTtl(d, refs, |refs|, 1))
  }

  method InspectResponse(d: seq<Byte>) returns (ok: bool, info: ResponseInfo)
    ensures ok == Walk(d).Good?
    ensures ok ==> info == Info(d)
  {
    info := ResponseInfo(false, false, 0, 0, None, None);
    var w := WalkMessage(d);
    if w == Bad { return false, info; }
    RecordsAreSpaced(d, CountsOf(d), 0, w.questionEnd);
    info := ResponseInfo(d[2] >= 0x80, d[2] as int / 2 % 2 == 1, d[3] as int % 16, Read16(d, 6), None, None);
    var answerTtl, authorityTtl := None, None;
    for k := 0 to |w.records|
      invariant answerTtl == LeastTtl(d, w.records, k, 0) && authorityTtl == LeastTtl(d, w.records, k, 1)
    {
      var ref := w.records[k];
      if ref.kind != TYPE_OPT {
        var ttl := Read32(d, ref.ttlOffset);
        if ref.section == 0 {
          answerTtl := Least(answerTtl, ttl);
        } else if ref.section == 1 {
          authorityTtl := Least(authorityTtl, ttl);
        }
      }
    }
    return true, info.(answerTtl := answerTtl, authorityTtl := authorityTtl);
  }

  /** Seconds an answer may be served from the cache; 0 if it may not. */
  function Lifetime(info: ResponseInfo): (seconds: nat)
    ensures seconds <= MAX_TTL
  {
    if info.truncated then 0
    else if info.rcode == 0 && info.answers > 0 then
      if info.answerTtl.None? || info.answerTtl.value == 0 then 0 else Clamp(info.answerTtl.value, MIN_TTL, MAX_TTL)
    else if info.rcode == 0 || info.rcode == RCODE_NX_DOMAIN then
      if info.authorityTtl.Some? then Clamp(info.authorityTtl.value, MIN_TTL, NEGATIVE_MAX) else NEGATIVE_DEFAULT
    else 0
  }

  lemma {:induction false} LeastTtlAttained(d: seq<Byte>, refs: seq<RecordRef>, k: nat, section: nat) returns (j: nat)
    requires k <= |refs| && forall i :: 0 <= i < |refs| ==> refs[i].ttlOffset + 4 <= |d|
    requires LeastTtl(d, refs, k, section).Some?
    ensures j < k && refs[j].kind != TYPE_OPT && refs[j].section == section
    ensures LeastTtl(d, refs, k, section).value == Read32(d, refs[j].ttlOffset)
  {
    j := k - 1;
    if LeastTtl(d, refs, k, section) == LeastTtl(d, refs, k - 1, section) {
      j := LeastTtlAttained(d, refs, k - 1, section);
    }
  }

  /** An answer kept for so long outlives no record of the section. */
  ghost predicate WithinTtls(d: seq<Byte>, refs: seq<RecordRef>, section: nat, seconds: nat) {
    forall j :: 0 <= j < |refs| && refs[j].kind != TYPE_OPT && refs[j].section == section ==>
      refs[j].ttlOffset + 4 <= |d| && seconds <= Read32(d, refs[j].ttlOffset)
  }

  lemma {:induction false} WithinLeast(d: seq<Byte>, refs: seq<RecordRef>, section: nat, seconds: nat)
    requires forall i :: 0 <= i < |refs| ==> refs[i].ttlOffset + 4 <= |d|
    ensures WithinTtls(d, refs, section, seconds) <==>
      var least := LeastTtl(d, refs, |refs|, section); least.None? || seconds <= least.value
  {
    var least := LeastTtl(d, refs, |refs|, section);
    if least.Some? {
      var j := LeastTtlAttained(d, refs, |refs|, section);
    }
    forall j | 0 <= j < |refs| && refs[j].kind != TYPE_OPT && refs[j].section == section
      ensures least.Some? && least.value <= Read32(d, refs[j].ttlOffset)
    {
      LeastTtlIsLeast(d, refs, |refs|, section, j);
    }
  }

  /** A positive answer outlives none of its records if and only if the least TTL is zero or reaches the floor. */
  lemma {:induction false} LifetimeWithinTtlsExactly(d: seq<Byte>)
    requires Walk(d).Good? && !Info(d).truncated && Info(d).rcode == 0 && Info(d).answers > 0
    ensures WithinTtls(d, Walk(d).records, 0, Lifetime(Info(d))) <==>
      var least := Info(d).answerTtl; least.None? || least.value == 0 || least.value >= MIN_TTL
  {
    RecordsAreSpaced(d, CountsOf(d), 0, Walk(d).questionEnd);
    WithinLeast(d, Walk(d).records, 0, Lifetime(Info(d)));
  }

  /** A negative answer outlives no authority record if and only if there is none or the least TTL reaches the floor. */
  lemma {:induction false} NegativeLifetimeExactly(d: seq<Byte>)
    requires Walk(d).Good? && !Info(d).truncated
    requires Info(d).rcode == RCODE_NX_DOMAIN || (Info(d).rcode == 0 && Info(d).answers == 0)
    ensures WithinTtls(d, Walk(d).records, 1, Lifetime(Info(d))) <==>
      var least := Info(d).authorityTtl; least.None? || least.value >= MIN_TTL
  {
    RecordsAreSpaced(d, CountsOf(d), 0, Walk(d).questionEnd);
    WithinLeast(d, Walk(d).records, 1, Lifetime(Info(d)));
  }

  // ---- the identifier ----

  function SetId(d: seq<Byte>, id: nat): (e: seq<Byte>)
    requires id < 0x1_0000
    ensures |e| == |d|
  {
    if |d| >= 2 then Put16(id) + d[2..] else d
  }

  lemma {:induction false} SetIdBytes(d: seq<Byte>, id: nat)
    requires id < 0x1_0000 && |d| >= 2
    ensures Read16(SetId(d, id), 0) == id
    ensures forall x :: 2 <= x < |d| ==> SetId(d, id)[x] == d[x]
  {
  }

  lemma {:induction false} SetIdTwice(d: seq<Byte>, a: nat, b: nat)
    requires a < 0x1_0000 && b < 0x1_0000
    ensures SetId(SetId(d, a), b) == SetId(d, b)
  {
    if |d| >= 2 { assert (Put16(a) + d[2..])[2..] == d[2..]; }
  }

  /** The walk does not look at the identifier. */
  lemma {:induction false} WalkFromSameTail(d: seq<Byte>, e: seq<Byte>)
    requires Walk(d).Good? && |e| == |d| && forall x :: 2 <= x < |d| ==> e[x] == d[x]
    ensures Walk(e) == Walk(d)
  {
    SameCounts(d, e);
    SkipQuestionsLocal(d, e, Read16(d, 4), HEADER);
    RecordsFromEqualTails(d, e, CountsOf(d), 0, Walk(d).questionEnd);
  }

  lemma {:induction false} SameCounts(d: seq<Byte>, e: seq<Byte>)
    requires |e| == |d| >= HEADER && forall x :: 2 <= x < |d| ==> e[x] == d[x]
    ensures CountsOf(e) == CountsOf(d) && Read16(e, 4) == Read16(d, 4)
  {
  }

  lemma {:induction false} SetIdKeepsWalk(d: seq<Byte>, id: nat)
    requires id < 0x1_0000 && Walk(d).Good?
    ensures Walk(SetId(d, id)) == Walk(d)
  {
    SetIdBytes(d, id);
    WalkFromSameTail(d, SetId(d, id));
  }

  // ---- a reply to a query ----

  /** A response that may be handed to whoever sent `message`. */
  ghost predicate ReplyTo(message: seq<Byte>, r: seq<Byte>) {
    && Parse(message).ok && Walk(r).Good? && IsResponse(r)
    && Read16(r, 0) == Parse(message).query.id && EchoesQuestion(r, Parse(message).query.question)
  }

  /** What the relay accepts as the answer to `message`. */
  ghost predicate Accepts(message: seq<Byte>, body: seq<Byte>) {
    Parse(message).ok && AnswersQuestion(body, Parse(message).query.question)
  }

  predicate AnswersQuestion(body: seq<Byte>, question: seq<Byte>) {
    HEADER <= |body| <= 65535 && Walk(body).Good? && IsResponse(body) && EchoesQuestion(body, question)
  }

  // ---- answers kept beyond their TTL ----

  /** The answer to an address query that carries one address. */
  function OneAddress(q: Query, address: seq<Byte>, ttl: nat): seq<Byte>
    requires q.id < 0x1_0000 && q.kind < 0x1_0000 && ttl < 0x1_0000_0000 && |address| == Built.AddressLength(q.kind)
  {
    Built.Answer(q, [Some(address)], ttl, false, 0)
  }

  lemma {:induction false} OneAddressSays(q: Query, address: seq<Byte>, ttl: nat)
    requires q.id < 0x1_0000 && ttl < 0x1_0000_0000 && |address| == Built.AddressLength(q.kind) && q.question != []
    requires q.kind == TYPE_A || q.kind == TYPE_AAAA
    ensures Built.Carried(q, [Some(address)], false, 0) == [address]
    ensures var d := OneAddress(q, address, ttl);
      |d| >= HEADER && d[2] as int / 2 % 2 == 0 && d[3] as int % 16 == 0 && Read16(d, 6) == 1
  {
    assert Built.Usable([Some(address)], 1, 7) == [];
    assert Built.Usable([Some(address)], 0, 8) == [address] + [];
    Built.AnswerFront(q, [Some(address)], ttl, false, 0);
  }

  /** Every address query has an accepted answer that is kept for ten seconds with a TTL of less. */
  lemma {:induction false} ShortTtlIsOutlived(message: seq<Byte>, address: seq<Byte>, ttl: nat)
    returns (body: seq<Byte>)
    requires Parse(message).ok && 0 < ttl < MIN_TTL
    requires var q := Parse(message).query;
      (q.kind == TYPE_A || q.kind == TYPE_AAAA) && |address| == Built.AddressLength(q.kind)
    ensures Accepts(message, body) && Info(body).answerTtl == Some(ttl) && Lifetime(Info(body)) == MIN_TTL
    ensures !WithinTtls(body, Walk(body).records, 0, Lifetime(Info(body)))
  {
    var q := Parse(message).query;
    AcceptedQuery(message);
    body := OneAddress(q, address, ttl);
    AcceptedQuestion(message);
    OneAddressSays(q, address, ttl);
    Built.BuiltAnswerIsSound(message, [Some(address)], ttl, false, 0);
    OneTtl(body, ttl, address, q.kind, q.ednsPayload != 0);
    LifetimeWithinTtlsExactly(body);
  }

  lemma {:induction false} OneTtl(d: seq<Byte>, ttl: nat, address: seq<Byte>, kind: nat, opt: bool)
    requires Walk(d).Good? && Built.Found(d, Walk(d).records, 0, kind, ttl, [address], opt) && kind != TYPE_OPT
    ensures Info(d).answerTtl == Some(ttl)
  {
    RecordsAreSpaced(d, CountsOf(d), 0, Walk(d).questionEnd);
    var refs := Walk(d).records;
    assert Built.CarriesAddress(d, refs[0], kind, ttl, [address][0]);
    assert LeastTtl(d, refs, 0, 0) == None;
    assert LeastTtl(d, refs, 1, 0) == Some(ttl);
    if opt { assert LeastTtl(d, refs, 2, 0) == LeastTtl(d, refs, 1, 0); }
  }

  /** A query for the address of `a`. */
  const SAMPLE_QUERY: seq<Byte> := [0, 1, 1, 0, 0, 1, 0, 0, 0, 0, 0, 0, 1, 97, 0, 0, 1, 0, 1]

  lemma {:induction false} SampleQueryIsAccepted(d: seq<Byte>)
    requires d == SAMPLE_QUERY
    ensures Parse(d).ok && Parse(d).query.kind == TYPE_A && Parse(d).query.id == 1
  {
    assert NameEnd(d, 14, 1) == 15;
    assert LabelFits(d, 12, 0);
    assert NameEnd(d, 12, 0) == 15;
    AcceptedQuery(d);
  }

  /** A TTL of three seconds, kept for ten. */
  lemma {:induction false} ThreeSecondsKeptTen() returns (body: seq<Byte>)
    ensures Accepts(SAMPLE_QUERY, body) && Info(body).answerTtl == Some(3) && Lifetime(Info(body)) == 10
  {
    SampleQueryIsAccepted(SAMPLE_QUERY);
    body := ShortTtlIsOutlived(SAMPLE_QUERY, [1, 2, 3, 4], 3);
  }

  /** The checks on the body of the Worker's reply, and what the answer says about itself. */
  method CheckAnswer(body: seq<Byte>, question: seq<Byte>) returns (ok: bool, info: ResponseInfo)
    ensures ok == AnswersQuestion(body, question)
    ensures ok ==> info == Info(body)
  {
    if |body| < HEADER || |body| > 65535 { return false, ResponseInfo(false, false, 0, 0, None, None); }
    ok, info := InspectResponse(body);
    if !ok || !info.response { return false, info; }
    ok := CheckEcho(body, question);
  }

  lemma {:induction false} QueryId(message: seq<Byte>)
    requires Parse(message).ok
    ensures Parse(message).query.id < 0x1_0000 && Parse(message).query.kind < 0x1_0000
  {
    AcceptedQuery(message);
  }

  /** What a hit makes of the answer `body`. */
  function Served(body: seq<Byte>, id: nat, age: nat): (r: seq<Byte>)
    requires id < 0x1_0000
  {
    Aged(SetId(body, id), age)
  }

  lemma {:induction false} EchoNeedsOnlyQuestion(d: seq<Byte>, e: seq<Byte>, q: seq<Byte>, p: seq<Byte>)
    requires EchoesQuestion(d, q) && SameFolded(q, p) && |e| == |d|
    requires Read16(e, 4) == Read16(d, 4) && Agree(d, e, HEADER, HEADER + |q|)
    ensures EchoesQuestion(e, p)
  {
    forall i | 0 <= i < |p| ensures Lower(e[HEADER..HEADER + |p|][i]) == Lower(p[i]) {
      var x := HEADER + i;
      assert e[HEADER..HEADER + |p|][i] == e[x] == d[x] == d[HEADER..HEADER + |q|][i];
    }
  }

  /** Serving leaves everything in front of the records but the identifier. */
  lemma {:induction false} ServedFront(body: seq<Byte>, id: nat, age: nat)
    requires id < 0x1_0000 && Walk(body).Good?
    ensures var r := Served(body, id, age);
      && |r| == |body| && Walk(r) == Walk(body) && Read16(r, 0) == id
      && HEADER <= Walk(body).questionEnd <= |body| && Agree(body, r, 2, Walk(body).questionEnd)
  {
    var e := SetId(body, id);
    var r := Aged(e, age);
    SetIdBytes(body, id);
    SetIdKeepsWalk(body, id);
    AgeingKeepsWalk(e, age);
    AgeingChangesOnlyTtls(e, age);
    FrontIsNoTtl(e, r, age);
  }

  lemma {:induction false} FrontIsNoTtl(e: seq<Byte>, r: seq<Byte>, age: nat)
    requires Walk(e).Good? && r == Aged(e, age)
    ensures HEADER <= Walk(e).questionEnd <= |e| == |r|
    ensures forall x :: 0 <= x < Walk(e).questionEnd ==> r[x] == e[x]
  {
    AgeingChangesOnlyTtls(e, age);
    var refs := Walk(e).records;
    forall x: nat | x < Walk(e).questionEnd ensures r[x] == e[x] {
      assert !InTtl(refs, 0, x);
    }
  }

  /** An answer accepted for one query, served to another with the same key, is a reply to that one. */
  lemma {:induction false} ServedIsReply(asked: seq<Byte>, body: seq<Byte>, message: seq<Byte>, age: nat)
    requires Accepts(asked, body) && Parse(message).ok
    requires WireKey(Parse(asked).query) == WireKey(Parse(message).query)
    ensures Parse(message).query.id < 0x1_0000 && ReplyTo(message, Served(body, Parse(message).query.id, age))
    ensures Walk(Served(body, Parse(message).query.id, age)) == Walk(body)
  {
    QueryId(message);
    ServedFront(body, Parse(message).query.id, age);
    EchoPinsQuestionEnd(asked, body);
    SameKeySameQuestion(asked, message);
    EchoNeedsOnlyQuestion(body, Served(body, Parse(message).query.id, age),
                          Parse(asked).query.question, Parse(message).query.question);
  }

  lemma {:induction false} AcceptedIsReply(message: seq<Byte>, body: seq<Byte>)
    requires Accepts(message, body)
    ensures Parse(message).query.id < 0x1_0000 && ReplyTo(message, SetId(body, Parse(message).query.id))
  {
    var q := Parse(message).query;
    QueryId(message);
    SetIdBytes(body, q.id);
    SetIdKeepsWalk(body, q.id);
    EchoNeedsOnlyQuestion(body, SetId(body, q.id), q.question, q.question);
  }

  // ---- the cache ----

  datatype Kept = Kept(response: seq<Byte>, storedAt: nat)
  type Cache = Table<string, Kept>

  /** An entry: the answer `body` accepted for `asked`, with that query's identifier, and its deadline. */
  ghost predicate KeptFor(key: string, entry: Timed<Kept>, asked: seq<Byte>, body: seq<Byte>) {
    && Accepts(asked, body) && WireKey(Parse(asked).query) == key && Parse(asked).query.id < 0x1_0000
    && entry.value.response == SetId(body, Parse(asked).query.id)
    && entry.expiresAt == entry.value.storedAt + 1000 * Lifetime(Info(body))
  }

  ghost predicate Sourced(key: string, entry: Timed<Kept>) {
    exists asked, body :: KeptFor(key, entry, asked, body)
  }

  ghost predicate Sound(cache: Cache) {
    forall key :: key in cache ==> Sourced(key, cache[key])
  }

  /** Seconds in the cache, as the program rounds and bounds them. */
  function AgeOf(entry: Timed<Kept>, now: nat): nat
    requires entry.value.storedAt <= now
  {
    var seconds := (now - entry.value.storedAt) / 1000;
    if seconds < MAX_TTL then seconds else MAX_TTL
  }

  /** While an entry is live, its age never reaches the bound. */
  lemma {:induction false} AgeIsExact(key: string, entry: Timed<Kept>, asked: seq<Byte>, body: seq<Byte>, now: nat)
    requires KeptFor(key, entry, asked, body) && entry.value.storedAt <= now < entry.expiresAt
    ensures AgeOf(entry, now) == (now - entry.value.storedAt) / 1000 < Lifetime(Info(body))
  {
  }

  function Hit(entry: Timed<Kept>, id: nat, now: nat): (r: seq<Byte>)
    requires entry.value.storedAt <= now && id < 0x1_0000
  {
    Served(entry.value.response, id, AgeOf(entry, now))
  }

  /**
    `r` is as good an answer to `message` at `now` as `body` was to `asked` at `at`: the same bytes but
    for the identifier, which is the asking query's, and the TTLs, which are older by the seconds between.
   */
  ghost predicate AsGoodAs(asked: seq<Byte>, body: seq<Byte>, at: nat, message: seq<Byte>, now: nat, r: seq<Byte>) {
    && Accepts(asked, body) && Parse(message).ok && Parse(message).query.id < 0x1_0000
    && SameFolded(Parse(asked).query.question, Parse(message).query.question)
    && at <= now < at + 1000 * Lifetime(Info(body))
    && r == Served(body, Parse(message).query.id, (now - at) / 1000)
    && ReplyTo(message, r)
  }

  /** A hit is the accepted answer with the asking query's identifier, aged by the time in the cache. */
  lemma {:induction false} HitIsServed(
    key: string, entry: Timed<Kept>, asked: seq<Byte>, body: seq<Byte>, message: seq<Byte>, now: nat)
    requires KeptFor(key, entry, asked, body) && entry.value.storedAt <= now < entry.expiresAt
    requires Parse(message).ok && WireKey(Parse(message).query) == key
    ensures Parse(message).query.id < 0x1_0000
    ensures AsGoodAs(asked, body, entry.value.storedAt, message, now, Hit(entry, Parse(message).query.id, now))
  {
    QueryId(message);
    AgeIsExact(key, entry, asked, body, now);
    SetIdTwice(body, Parse(asked).query.id, Parse(message).query.id);
    ServedIsReply(asked, body, message, (now - entry.value.storedAt) / 1000);
    SameKeySameQuestion(asked, message);
  }

  // ---- the steps under the lock ----

  function AfterLookup(cache: Cache, key: string, now: nat): Cache {
    if key in cache && cache[key].expiresAt <= now then cache - {key} else cache
  }

  /** The entry is written; a full cache gives up an entry with the earliest deadline for a new key. */
  ghost predicate AfterStore(cache: Cache, cache': Cache, key: string, entry: Timed<Kept>) {
    || ((key in cache || |cache| < MAX_ENTRIES) && cache' == cache[key := entry])
    || (key !in cache && |cache| >= MAX_ENTRIES
        && exists victim :: Oldest(cache, victim) && cache' == (cache - {victim})[key := entry])
  }

  lemma {:induction false} StoreKeepsAll(
    cache: Cache, cache': Cache, key: string, entry: Timed<Kept>, good: (string, Timed<Kept>) -> bool)
    requires AfterStore(cache, cache', key, entry) && good(key, entry)
    requires forall k :: k in cache ==> good(k, cache[k])
    ensures forall k :: k in cache' ==> good(k, cache'[k])
  {
  }

  lemma {:induction false} StoreKeepsSound(cache: Cache, cache': Cache, key: string, entry: Timed<Kept>)
    requires Sound(cache) && AfterStore(cache, cache', key, entry) && Sourced(key, entry)
    ensures Sound(cache')
  {
    var good := (k, e) => Sourced(k, e);
    StoreKeepsAll(cache, cache', key, entry, good);
    assert forall k :: k in cache' ==> good(k, cache'[k]);
  }

  /** A live entry of a sound cache, served to a query with its key, is a reply to that query. */
  lemma {:induction false} HitIsReply(entry: Timed<Kept>, message: seq<Byte>, now: nat)
    requires Parse(message).ok && Sourced(WireKey(Parse(message).query), entry)
    requires entry.value.storedAt <= now < entry.expiresAt
    ensures Parse(message).query.id < 0x1_0000 && ReplyTo(message, Hit(entry, Parse(message).query.id, now))
  {
    var key := WireKey(Parse(message).query);
    var asked, body :| KeptFor(key, entry, asked, body);
    HitIsServed(key, entry, asked, body, message, now);
  }

  lemma {:induction false} StoredIsSourced(message: seq<Byte>, body: seq<Byte>, at: nat)
    requires Accepts(message, body)
    ensures Parse(message).query.id < 0x1_0000
    ensures Sourced(WireKey(Parse(message).query), NewEntry(body, Parse(message).query.id, at))
  {
    QueryId(message);
    assert KeptFor(WireKey(Parse(message).query), NewEntry(body, Parse(message).query.id, at), message, body);
  }

  function NewEntry(body: seq<Byte>, id: nat, at: nat): Timed<Kept>
    requires id < 0x1_0000 && Walk(body).Good?
  {
    Timed(Kept(SetId(body, id), at), at + 1000 * Lifetime(Info(body)))
  }

  /** What the Worker's reply means for the query: its body when the request succeeded. */
  type WorkerReply = Option<seq<Byte>>

  lemma {:induction false} LookupKeepsSound(cache: Cache, key: string, now: nat)
    requires Sound(cache)
    ensures Sound(AfterLookup(cache, key, now))
  {
  }

  /** A checked answer is handed out under the query's identifier, and kept exactly when it may be. */
  ghost predicate Relayed(
    message: seq<Byte>, q: Query, cache: Cache, cache': Cache, reply: WorkerReply, at: nat, r: seq<Byte>)
  {
    if reply.Some? && Accepts(message, reply.value) && q.id < 0x1_0000 then
      && r == SetId(reply.value, q.id) && ReplyTo(message, r)
      && (if Lifetime(Info(reply.value)) == 0 then cache' == cache
          else AfterStore(cache, cache', WireKey(q), NewEntry(reply.value, q.id, at)))
    else r == [] && cache' == cache
  }

  /** A live entry is served and the Worker is not asked; otherwise its reply is relayed. */
  ghost predicate Queried(
    message: seq<Byte>, q: Query, cache: Cache, cache': Cache, now: nat, reply: WorkerReply, at: nat, r: seq<Byte>)
  {
    var looked := AfterLookup(cache, WireKey(q), now);
    if WireKey(q) in looked then
      && cache' == looked && q.id < 0x1_0000 && looked[WireKey(q)].value.storedAt <= now
      && r == Hit(looked[WireKey(q)], q.id, now)
    else Relayed(message, q, looked, cache', reply, at, r)
  }

  class WireResolver {
    var wireCache: Cache

    /** The clock has not gone back since an entry was stored. */
    ghost predicate Clock(now: nat)
      reads this
    {
      forall key :: key in wireCache ==> wireCache[key].value.storedAt <= now
    }

    constructor ()
      ensures wireCache == map[]
    {
      wireCache := map[];
    }

    method ClearCache()
      modifies this
      ensures wireCache == map[]
    {
      wireCache := map[];
    }

    /** The first critical section: a live entry is served, a dead one is dropped. */
    method LookUp(key: string, id: nat, now: nat) returns (found: bool, r: seq<Byte>)
      requires Clock(now) && id < 0x1_0000
      modifies this
      ensures wireCache == AfterLookup(old(wireCache), key, now)
      ensures found == (key in wireCache)
      ensures found ==> wireCache[key].value.storedAt <= now < wireCache[key].expiresAt
      ensures found ==> r == Hit(wireCache[key], id, now)
    {
      if key !in wireCache { return false, []; }
      var entry := wireCache[key];
      if entry.expiresAt <= now {
        wireCache := wireCache - {key};
        return false, [];
      }
      return true, Aged(SetId(entry.value.response, id), AgeOf(entry, now));
    }

    /** The second critical section: an answer is kept, in place of the entry closest to its deadline if need be. */
    method Store(key: string, entry: Timed<Kept>)
      requires |wireCache| <= MAX_ENTRIES
      modifies this
      ensures |wireCache| <= MAX_ENTRIES && AfterStore(old(wireCache), wireCache, key, entry)
    {
      var room := wireCache;
      if key !in wireCache && |wireCache| >= MAX_ENTRIES {
        var victim := FindOldest(wireCache);
        room := wireCache - {victim};
      }
      WriteSize(room, key, entry);
      wireCache := room[key := entry];
    }

    /** The relay of a query the cache could not answer: the Worker's answer is checked, and kept if it may be. */
    method Relay(message: seq<Byte>, q: Query, reply: WorkerReply, at: nat) returns (r: seq<Byte>)
      requires Parse(message) == ParsedQuery(true, q) && q.id < 0x1_0000
      requires |wireCache| <= MAX_ENTRIES && Sound(wireCache)
      modifies this
      ensures |wireCache| <= MAX_ENTRIES && Sound(wireCache)
      ensures Relayed(message, q, old(wireCache), wireCache, reply, at, r)
    {
      if reply.None? { return []; }
      var answers, info := CheckAnswer(reply.value, q.question);
      if !answers { return []; }
      AcceptedIsReply(message, reply.value);
      r := SetId(reply.value, q.id);
      if Lifetime(info) != 0 {
        StoredIsSourced(message, reply.value, at);
        ghost var before := wireCache;
        Store(WireKey(q), NewEntry(reply.value, q.id, at));
        StoreKeepsSound(before, wireCache, WireKey(q), NewEntry(reply.value, q.id, at));
      }
    }

    /** The whole relay of one query that is not about the Worker itself. */
    method QueryWire(message: seq<Byte>, now: nat, reply: WorkerReply, at: nat) returns (r: seq<Byte>)
      requires |wireCache| <= MAX_ENTRIES && Sound(wireCache) && Clock(now)
      modifies this
      ensures |wireCache| <= MAX_ENTRIES && Sound(wireCache)
      ensures r != [] ==> ReplyTo(message, r)
      ensures !Parse(message).ok ==> r == [] && wireCache == old(wireCache)
      ensures Parse(message).ok ==> Queried(message, Parse(message).query, old(wireCache), wireCache, now, reply, at, r)
    {
      var ok, q := ParseQuery(message);
      if !ok { return []; }
      QueryId(message);
      LookupKeepsSound(wireCache, WireKey(q), now);
      LookupShrinks(wireCache, WireKey(q), now);
      var found, hit := LookUp(WireKey(q), q.id, now);
      if found {
        HitIsReply(wireCache[WireKey(q)], message, now);
        return hit;
      }
      r := Relay(message, q, reply, at);
    }
  }

  lemma {:induction false} LookupShrinks(cache: Cache, key: string, now: nat)
    ensures |AfterLookup(cache, key, now)| <= |cache|
  {
    SubsetSize(AfterLookup(cache, key, now).Keys, cache.Keys);
  }

  // ---- every run ----

  /** One critical section of one thread; a store remembers which query and which answer it came from. */
  datatype Event =
    | LookedUp(key: string, now: nat)
    | Stored(key: string, entry: Timed<Kept>, message: seq<Byte>, body: seq<Byte>)
    | Cleared

  ghost predicate Step(cache: Cache, event: Event, cache': Cache) {
    match event
    case LookedUp(key, now) => cache' == AfterLookup(cache, key, now)
    case Stored(key, entry, _, _) => AfterStore(cache, cache', key, entry)
    case Cleared => cache' == map[]
  }

  /** What is stored was accepted for a query with that key. */
  ghost predicate Genuine(event: Event) {
    event.Stored? ==> KeptFor(event.key, event.entry, event.message, event.body)
  }

  /** The caches a run goes through, from an empty one. */
  ghost predicate Run(events: seq<Event>, caches: seq<Cache>) {
    && |caches| == |events| + 1 && caches[0] == map[]
    && forall i :: 0 <= i < |events| ==> StepAt(events, caches, i)
  }

  ghost predicate StepAt(events: seq<Event>, caches: seq<Cache>, i: nat)
    requires i < |events| && |caches| == |events| + 1
  {
    Step(caches[i], events[i], caches[i + 1])
  }

  lemma {:induction false} UntouchedKey(cache: Cache, event: Event, cache': Cache, key: string)
    requires Step(cache, event, cache') && key in cache' && !(event.Stored? && event.key == key)
    ensures key in cache && cache'[key] == cache[key] && !event.Cleared?
  {
  }

  /** The store event that put an entry into the cache: the last one under its key, not cleared since. */
  lemma {:induction false} EntryHasSource(events: seq<Event>, caches: seq<Cache>, n: nat, key: string) returns (j: nat)
    requires Run(events, caches) && n <= |events| && key in caches[n]
    ensures j < n && events[j].Stored? && events[j].key == key && caches[n][key] == events[j].entry
    ensures forall k :: j < k < n ==> !events[k].Cleared? && !(events[k].Stored? && events[k].key == key)
  {
    if n > 0 {
      assert StepAt(events, caches, n - 1);
      if events[n - 1].Stored? && events[n - 1].key == key {
        j := n - 1;
      } else {
        UntouchedKey(caches[n - 1], events[n - 1], caches[n], key);
        j := EntryHasSource(events, caches, n - 1, key);
      }
    }
  }

  /** Every hit in every run is as good as an answer that was accepted under its key and not cleared since. */
  lemma {:induction false} HitRefinesAskingAgain(
    events: seq<Event>, caches: seq<Cache>, n: nat, message: seq<Byte>, now: nat) returns (j: nat)
    requires Run(events, caches) && n <= |events| && forall i :: 0 <= i < |events| ==> Genuine(events[i])
    requires Parse(message).ok && Parse(message).query.id < 0x1_0000
    requires Live(caches[n], WireKey(Parse(message).query), now)
    ensures j < n && events[j].Stored? && forall k :: j < k < n ==> !events[k].Cleared?
    ensures caches[n][WireKey(Parse(message).query)] == events[j].entry
    ensures AsGoodAs(events[j].message, events[j].body, events[j].entry.value.storedAt, message, now,
                     Hit(events[j].entry, Parse(message).query.id, now))
  {
    var key := WireKey(Parse(message).query);
    j := EntryHasSource(events, caches, n, key);
    assert Genuine(events[j]);
    HitIsServed(key, events[j].entry, events[j].message, events[j].body, message, now);
  }

  predicate Live(cache: Cache, key: string, now: nat) {
    key in cache && cache[key].value.storedAt <= now < cache[key].expiresAt
  }
}
