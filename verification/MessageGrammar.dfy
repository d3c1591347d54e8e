/**
  What a walkable DNS message is, told by where its labels, questions and records start.

  Main results, for every byte string: a name ends where a chain of labels leads to a zero byte or a pointer, and
  nowhere else; and a message is walkable if and only if its counts can fit and chains of as many complete
  questions and records as the header says lead from its header on, in which case the walk finds exactly the
  type and the place of the TTL of each of those records.
 */
module MessageGrammar {
  import opened Basics
  import opened Bytes
  import opened DnsMessage

  // ---- names ----

  /** A label of 1 to 63 bytes stands at `p`, and what follows it is at `next`. */
  predicate LabelAt(d: seq<Byte>, p: nat, next: nat) {
    p < |d| && 1 <= d[p] <= 63 && next == p + 1 + d[p] as int
  }

  /** A name ends here: with a zero byte, or with a pointer. */
  predicate LastAt(d: seq<Byte>, p: nat, next: nat) {
    p < next <= |d| && ((d[p] == 0 && next == p + 1) || (d[p] >= 192 && next == p + 2))
  }

  ghost predicate NameChain(d: seq<Byte>, from: nat, starts: seq<nat>, next: nat) {
    && |starts| > 0 && starts[0] == from && LastAt(d, starts[|starts| - 1], next)
    && forall i :: 0 <= i < |starts| - 1 ==> LabelAt(d, starts[i], starts[i + 1])
  }

  /** A name stands at `from` and ends in front of `next`. */
  ghost predicate NameAt(d: seq<Byte>, from: nat, next: nat) {
    exists starts :: NameChain(d, from, starts, next)
  }

  lemma {:induction false} ChainIsSkipped(d: seq<Byte>, from: nat, starts: seq<nat>, next: nat)
    requires NameChain(d, from, starts, next)
    ensures SkipName(d, from) == next
    decreases |starts|
  {
    if |starts| > 1 {
      assert LabelAt(d, starts[0], starts[1]);
      var rest := starts[1..];
      forall i | 0 <= i < |rest| - 1 ensures LabelAt(d, rest[i], rest[i + 1]) {
        assert LabelAt(d, starts[i + 1], starts[i + 2]);
      }
      ChainIsSkipped(d, starts[1], rest, next);
    }
  }

  lemma {:induction false} SkippedIsChain(d: seq<Byte>, from: nat) returns (starts: seq<nat>)
    requires SkipName(d, from) >= 0
    ensures NameChain(d, from, starts, SkipName(d, from))
    decreases |d| - from
  {
    if 1 <= d[from] <= 63 {
      var rest := SkippedIsChain(d, from + 1 + d[from] as int);
      starts := [from] + rest;
      forall i | 0 <= i < |starts| - 1 ensures LabelAt(d, starts[i], starts[i + 1]) {
        if i > 0 { assert LabelAt(d, rest[i - 1], rest[i]); }
      }
    } else {
      starts := [from];
    }
  }

  /** The scan finds the end of a name, and finds it only where there is a name. */
  lemma {:induction false} NameExactly(d: seq<Byte>, from: nat, next: nat)
    ensures NameAt(d, from, next) <==> SkipName(d, from) == next
  {
    if starts :| NameChain(d, from, starts, next) { ChainIsSkipped(d, from, starts, next); }
    if SkipName(d, from) == next {
      var starts := SkippedIsChain(d, from);
    }
  }

  // ---- questions and records ----

  /** A complete question stands at `p` and ends in front of `next`. */
  ghost predicate QuestionAt(d: seq<Byte>, p: nat, next: nat) {
    4 <= next <= |d| && NameAt(d, p, next - 4)
  }

  /** A complete record stands at `p`, with its fixed part at `body`, and ends in front of `next`. */
  ghost predicate RecordAt(d: seq<Byte>, p: nat, body: nat, next: nat) {
    NameAt(d, p, body) && body + 10 <= next <= |d| && next == body + 10 + Read16(d, body + 8)
  }

  /** `n` questions from `from` on end at `end`. */
  ghost predicate Questions(d: seq<Byte>, from: nat, n: nat, starts: seq<nat>, end: nat) {
    && |starts| == n + 1 && starts[0] == from && starts[n] == end
    && forall i :: 0 <= i < n ==> QuestionAt(d, starts[i], starts[i + 1])
  }

  /** Records from `from` on, with their fixed parts at these places. */
  ghost predicate RecordsFrom(d: seq<Byte>, from: nat, starts: seq<nat>, bodies: seq<nat>) {
    && |starts| == |bodies| + 1 && starts[0] == from
    && forall i :: 0 <= i < |bodies| ==> RecordAt(d, starts[i], bodies[i], starts[i + 1])
  }

  lemma {:induction false} QuestionsAreSkipped(d: seq<Byte>, from: nat, n: nat, starts: seq<nat>, end: nat)
    requires from <= |d| && Questions(d, from, n, starts, end)
    ensures SkipQuestions(d, n, from) == end
    decreases n
  {
    if n > 0 {
      assert QuestionAt(d, starts[0], starts[1]);
      NameExactly(d, from, starts[1] - 4);
      var rest := starts[1..];
      forall i | 0 <= i < n - 1 ensures QuestionAt(d, rest[i], rest[i + 1]) {
        assert QuestionAt(d, starts[i + 1], starts[i + 2]);
      }
      QuestionsAreSkipped(d, starts[1], n - 1, rest, end);
    }
  }

  lemma {:induction false} SkippedAreQuestions(d: seq<Byte>, from: nat, n: nat) returns (starts: seq<nat>)
    requires from <= |d| && SkipQuestions(d, n, from) >= 0
    ensures Questions(d, from, n, starts, SkipQuestions(d, n, from))
    decreases n
  {
    if n == 0 {
      starts := [from];
    } else {
      var next := SkipName(d, from) + 4;
      NameExactly(d, from, next - 4);
      var rest := SkippedAreQuestions(d, next, n - 1);
      starts := [from] + rest;
      forall i | 0 <= i < n ensures QuestionAt(d, starts[i], starts[i + 1]) {
        if i > 0 { assert QuestionAt(d, rest[i - 1], rest[i]); }
      }
    }
  }

  /** The walk lists these records, from number `i` of the counts on. */
  ghost predicate Lists(d: seq<Byte>, refs: seq<RecordRef>, bodies: seq<nat>) {
    && |refs| == |bodies|
    && forall j :: 0 <= j < |bodies| ==> ListsAt(d, refs, bodies, j)
  }

  predicate ListsAt(d: seq<Byte>, refs: seq<RecordRef>, bodies: seq<nat>, j: nat)
    requires j < |refs| == |bodies|
  {
    bodies[j] + 10 <= |d| && refs[j].kind == Read16(d, bodies[j]) && refs[j].ttlOffset == bodies[j] + 4
  }

  lemma {:induction false} ListsGrow(
    d: seq<Byte>, ref: RecordRef, body: nat, refs: seq<RecordRef>, bodies: seq<nat>)
    requires Lists(d, refs, bodies) && body + 10 <= |d| && ref.kind == Read16(d, body) && ref.ttlOffset == body + 4
    ensures Lists(d, [ref] + refs, [body] + bodies)
  {
    forall j | 0 <= j < |bodies| + 1 ensures ListsAt(d, [ref] + refs, [body] + bodies, j) {
      if j > 0 { assert ListsAt(d, refs, bodies, j - 1); }
    }
  }

  lemma {:induction false} RecordsTail(d: seq<Byte>, from: nat, starts: seq<nat>, bodies: seq<nat>)
    requires |bodies| > 0 && RecordsFrom(d, from, starts, bodies)
    ensures RecordAt(d, from, bodies[0], starts[1]) && RecordsFrom(d, starts[1], starts[1..], bodies[1..])
  {
    assert RecordAt(d, starts[0], bodies[0], starts[1]);
    forall i | 0 <= i < |bodies[1..]| ensures RecordAt(d, starts[1..][i], bodies[1..][i], starts[1..][i + 1]) {
      assert RecordAt(d, starts[i + 1], bodies[i + 1], starts[i + 2]);
    }
  }

  lemma {:induction false} RecordsAreListed(
    d: seq<Byte>, counts: Counts, i: nat, from: nat, starts: seq<nat>, bodies: seq<nat>)
    requires from <= |d| && i + |bodies| == counts.Total() && RecordsFrom(d, from, starts, bodies)
    ensures Records(d, counts, i, from).Some? && Lists(d, Records(d, counts, i, from).value, bodies)
    decreases |bodies|
  {
    if |bodies| > 0 {
      RecordsTail(d, from, starts, bodies);
      NameExactly(d, from, bodies[0]);
      RecordsAreListed(d, counts, i + 1, starts[1], starts[1..], bodies[1..]);
      var ref := RecordRef(Read16(d, bodies[0]), counts.SectionOf(i), bodies[0] + 4);
      ListsGrow(d, ref, bodies[0], Records(d, counts, i + 1, starts[1]).value, bodies[1..]);
      assert bodies == [bodies[0]] + bodies[1..];
    }
  }

  lemma {:induction false} ListedAreRecords(d: seq<Byte>, counts: Counts, i: nat, from: nat)
    returns (starts: seq<nat>, bodies: seq<nat>)
    requires i <= counts.Total() && from <= |d| && Records(d, counts, i, from).Some?
    ensures RecordsFrom(d, from, starts, bodies) && i + |bodies| == counts.Total()
    decreases |d| - from
  {
    if i == counts.Total() {
      starts, bodies := [from], [];
    } else {
      var body := SkipName(d, from);
      var next := RecordEnd(d, body);
      NameExactly(d, from, body);
      var s, b := ListedAreRecords(d, counts, i + 1, next);
      starts, bodies := [from] + s, [body] + b;
      forall j | 0 <= j < |bodies| ensures RecordAt(d, starts[j], bodies[j], starts[j + 1]) {
        if j > 0 { assert RecordAt(d, s[j - 1], b[j - 1], s[j]); }
      }
    }
  }

  /** The questions and records that the header of the message counts. */
  ghost predicate Laid(
    d: seq<Byte>, questions: seq<nat>, questionEnd: nat, starts: seq<nat>, bodies: seq<nat>)
  {
    && |d| >= 12 && |bodies| == Read16(d, 6) + Read16(d, 8) + Read16(d, 10)
    && Read16(d, 4) * 5 + |bodies| * 11 <= |d|
    && Questions(d, 12, Read16(d, 4), questions, questionEnd) && questionEnd <= |d|
    && RecordsFrom(d, questionEnd, starts, bodies)
  }

  /** What is laid out so is walked so. */
  lemma {:induction false} LaidIsWalked(
    d: seq<Byte>, questions: seq<nat>, questionEnd: nat, starts: seq<nat>, bodies: seq<nat>)
    requires Laid(d, questions, questionEnd, starts, bodies)
    ensures Walk(d).Good? && Walk(d).questionEnd == questionEnd && Lists(d, Walk(d).records, bodies)
  {
    QuestionsAreSkipped(d, 12, Read16(d, 4), questions, questionEnd);
    RecordsAreListed(d, CountsOf(d), 0, questionEnd, starts, bodies);
  }

  /** And only what is laid out so is walked at all. */
  lemma {:induction false} WalkedIsLaid(d: seq<Byte>)
    returns (questions: seq<nat>, questionEnd: nat, starts: seq<nat>, bodies: seq<nat>)
    requires Walk(d).Good?
    ensures Laid(d, questions, questionEnd, starts, bodies) && questionEnd == Walk(d).questionEnd
    ensures Lists(d, Walk(d).records, bodies)
  {
    questionEnd := Walk(d).questionEnd;
    questions := SkippedAreQuestions(d, 12, Read16(d, 4));
    starts, bodies := ListedAreRecords(d, CountsOf(d), 0, questionEnd);
    LaidIsWalked(d, questions, questionEnd, starts, bodies);
  }
}
