/**
  Cutting a ClientHello into TCP segments that travel out of order, and what a receiver makes of them.

  Main results: in reverse order the segments always reassemble to the payload, whichever copy of a byte
  the receiver keeps; with an overlap they do so for a receiver that keeps the later copy, and for one
  that keeps the earlier copy exactly when the cover bytes happen to be the payload's own.
 */
module Segments {
  import opened Basics
  import opened Bytes
  import opened PacketPolicies
  import TlsHello

  // ---- the policy of a profile ----

  const DEFAULT_POLICY := Policy(NoMode, 2, 8, -10000, 0, "www.google.com", 0, 0)

  function ModeOf(profile: string): Mode {
    if profile == "packet-reverse" then ReverseOrder
    else if profile == "packet-fake-badseq" then FakeBadSequence
    else if profile == "packet-fake-badsum" then FakeBadChecksum
    else if profile == "packet-autottl" then FakeAutoTtl
    else if profile == "packet-seqovl" then SequenceOverlap
    else if profile == "packet-ipfrag" then IpFragment
    else NoMode
  }

  /** The policy a packet profile stands for: cut in the middle of the name, or behind two bytes without one. */
  function PolicyForProfile(profile: string, hello: TlsHello.ClientHello): Option<Policy> {
    var mode := ModeOf(profile);
    if mode == NoMode then None
    else
      var split := if hello.HasSni() then hello.sniOffset + hello.sniLength / 2 else 2;
      var policy := DEFAULT_POLICY.(mode := mode, splitOffset := Max(2, split));
      Some(if !hello.HasSni() then policy
           else policy.(sniBegin := hello.sniOffset, sniEnd := hello.sniOffset + hello.sniLength))
  }

  /** The octets of a name. */
  function Octets(text: string): (octets: seq<Byte>)
    ensures |octets| == |text|
  {
    seq(|text|, i requires 0 <= i < |text| => text[i] as int % 256)
  }

  // ---- the segments ----

  datatype Segment = Segment(offset: nat, payload: seq<Byte>)

  /** Where a payload of `length` bytes is cut. */
  function SegmentSplit(policy: Policy, length: nat): (split: nat)
    ensures if length < 2 then split == 0 else 0 < split < length
  {
    if length < 2 then 0 else Clamp(policy.splitOffset, 1, length - 1)
  }

  predicate SplitsSni(policy: Policy, split: nat) {
    policy.sniEnd == 0 || policy.sniBegin < split < policy.sniEnd
  }

  /** The byte at `i` of the cover hello, repeated as often as needed; a space if there is none. */
  function CoverByte(cover: seq<Byte>, i: nat): Byte {
    if cover == [] then 0x20 else cover[i % |cover|]
  }

  function CoverBytes(cover: seq<Byte>, n: nat): (s: seq<Byte>)
    ensures |s| == n && forall i :: 0 <= i < n ==> s[i] == CoverByte(cover, i)
  {
    if n == 0 then [] else CoverBytes(cover, n - 1) + [CoverByte(cover, n - 1)]
  }

  function Overlap(policy: Policy, split: nat): (n: nat)
    requires split > 0
    ensures 0 < n <= split
  {
    Clamp(policy.overlapBytes, 1, split)
  }

  function Cover(policy: Policy): seq<Byte> {
    TlsHello.CoverHello(Octets(policy.coverSni))
  }

  /** The segments in the order they are sent; none for a payload that cannot be cut or another mode. */
  method BuildSegments(payload: seq<Byte>, policy: Policy) returns (segments: seq<Segment>)
    ensures |payload| < 2 || !(policy.mode.ReverseOrder? || policy.mode.SequenceOverlap?) ==> segments == []
    ensures |payload| >= 2 && policy.mode.ReverseOrder? ==>
      segments == Reversed(payload, SegmentSplit(policy, |payload|))
    ensures |payload| >= 2 && policy.mode.SequenceOverlap? ==>
      var split := SegmentSplit(policy, |payload|);
      segments == Overlapped(payload, split, Overlap(policy, split), Cover(policy))
  {
    if |payload| < 2 { return []; }
    var split := SegmentSplit(policy, |payload|);
    if policy.mode.ReverseOrder? {
      return [Segment(split, payload[split..]), Segment(0, payload[..split])];
    }
    if policy.mode.SequenceOverlap? {
      var overlap := Clamp(policy.overlapBytes, 1, split);
      var cover := TlsHello.CoverHello(Octets(policy.coverSni));
      var second: seq<Byte> := [];
      for index := 0 to overlap
        invariant second == CoverBytes(cover, index)
      {
        second := second + [if cover == [] then 0x20 else cover[index % |cover|]];
      }
      second := second + payload[split..];
      return [Segment(split - overlap, second), Segment(0, payload[..split])];
    }
    return [];
  }

  function Reversed(payload: seq<Byte>, split: nat): seq<Segment>
    requires split <= |payload|
  {
    [Segment(split, payload[split..]), Segment(0, payload[..split])]
  }

  function Overlapped(payload: seq<Byte>, split: nat, overlap: nat, cover: seq<Byte>): seq<Segment>
    requires overlap <= split <= |payload|
  {
    [Segment(split - overlap, CoverBytes(cover, overlap) + payload[split..]), Segment(0, payload[..split])]
  }

  // ---- the receiver ----

  predicate Covers(g: Segment, x: nat) {
    g.offset <= x < g.offset + |g.payload|
  }

  /** The byte at `x` of the stream once the first `k` segments have arrived. */
  function Received(segments: seq<Segment>, k: nat, x: nat, laterWins: bool): (b: Option<Byte>)
    requires k <= |segments|
  {
    if k == 0 then None
    else
      var before := Received(segments, k - 1, x, laterWins);
      var g := segments[k - 1];
      if Covers(g, x) && (laterWins || before.None?) then Some(g.payload[x - g.offset]) else before
  }

  /** The stream the receiver ends up with is the payload, neither more nor less. */
  ghost predicate Reassembles(segments: seq<Segment>, payload: seq<Byte>, laterWins: bool) {
    forall x: nat :: Received(segments, |segments|, x, laterWins) == if x < |payload| then Some(payload[x]) else None
  }

  lemma {:induction false} TwoReceived(a: Segment, b: Segment, x: nat, laterWins: bool)
    ensures Received([a, b], 2, x, laterWins) ==
      if Covers(b, x) && (laterWins || !Covers(a, x)) then Some(b.payload[x - b.offset])
      else if Covers(a, x) then Some(a.payload[x - a.offset]) else None
  {
    var segments := [a, b];
    assert Received(segments, 0, x, laterWins) == None;
    assert Received(segments, 1, x, laterWins) == if Covers(a, x) then Some(a.payload[x - a.offset]) else None;
  }

  /** Reversed segments reassemble for every receiver. */
  lemma {:induction false} ReversedReassembles(payload: seq<Byte>, policy: Policy, laterWins: bool)
    requires |payload| >= 2
    ensures Reassembles(Reversed(payload, SegmentSplit(policy, |payload|)), payload, laterWins)
  {
    var segments := Reversed(payload, SegmentSplit(policy, |payload|));
    forall x: nat ensures Received(segments, 2, x, laterWins) == if x < |payload| then Some(payload[x]) else None {
      TwoReceived(segments[0], segments[1], x, laterWins);
    }
  }

  /** When the cut lands inside the hostname, neither segment carries all of it. */
  lemma {:induction false} CutHostnameIsNeverWhole(payload: seq<Byte>, policy: Policy, i: nat)
    requires |payload| >= 2 && i < 2 && policy.sniEnd > 0 && SplitsSni(policy, SegmentSplit(policy, |payload|))
    ensures var g := Reversed(payload, SegmentSplit(policy, |payload|))[i];
      !(g.offset <= policy.sniBegin && policy.sniEnd <= g.offset + |g.payload|)
  {
  }

  /** Under the overlap, the cover bytes are the payload's own. */
  predicate CoverCoincides(payload: seq<Byte>, split: nat, overlap: nat, cover: seq<Byte>)
    requires overlap <= split <= |payload|
  {
    forall i :: 0 <= i < overlap ==> CoverByte(cover, i) == payload[split - overlap + i]
  }

  lemma {:induction false} OverlappedReceived(
    payload: seq<Byte>, split: nat, overlap: nat, cover: seq<Byte>, x: nat, laterWins: bool)
    requires overlap <= split <= |payload|
    ensures Received(Overlapped(payload, split, overlap, cover), 2, x, laterWins) ==
      if x >= |payload| then None
      else if !laterWins && split - overlap <= x < split then Some(CoverByte(cover, x - (split - overlap)))
      else Some(payload[x])
  {
    var segments := Overlapped(payload, split, overlap, cover);
    TwoReceived(segments[0], segments[1], x, laterWins);
  }

  /** Overlapped segments reassemble exactly for receivers that keep the later copy, or when the copies agree. */
  lemma {:induction false} OverlappedReassemblesExactly(
    payload: seq<Byte>, split: nat, overlap: nat, cover: seq<Byte>, laterWins: bool)
    requires overlap <= split <= |payload|
    ensures Reassembles(Overlapped(payload, split, overlap, cover), payload, laterWins) <==>
      laterWins || CoverCoincides(payload, split, overlap, cover)
  {
    var segments := Overlapped(payload, split, overlap, cover);
    forall x: nat ensures Received(segments, 2, x, laterWins) ==
      if x >= |payload| then None
      else if !laterWins && split - overlap <= x < split then Some(CoverByte(cover, x - (split - overlap)))
      else Some(payload[x])
    {
      OverlappedReceived(payload, split, overlap, cover, x, laterWins);
    }
    if Reassembles(segments, payload, laterWins) && !laterWins {
      forall i | 0 <= i < overlap ensures CoverByte(cover, i) == payload[split - overlap + i] {
        var x := split - overlap + i;
        assert Received(segments, 2, x, laterWins) == Some(payload[x]);
      }
    }
  }

  /**
    When the cut lands inside the hostname, neither overlapped segment carries all of it either: the
    second ends before the name does, and in the first the name's bytes in front of the cut, where it
    reaches back that far, are the cover's.
   */
  lemma {:induction false} OverlappedHostnameIsNeverWhole(payload: seq<Byte>, policy: Policy, cover: seq<Byte>)
    requires |payload| >= 2 && policy.sniEnd > 0 && SplitsSni(policy, SegmentSplit(policy, |payload|))
    ensures var split := SegmentSplit(policy, |payload|);
      var segments := Overlapped(payload, split, Overlap(policy, split), cover);
      && !Covers(segments[1], policy.sniEnd - 1)
      && forall x :: policy.sniBegin <= x < split && Covers(segments[0], x) ==>
           segments[0].payload[x - segments[0].offset] == CoverByte(cover, x - segments[0].offset)
  {
  }

  // ---- the overlap on a real hello ----

  /** A hello that names "ab", and the policy the program makes for it. */
  const SAMPLE_NAME: seq<Byte> := [97, 98]
  const SAMPLE_POLICY :=
    DEFAULT_POLICY.(mode := SequenceOverlap, splitOffset := 62, sniBegin := 61, sniEnd := 63)

  lemma {:induction false} OverlapProfile(hello: TlsHello.ClientHello)
    requires hello.sniOffset == 61 && hello.sniLength == 2
    ensures PolicyForProfile("packet-seqovl", hello) == Some(SAMPLE_POLICY)
  {
    assert "packet-seqovl"[7] == 's' && "packet-reverse"[7] == 'r' && "packet-fake-badseq"[7] == 'f';
    assert "packet-fake-badsum"[7] == 'f' && "packet-autottl"[7] == 'a';
  }

  /** The bytes of the sample hello and of the cover that meet at the start of the overlap. */
  lemma {:induction false} SampleBytes()
    ensures var payload := TlsHello.CoverHello(SAMPLE_NAME);
      && |payload| == 70 && payload[0] == 0x16 && payload[54] == 0
      && Cover(SAMPLE_POLICY) != [] && Cover(SAMPLE_POLICY)[0] == 0x16
  {
    TlsHello.CoverHelloLayout(SAMPLE_NAME);
    TlsHello.CoverHelloLayout(Octets(SAMPLE_POLICY.coverSni));
  }

  /** A receiver that keeps the earlier copy gets another stream than a real hello, cut by its own policy. */
  lemma {:induction false} EarlierCopyCounterexample()
    ensures var payload := TlsHello.CoverHello(SAMPLE_NAME);
      var split := SegmentSplit(SAMPLE_POLICY, |payload|);
      && TlsHello.Parse(payload).status == TlsHello.Ok
      && PolicyForProfile("packet-seqovl", TlsHello.Parse(payload).hello) == Some(SAMPLE_POLICY)
      && !Reassembles(Overlapped(payload, split, Overlap(SAMPLE_POLICY, split), Cover(SAMPLE_POLICY)), payload, false)
  {
    var payload := TlsHello.CoverHello(SAMPLE_NAME);
    TlsHello.CoverHelloParsesBack(SAMPLE_NAME);
    OverlapProfile(TlsHello.Parse(payload).hello);
    SampleBytes();
    SampleIsMisread(payload, Cover(SAMPLE_POLICY));
  }

  lemma {:induction false} SampleIsMisread(payload: seq<Byte>, cover: seq<Byte>)
    requires |payload| == 70 && payload[54] == 0 && cover != [] && cover[0] == 0x16
    ensures var split := SegmentSplit(SAMPLE_POLICY, |payload|);
      !Reassembles(Overlapped(payload, split, Overlap(SAMPLE_POLICY, split), cover), payload, false)
  {
    assert CoverByte(cover, 0) != payload[62 - 8 + 0];
    OverlappedReassemblesExactly(payload, 62, 8, cover, false);
  }
}
