/**
  What the packet loop does to the packet that carries a hello when it has taken a policy for it, and when
  it reports the policy as applied.

  Main results: whatever is sent, a receiver gets the payload; when a profile that cuts is reported as
  applied, no packet sent holds the host name, unless an overlap happens to spell its first part, which
  the program's own cover does for no name without a zero byte; for the policy of a profile this happens
  for every name of two bytes or more with segments, and for every name that a multiple of eight falls
  into with fragments. Over every run, a report is about the last arming of its connection if and only if
  its policy was taken behind that arming; then the profile that a connection tells the store of was sent
  with the name of its hello cut. A report that comes later misleads the prober, as a run shows.
 */
module PolicyApplication {
  import opened Basics
  import opened Bytes
  import opened Expiring
  import opened Fragments
  import opened PacketPolicies
  import opened Segments
  import Diagnosis
  import LearningStore
  import TlsHello

  /** A packet with its headers: `bytes` from the IP header on. */
  datatype Carrier = Carrier(bytes: seq<Byte>, ipv4: bool, ipHeader: nat, tcpHeader: nat)
  {
    /** As the packet library parsed it: headers in place, and a payload of at least two bytes. */
    predicate Parsed() {
      ipHeader + tcpHeader + 2 <= |bytes| && (ipv4 ==> ipHeader % 2 == 0)
    }

    function Payload(): (payload: seq<Byte>)
      requires Parsed()
      ensures |payload| == |bytes| - ipHeader - tcpHeader
    {
      bytes[ipHeader + tcpHeader..]
    }
  }

  /** What goes out: the packet as it is, two fragments, segments, or a decoy in front of the packet. */
  datatype Sending =
    | Whole
    | Fragmented(cut: nat, fragments: seq<seq<Byte>>)
    | Segmented(segments: seq<Segment>)
    | Decoyed(fake: seq<Byte>, sequenceOffset: int, ttl: nat, badChecksum: bool)

  /** The modes that hide the name by cutting it. */
  predicate Cutting(mode: Mode) {
    mode.ReverseOrder? || mode.SequenceOverlap? || mode.IpFragment?
  }

  /** Fragments exist in IPv4 only; an IPv6 packet is cut into segments instead. */
  predicate Fragmenting(p: Carrier, mode: Mode) {
    mode.IpFragment? && p.ipv4
  }

  /** A place in the IP payload where the packet may be cut. */
  predicate CutFits(p: Carrier, policy: Policy, m: nat)
    requires p.Parsed()
  {
    var lo, hi := LowestCut(policy.sniBegin, policy.sniEnd), HighestCut(policy.sniBegin, policy.sniEnd, |p.Payload()|);
    CutPoint(m, p.tcpHeader + lo, p.tcpHeader + hi)
  }

  function SegmentsFor(p: Carrier, policy: Policy): seq<Segment>
    requires p.Parsed()
  {
    var split := SegmentSplit(policy, |p.Payload()|);
    if policy.mode.SequenceOverlap? then Overlapped(p.Payload(), split, Overlap(policy, split), Cover(policy))
    else Reversed(p.Payload(), split)
  }

  /** One use of a policy: what is sent, and whether it is reported as applied. */
  ghost predicate Sends(p: Carrier, policy: Policy, sent: Sending, applied: bool)
    requires p.Parsed()
  {
    if Fragmenting(p, policy.mode) then
      if applied then
        && sent.Fragmented? && CutFits(p, policy, sent.cut)
        && CutInTwo(p.bytes, p.ipHeader, sent.cut, sent.fragments)
      else sent.Whole?
    else if Cutting(policy.mode) then
      && (sent.Whole? || sent == Segmented(SegmentsFor(p, policy)))
      && (applied <==> sent.Segmented? && SplitsSni(policy, SegmentSplit(policy, |p.Payload()|)))
    else
      (applied <==> sent.Decoyed?) && (sent.Whole? || sent == Decoy(policy))
  }

  /** The decoy of a policy: the cover hello, out of sequence, with a short life, or with a wrong checksum. */
  function Decoy(policy: Policy): Sending {
    Decoyed(Cover(policy), if policy.mode.FakeBadSequence? then policy.fakeSequenceDelta else 0,
            if policy.mode.FakeAutoTtl? then policy.fakeTtl else 0, policy.mode.FakeBadChecksum?)
  }

  /**
    The loop's treatment of one packet. `built` says whether the packet library built every packet it was
    asked for; if not, the packet goes out as it is.
   */
  method ApplyPolicy(p: Carrier, policy: Policy, built: bool) returns (sent: Sending, applied: bool)
    requires p.Parsed()
    ensures Sends(p, policy, sent, applied)
    ensures Fragmenting(p, policy.mode) ==>
      (applied <==> Cuttable(p.bytes, p.ipHeader, p.tcpHeader) && exists m: nat :: CutFits(p, policy, m))
    ensures !Fragmenting(p, policy.mode) ==> (sent.Whole? <==> !built)
  {
    sent, applied := Whole, false;
    if policy.mode.IpFragment? && p.ipv4 {
      sent := SendFragments(p, policy);
      applied := sent.Fragmented?;
    } else if policy.mode.ReverseOrder? || policy.mode.SequenceOverlap? || policy.mode.IpFragment? {
      var segmentPolicy := if policy.mode.IpFragment? then policy.(mode := ReverseOrder) else policy;
      var segments := BuildSegments(p.Payload(), segmentPolicy);
      if built {
        sent := Segmented(segments);
        applied := SplitsSni(policy, SegmentSplit(policy, |p.Payload()|));
      }
    } else if built {
      var fake := TlsHello.CoverHello(Octets(policy.coverSni));
      sent := Decoyed(fake, if policy.mode.FakeBadSequence? then policy.fakeSequenceDelta else 0,
                      if policy.mode.FakeAutoTtl? then policy.fakeTtl else 0, policy.mode.FakeBadChecksum?);
      applied := true;
    }
  }

  /** Two fragments, if a boundary lies inside the name and the packet may be fragmented at all. */
  method SendFragments(p: Carrier, policy: Policy) returns (sent: Sending)
    requires p.Parsed() && p.ipv4
    ensures sent.Whole? || (sent.Fragmented? && CutFits(p, policy, sent.cut))
    ensures sent.Fragmented? ==> CutInTwo(p.bytes, p.ipHeader, sent.cut, sent.fragments)
    ensures sent.Fragmented? <==>
      Cuttable(p.bytes, p.ipHeader, p.tcpHeader) && exists m: nat :: CutFits(p, policy, m)
  {
    var payload := |p.Payload()|;
    var cut := Ipv4FragmentBoundary(p.tcpHeader, policy.splitOffset, policy.sniBegin, policy.sniEnd, payload);
    if cut == 0 {
      assert forall m: nat :: !CutFits(p, policy, m);
      return Whole;
    }
    assert CutFits(p, policy, cut);
    FittingCutSplits(p, policy, cut);
    sent := SendCut(p, cut);
  }

  method SendCut(p: Carrier, cut: nat) returns (sent: Sending)
    requires p.Parsed() && p.ipv4 && RoundUp8(cut) == cut
    requires Splittable(p.bytes, p.ipHeader, p.ipHeader + cut) <==> Cuttable(p.bytes, p.ipHeader, p.tcpHeader)
    ensures sent.Whole? || (sent.Fragmented? && sent.cut == cut)
    ensures sent.Fragmented? ==> CutInTwo(p.bytes, p.ipHeader, cut, sent.fragments)
    ensures sent.Fragmented? <==> Cuttable(p.bytes, p.ipHeader, p.tcpHeader)
  {
    var fragments := CutPacket(p.bytes, p.ipHeader, cut);
    if |fragments| != 2 {
      return Whole;
    }
    return Fragmented(cut, fragments);
  }

  lemma {:induction false} RoundedAlready(n: nat)
    requires n % 8 == 0
    ensures RoundUp8(n) == n
  {
  }

  /** At a fitting cut the builder accepts exactly the packets that may be fragmented. */
  lemma {:induction false} FittingCutSplits(p: Carrier, policy: Policy, cut: nat)
    requires p.Parsed() && p.ipv4 && CutFits(p, policy, cut)
    ensures Splittable(p.bytes, p.ipHeader, p.ipHeader + cut) <==> Cuttable(p.bytes, p.ipHeader, p.tcpHeader)
    ensures RoundUp8(cut) == cut
  {
    RoundedAlready(cut);
    FitsInside(p, policy, cut);
  }

  lemma {:induction false} FitsInside(p: Carrier, policy: Policy, cut: nat)
    requires p.Parsed() && CutFits(p, policy, cut)
    ensures 0 < cut < |p.bytes| - p.ipHeader
  {
  }

  // ---- nothing is lost ----

  /** A receiver of what is sent gets the payload. */
  ghost predicate Delivers(p: Carrier, sent: Sending, laterWins: bool)
    requires p.Parsed()
  {
    match sent
    case Fragmented(cut, fragments) =>
      && |fragments| == 2 && 20 <= p.ipHeader < |fragments[0]| && p.ipHeader < |fragments[1]|
      && Reassembled(fragments[0], fragments[1], p.ipHeader) == Some(p.bytes[p.ipHeader..])
    case Segmented(segments) => Reassembles(segments, p.Payload(), laterWins)
    case _ => true
  }

  lemma {:induction false} SendingDelivers(p: Carrier, policy: Policy, sent: Sending, applied: bool, laterWins: bool)
    requires p.Parsed() && Sends(p, policy, sent, applied) && (policy.mode.SequenceOverlap? ==> laterWins)
    ensures Delivers(p, sent, laterWins)
  {
    if sent.Segmented? {
      var split := SegmentSplit(policy, |p.Payload()|);
      if policy.mode.SequenceOverlap? {
        OverlappedReassemblesExactly(p.Payload(), split, Overlap(policy, split), Cover(policy), laterWins);
      } else {
        ReversedReassembles(p.Payload(), policy, laterWins);
      }
    }
  }

  // ---- the name is cut ----

  /** Bytes that stand at `offset` of a stream hold `name` at its place `at`. */
  predicate Holds(bytes: seq<Byte>, offset: nat, name: seq<Byte>, at: nat) {
    && offset <= at && at + |name| <= offset + |bytes|
    && bytes[at - offset..at - offset + |name|] == name
  }

  /** No packet that is sent holds the name, whose place in the TCP stream is `at`. */
  ghost predicate NameIsCut(p: Carrier, sent: Sending, name: seq<Byte>, at: nat) {
    match sent
    case Fragmented(cut, fragments) =>
      && |fragments| == 2 && p.ipHeader <= |fragments[0]| && p.ipHeader <= |fragments[1]|
      && !Holds(fragments[0][p.ipHeader..], 0, name, p.tcpHeader + at)
      && !Holds(fragments[1][p.ipHeader..], cut, name, p.tcpHeader + at)
    case Segmented(segments) =>
      forall i :: 0 <= i < |segments| ==> !Holds(segments[i].payload, segments[i].offset, name, at)
    case _ => false
  }

  /** The policy knows where a name of this length is. */
  predicate NamedBy(policy: Policy, name: seq<Byte>) {
    |name| > 0 && policy.sniBegin + |name| == policy.sniEnd
  }

  /** In front of the cut, at `split`, the cover's bytes are the name's own, and behind it stands the rest. */
  predicate CoverSpells(payload: seq<Byte>, split: nat, overlap: nat, cover: seq<Byte>, name: seq<Byte>, at: nat)
    requires overlap <= split <= |payload| && at < split < at + |name|
  {
    && split - overlap <= at && at + |name| <= |payload|
    && (forall k :: 0 <= k < split - at ==> name[k] == CoverByte(cover, at + k - (split - overlap)))
    && payload[split..at + |name|] == name[split - at..]
  }

  lemma {:induction false} OverlapHoldsExactly(
    payload: seq<Byte>, split: nat, overlap: nat, cover: seq<Byte>, name: seq<Byte>, at: nat)
    requires overlap <= split <= |payload| && at < split < at + |name|
    ensures Holds(CoverBytes(cover, overlap) + payload[split..], split - overlap, name, at) <==>
      CoverSpells(payload, split, overlap, cover, name, at)
  {
    var front := split - overlap;
    if front <= at && at + |name| <= |payload| {
      var bytes := CoverBytes(cover, overlap) + payload[split..];
      var there := bytes[at - front..at - front + |name|];
      assert there[split - at..] == payload[split..at + |name|];
      assert forall k :: 0 <= k < split - at ==> there[k] == CoverByte(cover, at + k - front);
      if there[split - at..] == name[split - at..] && (forall k :: 0 <= k < split - at ==> there[k] == name[k]) {
        assert there == there[..split - at] + there[split - at..];
        assert name == name[..split - at] + name[split - at..];
        assert there[..split - at] == name[..split - at];
      }
    }
  }

  /** Under an overlap that reaches back far enough, the cover happens to spell the first part of the name. */
  predicate CoverShows(p: Carrier, policy: Policy, name: seq<Byte>)
    requires p.Parsed() && NamedBy(policy, name)
  {
    var split := SegmentSplit(policy, |p.Payload()|);
    && policy.mode.SequenceOverlap? && policy.sniBegin < split < policy.sniEnd
    && CoverSpells(p.Payload(), split, Overlap(policy, split), Cover(policy), name, policy.sniBegin)
  }

  lemma {:induction false} TwoSegments(p: Carrier, first: Segment, second: Segment, name: seq<Byte>, at: nat)
    requires !Holds(second.payload, second.offset, name, at)
    ensures NameIsCut(p, Segmented([first, second]), name, at) <==> !Holds(first.payload, first.offset, name, at)
  {
    var segments := [first, second];
    assert segments[0] == first && segments[1] == second;
  }

  /** What reaches only up to the cut, or only from it on, does not hold the name. */
  lemma {:induction false} SidesLackName(payload: seq<Byte>, split: nat, name: seq<Byte>, at: nat)
    requires split <= |payload| && at < split < at + |name|
    ensures !Holds(payload[..split], 0, name, at) && !Holds(payload[split..], split, name, at)
  {
  }

  lemma {:induction false} ReversedCuts(p: Carrier, payload: seq<Byte>, split: nat, name: seq<Byte>, at: nat)
    requires split <= |payload| && at < split < at + |name|
    ensures NameIsCut(p, Segmented(Reversed(payload, split)), name, at)
  {
    SidesLackName(payload, split, name, at);
    TwoSegments(p, Segment(split, payload[split..]), Segment(0, payload[..split]), name, at);
  }

  lemma {:induction false} OverlappedCutsExactly(
    p: Carrier, payload: seq<Byte>, split: nat, overlap: nat, cover: seq<Byte>, name: seq<Byte>, at: nat)
    requires overlap <= split <= |payload| && at < split < at + |name|
    ensures NameIsCut(p, Segmented(Overlapped(payload, split, overlap, cover)), name, at) <==>
      !CoverSpells(payload, split, overlap, cover, name, at)
  {
    SidesLackName(payload, split, name, at);
    OverlapHoldsExactly(payload, split, overlap, cover, name, at);
    var first := Segment(split - overlap, CoverBytes(cover, overlap) + payload[split..]);
    TwoSegments(p, first, Segment(0, payload[..split]), name, at);
  }

  lemma {:induction false} SegmentsCutExactly(p: Carrier, policy: Policy, name: seq<Byte>)
    requires p.Parsed() && NamedBy(policy, name) && SplitsSni(policy, SegmentSplit(policy, |p.Payload()|))
    ensures NameIsCut(p, Segmented(SegmentsFor(p, policy)), name, policy.sniBegin) <==> !CoverShows(p, policy, name)
  {
    var split := SegmentSplit(policy, |p.Payload()|);
    if policy.mode.SequenceOverlap? {
      var overlap := Overlap(policy, split);
      OverlappedCutsExactly(p, p.Payload(), split, overlap, Cover(policy), name, policy.sniBegin);
    } else {
      ReversedCuts(p, p.Payload(), split, name, policy.sniBegin);
    }
  }

  /**
    When a profile that cuts is reported as applied, no packet holds the name, if and only if the overlap
    does not spell its first part; without an overlap, always.
   */
  lemma {:induction false} AppliedMeansCutExactly(p: Carrier, policy: Policy, sent: Sending, name: seq<Byte>)
    requires p.Parsed() && Sends(p, policy, sent, true) && Cutting(policy.mode) && NamedBy(policy, name)
    ensures NameIsCut(p, sent, name, policy.sniBegin) <==> !CoverShows(p, policy, name)
  {
    if !Fragmenting(p, policy.mode) { SegmentsCutExactly(p, policy, name); }
  }

  lemma {:induction false} OwnCoverByte(policy: Policy)
    requires policy.coverSni == DEFAULT_POLICY.coverSni
    ensures CoverByte(Cover(policy), 7) == 0
  {
    var name := Octets(policy.coverSni);
    TlsHello.CoverHelloLayout(name);
    HighByteIsZero(TlsHello.CoverHello(name), 7);
  }

  lemma {:induction false} HighByteIsZero(d: seq<Byte>, i: nat)
    requires i + 1 < |d| && Read16(d, i) < 256
    ensures CoverByte(d, i) == 0
  {
    SmallRemainder(i, |d|);
  }

  lemma {:induction false} SmallRemainder(i: nat, n: nat)
    requires i < n
    ensures i % n == i
  {
  }

  /** The program's own cover spells no name without a zero byte. */
  lemma {:induction false} OwnCoverHides(p: Carrier, policy: Policy, name: seq<Byte>)
    requires p.Parsed() && NamedBy(policy, name) && policy.sniBegin >= 8 && 0 !in name
    requires policy.coverSni == DEFAULT_POLICY.coverSni && policy.overlapBytes == DEFAULT_POLICY.overlapBytes
    ensures !CoverShows(p, policy, name)
  {
    OwnCoverByte(policy);
    var split := SegmentSplit(policy, |p.Payload()|);
    if policy.sniBegin < split < policy.sniEnd {
      var k := split - 1 - policy.sniBegin;
      assert name[k] in name;
      assert policy.sniBegin + k - (split - Overlap(policy, split)) == 7;
    }
  }

  /** One with a zero byte that it spells: a hello that names a zero and a `b`, under the policy made for it. */
  lemma {:induction false} ZeroByteIsSpelled(p: Carrier, sent: Sending)
    requires p.Parsed() && p.Payload() == TlsHello.CoverHello([0, 98]) && Sends(p, SAMPLE_POLICY, sent, true)
    ensures TlsHello.Parse(p.Payload()).status == TlsHello.Ok
    ensures PolicyForProfile("packet-seqovl", TlsHello.Parse(p.Payload()).hello) == Some(SAMPLE_POLICY)
    ensures !NameIsCut(p, sent, [0, 98], 61)
  {
    TlsHello.CoverHelloParsesBack([0, 98]);
    OverlapProfile(TlsHello.Parse(p.Payload()).hello);
    TlsHello.CoverHelloLayout([0, 98]);
    OwnCoverByte(SAMPLE_POLICY);
    SpellsZero(p.Payload(), Cover(SAMPLE_POLICY));
    AppliedMeansCutExactly(p, SAMPLE_POLICY, sent, [0, 98]);
  }

  lemma {:induction false} SpellsZero(payload: seq<Byte>, cover: seq<Byte>)
    requires |payload| == 70 && payload[61..63] == [0, 98] && CoverByte(cover, 7) == 0
    ensures CoverSpells(payload, 62, 8, cover, [0, 98], 61)
  {
    assert payload[62] == payload[61..63][1];
    assert payload[62..63] == [0, 98][1..];
  }

  // ---- for which names it works ----

  /** The packet holds a whole hello, and the policy is the one of a profile for it. */
  ghost predicate PolicyOf(p: Carrier, profile: string, policy: Policy)
    requires p.Parsed()
  {
    TlsHello.Parse(p.Payload()).status == TlsHello.Ok
    && PolicyForProfile(profile, TlsHello.Parse(p.Payload()).hello) == Some(policy)
  }

  /** Cutting a hello into segments counts if and only if it has no name, or one of at least two bytes. */
  lemma {:induction false} SegmentsApplyExactly(
    p: Carrier, profile: string, policy: Policy, sent: Sending, applied: bool)
    requires p.Parsed() && PolicyOf(p, profile, policy) && Sends(p, policy, sent, applied)
    requires Cutting(policy.mode) && !Fragmenting(p, policy.mode) && !sent.Whole?
    ensures applied <==> TlsHello.Parse(p.Payload()).hello.sniLength != 1
  {
    TlsHello.ParsedHelloDescribesRecord(p.Payload());
  }

  /** A multiple of eight of the IP payload falls inside the name. */
  predicate InsideName(p: Carrier, hello: TlsHello.ClientHello, m: nat) {
    m % 8 == 0 && p.tcpHeader + hello.sniOffset < m < p.tcpHeader + hello.sniOffset + hello.sniLength
  }

  /** A hello with a name can be fragmented exactly where a boundary is inside the name. */
  lemma {:induction false} BoundaryFitsExactly(p: Carrier, profile: string, policy: Policy, m: nat)
    requires p.Parsed() && PolicyOf(p, profile, policy) && TlsHello.Parse(p.Payload()).hello.HasSni()
    ensures CutFits(p, policy, m) <==> InsideName(p, TlsHello.Parse(p.Payload()).hello, m)
  {
    TlsHello.ParsedHelloDescribesRecord(p.Payload());
  }

  /** Every name of nine bytes or more has such a boundary. */
  lemma {:induction false} LongNameIsAlwaysCut(p: Carrier, hello: TlsHello.ClientHello) returns (m: nat)
    requires hello.sniLength >= 9
    ensures InsideName(p, hello, m)
  {
    var first := p.tcpHeader + hello.sniOffset + 1;
    m := first + 7 - (first + 7) % 8;
  }

  // ---- what each profile puts on the wire ----

  /** The six packet profiles, and no other name, have a policy. */
  lemma {:induction false} PacketProfilesExactly(profile: string, hello: TlsHello.ClientHello)
    ensures PolicyForProfile(profile, hello).Some? <==>
      || profile == "packet-reverse" || profile == "packet-seqovl" || profile == "packet-ipfrag"
      || profile == "packet-fake-badseq" || profile == "packet-fake-badsum" || profile == "packet-autottl"
  {
  }

  lemma {:induction false} CuttingModes()
    ensures ModeOf("packet-reverse") == ReverseOrder && ModeOf("packet-seqovl") == SequenceOverlap
    ensures ModeOf("packet-ipfrag") == IpFragment
  {
    assert "packet-reverse"[7] == 'r' && "packet-fake-badseq"[7] == 'f' && "packet-fake-badsum"[7] == 'f';
    assert "packet-autottl"[7] == 'a' && "packet-seqovl"[7] == 's' && "packet-ipfrag"[7] == 'i';
  }

  lemma {:induction false} DecoyModes()
    ensures ModeOf("packet-fake-badseq") == FakeBadSequence && ModeOf("packet-fake-badsum") == FakeBadChecksum
    ensures ModeOf("packet-autottl") == FakeAutoTtl
  {
    assert "packet-reverse"[7] == 'r' && "packet-fake-badseq"[7] == 'f' && "packet-fake-badsum"[7] == 'f';
    assert "packet-autottl"[7] == 'a' && "packet-fake-badseq"[16] == 'e' && "packet-fake-badsum"[16] == 'u';
  }

  /** The profiles that cut: two segments in reverse, two that overlap by eight bytes, or two fragments. */
  lemma {:induction false} CuttingProfilesOnWire(
    p: Carrier, hello: TlsHello.ClientHello, profile: string, policy: Policy, sent: Sending, applied: bool)
    requires p.Parsed() && PolicyForProfile(profile, hello) == Some(policy) && Sends(p, policy, sent, applied)
    requires !sent.Whole?
    ensures var payload := p.Payload();
      var split := Clamp(if hello.HasSni() then Max(2, hello.sniOffset + hello.sniLength / 2) else 2, 1, |payload| - 1);
      && (profile == "packet-reverse" || (profile == "packet-ipfrag" && !p.ipv4) ==>
            sent == Segmented([Segment(split, payload[split..]), Segment(0, payload[..split])]))
      && (profile == "packet-seqovl" ==>
            var back := if split < 8 then split else 8;
            sent == Segmented([
              Segment(split - back, CoverBytes(TlsHello.CoverHello(Octets("www.google.com")), back) + payload[split..]),
              Segment(0, payload[..split])]))
      && (profile == "packet-ipfrag" && p.ipv4 ==> sent.Fragmented?)
  {
    CuttingModes();
  }

  /** The profiles that send a decoy: ten thousand out of sequence, with a wrong checksum, or short-lived. */
  lemma {:induction false} DecoyProfilesOnWire(
    p: Carrier, hello: TlsHello.ClientHello, profile: string, policy: Policy, sent: Sending, applied: bool)
    requires p.Parsed() && PolicyForProfile(profile, hello) == Some(policy) && Sends(p, policy, sent, applied)
    requires !sent.Whole?
    ensures var cover := TlsHello.CoverHello(Octets("www.google.com"));
      && (profile == "packet-fake-badseq" ==> sent == Decoyed(cover, -10000, 0, false))
      && (profile == "packet-fake-badsum" ==> sent == Decoyed(cover, 0, 0, true))
      && (profile == "packet-autottl" ==> sent == Decoyed(cover, 0, policy.fakeTtl, false))
  {
    DecoyModes();
  }

  /** What becomes of AutoTTL without a usable sample is sent as the bad-sequence decoy. */
  lemma {:induction false} UnresolvedAutoTtlOnWire(p: Carrier, armed: Policy, sent: Sending, applied: bool)
    requires p.Parsed() && armed.coverSni == "www.google.com" && !sent.Whole?
    requires Sends(p, armed.(mode := FakeBadSequence, fakeSequenceDelta := -10000), sent, applied)
    ensures applied && sent == Decoyed(TlsHello.CoverHello(Octets("www.google.com")), -10000, 0, false)
  {
  }

  // ---- what the prober is told ----

  /** The packet for which event `i` of the registry's run reports, and the take that was for it. */
  datatype Report = NoReport | Report(carrier: Carrier, sent: Sending, take: nat)

  /** The loop reports a key only for a packet that it sent with a policy it had taken for the key. */
  ghost predicate Honest(events: seq<Event>, reports: seq<Report>, i: nat)
    requires |reports| == |events| && i < |events| && events[i].Applying?
  {
    && reports[i].Report? && reports[i].carrier.Parsed() && reports[i].take < i
    && var take := events[reports[i].take];
    && take.Taking? && take.key == events[i].key && take.result.Some?
    && Sends(reports[i].carrier, take.result.value, reports[i].sent, true)
  }

  ghost predicate HonestLoop(events: seq<Event>, reports: seq<Report>) {
    |reports| == |events| && forall i :: 0 <= i < |events| && events[i].Applying? ==> Honest(events, reports, i)
  }

  ghost predicate LastArming(events: seq<Event>, a: nat, n: nat, key: Key) {
    a < n <= |events| && Arms(events[a], key) && forall k :: a < k < n ==> !Arms(events[k], key)
  }

  /** The report at `i` is for a packet that was sent with what arming `a` put into the registry. */
  ghost predicate About(events: seq<Event>, reports: seq<Report>, i: nat, a: nat)
    requires |reports| == |events| && i < |events| && events[i].Applying?
  {
    reports[i].Report? && LastArming(events, a, reports[i].take, events[i].key)
  }

  /** A report between arming `a` and `n` whose policy was taken behind the arming. */
  ghost predicate Fresh(events: seq<Event>, reports: seq<Report>, a: nat, n: nat, i: nat, key: Key)
    requires |reports| == |events|
  {
    a < i < n <= |events| && ReportsFor(events[i], key) && reports[i].Report? && reports[i].take > a
  }

  lemma {:induction false} LastArmingIsUnique(events: seq<Event>, a: nat, b: nat, n: nat, key: Key)
    requires LastArming(events, a, n, key) && LastArming(events, b, n, key)
    ensures a == b
  {
  }

  /** A report behind arming `a` is about it if and only if its policy was taken behind it; else about an earlier. */
  lemma {:induction false} ReportIsAboutExactly(
    events: seq<Event>, states: seq<State>, reports: seq<Report>, a: nat, i: nat) returns (b: nat)
    requires Run(events, states) && HonestLoop(events, reports) && i < |events| && events[i].Applying?
    requires LastArming(events, a, i, events[i].key)
    ensures About(events, reports, i, a) <==> reports[i].take > a
    ensures About(events, reports, i, b) && (b == a || (b < a && reports[i].take < a))
  {
    assert Honest(events, reports, i);
    var j := reports[i].take;
    b := TakeHandsOutWhatWasArmed(events, states, j);
    if j > a { LastArmingIsUnique(events, a, b, j, events[i].key); }
  }

  /** A report that no arming separates from its take is about the last arming. */
  lemma {:induction false} PromptReportIsFresh(events: seq<Event>, reports: seq<Report>, a: nat, i: nat)
    requires HonestLoop(events, reports) && i < |events| && events[i].Applying?
    requires LastArming(events, a, i, events[i].key)
    requires forall k :: reports[i].Report? && reports[i].take < k < i ==> !Arms(events[k], events[i].key)
    ensures reports[i].take > a
  {
    assert Honest(events, reports, i);
  }

  /** What is sent for a fresh report is sent with the policy that was armed, if that one cuts. */
  lemma {:induction false} FreshReportUsesArmed(
    events: seq<Event>, states: seq<State>, reports: seq<Report>, a: nat, i: nat)
    requires Run(events, states) && HonestLoop(events, reports) && i < |events| && events[i].Applying?
    requires LastArming(events, a, i, events[i].key) && reports[i].Report? && reports[i].take > a
    requires Cutting(events[a].policy.mode)
    ensures reports[i].carrier.Parsed() && Sends(reports[i].carrier, events[a].policy, reports[i].sent, true)
  {
    assert Honest(events, reports, i);
    var j := reports[i].take;
    var b := TakeHandsOutWhatWasArmed(events, states, j);
    LastArmingIsUnique(events, a, b, j, events[i].key);
  }

  /** The packet of a report went out with this policy, and the name is cut unless the cover spells it. */
  ghost predicate SentCut(r: Report, policy: Policy) {
    && r.Report? && r.carrier.Parsed() && Sends(r.carrier, policy, r.sent, true)
    && forall name :: NamedBy(policy, name) ==>
         (NameIsCut(r.carrier, r.sent, name, policy.sniBegin) <==> !CoverShows(r.carrier, policy, name))
  }

  lemma {:induction false} FreshReportIsCut(
    events: seq<Event>, states: seq<State>, reports: seq<Report>, a: nat, i: nat)
    requires Run(events, states) && HonestLoop(events, reports) && i < |events| && events[i].Applying?
    requires LastArming(events, a, i, events[i].key) && reports[i].Report? && reports[i].take > a
    requires Cutting(events[a].policy.mode)
    ensures SentCut(reports[i], events[a].policy)
  {
    FreshReportUsesArmed(events, states, reports, a, i);
    var r, policy := reports[i], events[a].policy;
    forall name | NamedBy(policy, name)
      ensures NameIsCut(r.carrier, r.sent, name, policy.sniBegin) <==> !CoverShows(r.carrier, policy, name)
    {
      AppliedMeansCutExactly(r.carrier, policy, r.sent, name);
    }
  }

  /**
    Over every run: when the prober is told that its policy was applied, some packet of its connection was
    reported since it armed the policy. The report at `i` is about that arming if and only if its policy was
    taken behind the arming, any such report is found, and then the packet went out with the name cut.
   */
  lemma {:induction false} ToldAppliedMeansCut(events: seq<Event>, states: seq<State>, reports: seq<Report>, n: nat)
    returns (a: nat, i: nat)
    requires Run(events, states) && HonestLoop(events, reports)
    requires n < |events| && events[n].Asking? && events[n].answer
    ensures LastArming(events, a, n, events[n].key) && a < i < n && ReportsFor(events[i], events[n].key)
    ensures Fresh(events, reports, a, n, i, events[n].key) <==> About(events, reports, i, a)
    ensures Fresh(events, reports, a, n, i, events[n].key) <==>
      exists j: nat :: Fresh(events, reports, a, n, j, events[n].key)
    ensures Fresh(events, reports, a, n, i, events[n].key) && Cutting(events[a].policy.mode) ==>
      SentCut(reports[i], events[a].policy)
  {
    var key := events[n].key;
    a, i := AppliedOnlyIfReported(events, states, n);
    if j: nat :| Fresh(events, reports, a, n, j, key) { i := j; }
    assert LastArming(events, a, i, key);
    assert Honest(events, reports, i);
    var b := ReportIsAboutExactly(events, states, reports, a, i);
    if reports[i].take > a && Cutting(events[a].policy.mode) { FreshReportIsCut(events, states, reports, a, i); }
  }

  // ---- when the prober is misled ----

  const FIRST_SEQUENCE := Some(1)

  /** Two armings of a connection, with the loop's take in front of the second and its report behind it. */
  function LateEvents(key: Key, p1: Policy, p2: Policy): seq<Event> {
    [Arming(key, p1, 0), Taking(key, FIRST_SEQUENCE, 0, Some(p1)), Arming(key, p2, 0), Applying(key, 0),
     Asking(key, 0, true)]
  }

  function Alone(key: Key, e: Entry, expiresAt: nat): State {
    State(map[key := Timed(e, expiresAt)], map[])
  }

  lemma {:induction false} LateTake(key: Key, p: Policy)
    requires p.mode != FakeAutoTtl
    ensures Step(Alone(key, Entry(p, false, None, false), POLICY_TTL_MS), Taking(key, FIRST_SEQUENCE, 0, Some(p)),
                 Alone(key, Entry(p, true, FIRST_SEQUENCE, false), POLICY_TTL_MS))
  {
    var armed, taken := map[key := Timed(Entry(p, false, None, false), POLICY_TTL_MS)],
      map[key := Timed(Entry(p, true, FIRST_SEQUENCE, false), POLICY_TTL_MS)];
    assert armed[key := taken[key]] == taken;
  }

  lemma {:induction false} LateRun(key: Key, p1: Policy, p2: Policy) returns (states: seq<State>)
    requires Armable(key, p1) && Armable(key, p2) && p1.mode != FakeAutoTtl
    ensures Run(LateEvents(key, p1, p2), states)
  {
    var events, empty := LateEvents(key, p1, p2), State(map[], map[]);
    states := [empty, Alone(key, Entry(p1, false, None, false), POLICY_TTL_MS),
               Alone(key, Entry(p1, true, FIRST_SEQUENCE, false), POLICY_TTL_MS),
               Alone(key, Entry(p2, false, None, false), POLICY_TTL_MS),
               Alone(key, Entry(p2, false, None, true), APPLIED_TTL_MS), empty];
    LateTake(key, p1);
    assert StepAt(events, states, 0);
    assert StepAt(events, states, 1);
    assert StepAt(events, states, 2);
    assert StepAt(events, states, 3);
    assert StepAt(events, states, 4);
  }

  /**
    A report that comes behind the next arming of its connection: the decoy of `p1` was sent, and the prober
    is told that `p2` was applied, although no packet cut any name.
   */
  lemma {:induction false} LateReportMisleads(key: Key, p1: Policy, p2: Policy, carrier: Carrier)
    returns (states: seq<State>, reports: seq<Report>)
    requires key.port != 0 && p1.mode.FakeBadChecksum? && Cutting(p2.mode) && carrier.Parsed()
    ensures var events := LateEvents(key, p1, p2);
      && Run(events, states) && HonestLoop(events, reports) && events[4] == Asking(key, 0, true)
      && LastArming(events, 2, 4, key) && events[2].policy == p2
      && reports[3].Report? && reports[3].carrier == carrier && !Fresh(events, reports, 2, 4, 3, key)
    ensures forall name, at :: !NameIsCut(carrier, reports[3].sent, name, at)
  {
    states := LateRun(key, p1, p2);
    reports := [NoReport, NoReport, NoReport, Report(carrier, Decoyed(Cover(p1), 0, 0, true), 1), NoReport];
    assert Honest(LateEvents(key, p1, p2), reports, 3);
  }

  // ---- from the wire to the store ----

  /** The hello of a buffer, as `PolicyForProfile` was given it. */
  ghost predicate HelloIn(buffer: seq<Byte>) {
    TlsHello.Parse(buffer).status == TlsHello.Ok && TlsHello.Parse(buffer).hello.HasSni()
  }

  /** The policy of a cutting profile for the hello of `buffer` cuts the name's bytes, unless they hold a zero. */
  lemma {:induction false} SentCutHidesName(r: Report, profile: string, policy: Policy, buffer: seq<Byte>)
    requires HelloIn(buffer) && PolicyForProfile(profile, TlsHello.Parse(buffer).hello) == Some(policy)
    requires SentCut(r, policy)
    ensures var hello := TlsHello.Parse(buffer).hello;
      && NamedBy(policy, hello.serverName)
      && (NameIsCut(r.carrier, r.sent, hello.serverName, hello.sniOffset) <==>
          !CoverShows(r.carrier, policy, hello.serverName))
      && (0 !in hello.serverName ==> NameIsCut(r.carrier, r.sent, hello.serverName, hello.sniOffset))
      && (r.carrier.Payload() <= buffer && policy.sniEnd <= |r.carrier.Payload()| ==>
          Holds(r.carrier.Payload(), 0, hello.serverName, hello.sniOffset))
  {
    TlsHello.ParsedHelloDescribesRecord(buffer);
    var hello := TlsHello.Parse(buffer).hello;
    assert NamedBy(policy, hello.serverName);
    if 0 !in hello.serverName { OwnCoverHides(r.carrier, policy, hello.serverName); }
  }

  /**
    A connection that reports a profile which cuts armed the profile's policy and had a packet reported
    since. If a policy of such a report was taken behind the arming, then that packet went out with the
    name of the hello cut; it held the name before, if it held so much of the hello.
   */
  lemma {:induction false} ReportedProfileCutName(
    events: seq<Event>, states: seq<State>, reports: seq<Report>, n: nat, buffer: seq<Byte>,
    evidence: seq<Diagnosis.Attempt>, context: Diagnosis.Context, s: nat, rememberedFailed: bool, i: nat)
    returns (a: nat, noted: nat)
    requires Run(events, states) && HonestLoop(events, reports) && n < |events| && events[n].Asking?
    requires Diagnosis.WonAt(evidence, s) && evidence[s].profile != Diagnosis.BASELINE
    requires LearningStore.IsPacketProfile(evidence[s].profile)
    requires Cutting(ModeOf(evidence[s].profile)) && HelloIn(buffer)
    requires forall k: nat :: LastArming(events, k, n, events[n].key) ==>
      PolicyForProfile(evidence[s].profile, TlsHello.Parse(buffer).hello) == Some(events[k].policy)
    requires var calls :=
      LearningStore.Reports(true, evidence, context, evidence[s].profile, events[n].answer, rememberedFailed);
      i < |calls| && calls[i].RememberCall?
    ensures LastArming(events, a, n, events[n].key) && a < noted < n && ReportsFor(events[noted], events[n].key)
    ensures PolicyForProfile(evidence[s].profile, TlsHello.Parse(buffer).hello) == Some(events[a].policy)
    ensures Fresh(events, reports, a, n, noted, events[n].key) <==>
      exists j: nat :: Fresh(events, reports, a, n, j, events[n].key)
    ensures Fresh(events, reports, a, n, noted, events[n].key) ==>
      var hello, r := TlsHello.Parse(buffer).hello, reports[noted];
      && r.carrier.Parsed() && Sends(r.carrier, events[a].policy, r.sent, true)
      && (0 !in hello.serverName ==> NameIsCut(r.carrier, r.sent, hello.serverName, hello.sniOffset))
      && (r.carrier.Payload() <= buffer && events[a].policy.sniEnd <= |r.carrier.Payload()| ==>
          Holds(r.carrier.Payload(), 0, hello.serverName, hello.sniOffset))
  {
    LearningStore.ReportsAreInferred(true, evidence, context, s, events[n].answer, rememberedFailed, i);
    a, noted := ToldAppliedMeansCut(events, states, reports, n);
    if Fresh(events, reports, a, n, noted, events[n].key) {
      SentCutHidesName(reports[noted], evidence[s].profile, events[a].policy, buffer);
    }
  }
}
