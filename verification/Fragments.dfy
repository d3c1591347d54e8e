/**
  Splitting one IPv4 packet into two fragments so that the hostname of a ClientHello is cut.

  The main results, for every packet the builder accepts: a receiver that follows sections 3.1 and
  3.2 of RFC 791 reassembles exactly the original payload, both header checksums verify as in
  RFC 1071, and the cut chosen for a hostname is the closest possible multiple of eight inside it,
  or none exactly when there is none.
 */
module Fragments {
  import opened Basics
  import opened Bytes

  // ---- the Internet checksum ----

  /** The sum of the 16-bit words of the first `h` octets, from offset `i` on. */
  function HeaderSum(f: seq<Byte>, i: nat, h: nat): (sum: nat)
    requires h < |f|
    decreases h - i
  {
    if i >= h then 0 else Read16(f, i) + HeaderSum(f, i + 2, h)
  }

  /** Adds the carries back in until the sum fits 16 bits. */
  function Fold(sum: nat): (r: nat)
    ensures r < 0x1_0000
  {
    if sum < 0x1_0000 then sum else Fold(sum % 0x1_0000 + sum / 0x1_0000)
  }

  /** Folding takes away a multiple of 65535, and only zero folds to zero. */
  lemma {:induction false} FoldIsResidue(sum: nat) returns (k: nat)
    ensures sum == Fold(sum) + k * 0xFFFF && (Fold(sum) == 0 <==> sum == 0)
    decreases sum
  {
    k := 0;
    if sum >= 0x1_0000 {
      var high := sum / 0x1_0000;
      k := FoldIsResidue(sum % 0x1_0000 + high);
      k := k + high;
    }
  }

  /** The complement of a folded sum completes the sum to all ones. */
  lemma {:induction false} ComplementCompletes(sum: nat)
    requires sum > 0
    ensures Fold(sum + (0xFFFF - Fold(sum))) == 0xFFFF
  {
    var k := FoldIsResidue(sum);
    var whole := sum + (0xFFFF - Fold(sum));
    var j := FoldIsResidue(whole);
    OnlyAllOnes(Fold(whole), k, j);
  }

  lemma {:induction false} OnlyAllOnes(r: nat, k: nat, j: nat)
    requires r + j * 0xFFFF == (k + 1) * 0xFFFF && 0 < r <= 0xFFFF
    ensures r == 0xFFFF
  {
  }

  method InternetChecksum(f: array<Byte>, h: nat) returns (checksum: nat)
    requires h < f.Length <= 0xFFFF
    ensures checksum == 0xFFFF - Fold(HeaderSum(f[..], 0, h))
  {
    var sum: nat, i: nat := 0, 0;
    while i < h
      invariant sum + HeaderSum(f[..], i, h) == HeaderSum(f[..], 0, h)
      decreases h - i
    {
      sum := sum + Read16(f[..], i);
      i := i + 2;
    }
    ghost var total := sum;
    while sum >= 0x1_0000
      invariant Fold(sum) == Fold(total)
    {
      sum := sum % 0x1_0000 + sum / 0x1_0000;
    }
    checksum := 0xFFFF - sum;
  }

  // ---- one fragment's header ----

  /** Length and fragment fields written and the checksum field cleared. */
  function Prepared(f: seq<Byte>, field: nat): (g: seq<Byte>)
    requires 12 <= |f| <= 0xFFFF && field < 0x1_0000
    ensures |g| == |f|
  {
    f[2 := |f| / 256][3 := |f| % 256][6 := field / 256][7 := field % 256][10 := 0][11 := 0]
  }

  function Finished(f: seq<Byte>, h: nat, field: nat): (g: seq<Byte>)
    requires 12 <= h < |f| <= 0xFFFF && field < 0x1_0000
    ensures |g| == |f|
  {
    var p := Prepared(f, field);
    var checksum := 0xFFFF - Fold(HeaderSum(p, 0, h));
    p[10 := checksum / 256][11 := checksum % 256]
  }

  method FinishHeader(fragment: array<Byte>, h: nat, field: nat)
    requires 12 <= h < fragment.Length <= 0xFFFF && field < 0x1_0000
    modifies fragment
    ensures fragment[..] == Finished(old(fragment[..]), h, field)
  {
    var total := fragment.Length;
    fragment[2], fragment[3] := total / 256, total % 256;
    fragment[6], fragment[7] := field / 256, field % 256;
    fragment[10], fragment[11] := 0, 0;
    assert fragment[..] == Prepared(old(fragment[..]), field);
    var checksum := InternetChecksum(fragment, h);
    fragment[10], fragment[11] := checksum / 256, checksum % 256;
  }

  /** Writing a 16-bit word into a cleared, word-aligned place adds it to the sum. */
  lemma {:induction false} SumWithWord(p: seq<Byte>, g: seq<Byte>, at: nat, word: nat, i: nat, h: nat)
    requires |p| == |g| && h < |p| && h % 2 == 0 && at % 2 == 0 && at + 1 < h && i % 2 == 0 && word < 0x1_0000
    requires p[at] == 0 && p[at + 1] == 0
    requires g == p[at := word / 256][at + 1 := word % 256]
    ensures HeaderSum(g, i, h) == HeaderSum(p, i, h) + if i <= at then word else 0
    decreases h - i
  {
    if i < h {
      SumWithWord(p, g, at, word, i + 2, h);
    }
  }

  lemma {:induction false} FirstWordCounts(p: seq<Byte>, h: nat)
    requires 2 <= h < |p| && p[0] > 0
    ensures HeaderSum(p, 0, h) > 0
  {
  }

  /** A receiver's check of the header: the words sum to all ones in one's complement. */
  predicate ChecksumOk(g: seq<Byte>, h: nat)
    requires h < |g|
  {
    Fold(HeaderSum(g, 0, h)) == 0xFFFF
  }

  lemma {:induction false} FinishedChecksumVerifies(f: seq<Byte>, h: nat, field: nat)
    requires 12 <= h < |f| <= 0xFFFF && h % 2 == 0 && field < 0x1_0000 && f[0] > 0
    ensures ChecksumOk(Finished(f, h, field), h)
  {
    var p := Prepared(f, field);
    var checksum := 0xFFFF - Fold(HeaderSum(p, 0, h));
    FirstWordCounts(p, h);
    SumWithWord(p, Finished(f, h, field), 10, checksum, 0, h);
    ComplementCompletes(HeaderSum(p, 0, h));
  }

  // ---- the builder ----

  function RoundUp8(n: nat): (r: nat)
    ensures r % 8 == 0 && n <= r < n + 8
  {
    n + 7 - (n + 7) % 8
  }

  /** When the builder fragments: an unfragmented IPv4 packet with octets left for both sides. */
  predicate Splittable(packet: seq<Byte>, h: nat, firstEnd: nat) {
    && |packet| <= 0xFFFF && 20 <= h <= |packet| && h < firstEnd < |packet|
    && packet[0] / 16 == 4 && Read16(packet, 6) % 0x4000 == 0
    && RoundUp8(firstEnd - h) < |packet| - h
  }

  /** What is in front of the cut and what is behind it, each under a finished copy of the header. */
  function TwoFragments(packet: seq<Byte>, h: nat, n: nat): seq<seq<Byte>>
    requires 20 <= h && h + n < |packet| <= 0xFFFF && 0 < n
  {
    [Finished(packet[..h + n], h, 0x2000), Finished(packet[..h] + packet[h + n..], h, n / 8)]
  }

  method BuildIpv4Fragments(packet: seq<Byte>, h: nat, firstEnd: nat) returns (fragments: seq<seq<Byte>>)
    ensures !Splittable(packet, h, firstEnd) ==> fragments == []
    ensures Splittable(packet, h, firstEnd) ==> fragments == TwoFragments(packet, h, RoundUp8(firstEnd - h))
  {
    fragments := [];
    if |packet| > 0xFFFF || h < 20 || h > |packet| || firstEnd <= h || firstEnd >= |packet| || packet[0] / 16 != 4 {
      return;
    }
    var existing := Read16(packet, 6);
    if existing % 0x4000 != 0 {
      return;
    }
    var n := RoundUp8(firstEnd - h);
    if n == 0 || n >= |packet| - h {
      return;
    }
    var first := CopyOf(packet[..h + n]);
    var second := CopyOf(packet[..h] + packet[h + n..]);
    FinishHeader(first, h, 0x2000);
    FinishHeader(second, h, n / 8);
    fragments := [first[..], second[..]];
  }

  method CopyOf(s: seq<Byte>) returns (a: array<Byte>)
    ensures fresh(a) && a[..] == s
  {
    a := new Byte[|s|](i requires 0 <= i < |s| => s[i]);
  }

  // ---- what a receiver sees ----

  function TotalLength(f: seq<Byte>): nat requires |f| >= 4 { Read16(f, 2) }
  predicate MoreFragments(f: seq<Byte>) requires |f| >= 8 { f[6] / 32 % 2 == 1 }
  predicate ReservedOrDontFragment(f: seq<Byte>) requires |f| >= 8 { f[6] / 64 != 0 }
  function FragmentOffset(f: seq<Byte>): nat requires |f| >= 8 { f[6] as int % 32 * 256 + f[7] as int }

  /** The receiver's procedure: check each header, then place the data at eight times its offset. */
  function Reassembled(first: seq<Byte>, second: seq<Byte>, h: nat): (payload: Option<seq<Byte>>)
    requires 20 <= h < |first| && h < |second|
  {
    if && ChecksumOk(first, h) && ChecksumOk(second, h)
       && TotalLength(first) == |first| && TotalLength(second) == |second|
       && FragmentOffset(first) == 0 && MoreFragments(first) && !MoreFragments(second)
       && FragmentOffset(second) * 8 == |first| - h
    then Some(first[h..] + second[h..])
    else None
  }

  /** What a receiver reads from a finished header, and what the rest still holds. */
  ghost predicate Carries(g: seq<Byte>, f: seq<Byte>, h: nat, field: nat)
    requires 20 <= h < |f| == |g|
  {
    && ChecksumOk(g, h) && TotalLength(g) == |f| && Read16(g, 6) == field
    && g[h..] == f[h..]
    && forall i :: 0 <= i < h && i !in {2, 3, 6, 7, 10, 11} ==> g[i] == f[i]
  }

  lemma {:induction false} FinishedCarries(f: seq<Byte>, h: nat, field: nat)
    requires 20 <= h < |f| <= 0xFFFF && h % 2 == 0 && field < 0x1_0000 && f[0] > 0
    ensures Carries(Finished(f, h, field), f, h, field)
  {
    FinishedChecksumVerifies(f, h, field);
  }

  /** The two fragments reassemble to the payload that was split, and only the right flags are set. */
  lemma {:induction false} FragmentsReassemble(packet: seq<Byte>, h: nat, firstEnd: nat)
    requires Splittable(packet, h, firstEnd) && h % 2 == 0
    ensures var n := RoundUp8(firstEnd - h);
      var first, second := Finished(packet[..h + n], h, 0x2000), Finished(packet[..h] + packet[h + n..], h, n / 8);
      && Reassembled(first, second, h) == Some(packet[h..])
      && FragmentOffset(second) == n / 8 < 0x2000
      && !ReservedOrDontFragment(first) && !ReservedOrDontFragment(second)
      && forall i :: 0 <= i < h && i !in {2, 3, 6, 7, 10, 11} ==> first[i] == packet[i] && second[i] == packet[i]
  {
    var n := RoundUp8(firstEnd - h);
    var a, b := packet[..h + n], packet[..h] + packet[h + n..];
    FinishedCarries(a, h, 0x2000);
    FinishedCarries(b, h, n / 8);
    PiecesReassemble(packet, h, n, Finished(a, h, 0x2000), Finished(b, h, n / 8));
  }

  lemma {:induction false} PiecesReassemble(packet: seq<Byte>, h: nat, n: nat, first: seq<Byte>, second: seq<Byte>)
    requires 20 <= h && h + n < |packet| <= 0xFFFF && n % 8 == 0 && n > 0
    requires |first| == h + n && |second| == |packet| - n
    requires Carries(first, packet[..h + n], h, 0x2000) && Carries(second, packet[..h] + packet[h + n..], h, n / 8)
    ensures Reassembled(first, second, h) == Some(packet[h..])
    ensures FragmentOffset(second) == n / 8 < 0x2000
    ensures !ReservedOrDontFragment(first) && !ReservedOrDontFragment(second)
    ensures forall i :: 0 <= i < h && i !in {2, 3, 6, 7, 10, 11} ==> first[i] == packet[i] && second[i] == packet[i]
  {
    FieldBits(first);
    FieldBits(second);
    var a, b := packet[..h + n], packet[..h] + packet[h + n..];
    assert b[h..] == packet[h + n..];
    assert a[h..] + b[h..] == packet[h..];
  }

  /** The flags and the 13-bit offset are the parts of one 16-bit field. */
  lemma {:induction false} FieldBits(g: seq<Byte>)
    requires |g| >= 8
    ensures Read16(g, 6) == 0x2000 ==> MoreFragments(g) && FragmentOffset(g) == 0 && !ReservedOrDontFragment(g)
    ensures Read16(g, 6) < 0x2000 ==>
      !MoreFragments(g) && FragmentOffset(g) == Read16(g, 6) && !ReservedOrDontFragment(g)
  {
    var high, low := g[6] as int, g[7] as int;
    assert high * 256 + low == 0x2000 ==> high == 32 && low == 0;
    assert high * 256 + low < 0x2000 ==> high < 32;
  }

  // ---- where to cut ----

  function Distance(a: nat, b: nat): nat { if a >= b then a - b else b - a }

  /** The cuts of the TCP payload that leave octets on both sides and, if the hostname is known, fall inside it. */
  function LowestCut(sniBegin: nat, sniEnd: nat): nat {
    if sniEnd > sniBegin then Max(1, sniBegin + 1) else 1
  }

  function HighestCut(sniBegin: nat, sniEnd: nat, payloadLength: nat): int {
    if sniEnd > sniBegin && payloadLength > 0 then Min(payloadLength - 1, sniEnd - 1) else payloadLength - 1
  }

  /** A place in the IP payload where a fragment may end: a multiple of eight between the outermost cuts. */
  predicate CutPoint(m: nat, lowest: nat, highest: int) {
    lowest <= m <= highest && m % 8 == 0
  }

  ghost predicate NoCutPoint(lowest: nat, highest: int) {
    forall m: nat :: !CutPoint(m, lowest, highest)
  }

  ghost predicate Nearest(boundary: nat, target: nat, lowest: nat, highest: int) {
    CutPoint(boundary, lowest, highest) &&
    forall m: nat :: CutPoint(m, lowest, highest) ==> Distance(boundary, target) <= Distance(m, target)
  }

  method Ipv4FragmentBoundary(transportHeader: nat, splitOffset: nat, sniBegin: nat, sniEnd: nat, payloadLength: nat)
    returns (boundary: nat)
    ensures var lo, hi := LowestCut(sniBegin, sniEnd), HighestCut(sniBegin, sniEnd, payloadLength);
      var lowest, highest := transportHeader + lo, transportHeader + hi;
      if boundary == 0 then NoCutPoint(lowest, highest)
      else lo <= hi && Nearest(boundary, transportHeader + Clamp(splitOffset, lo, hi), lowest, highest)
  {
    if payloadLength < 2 {
      return 0;
    }
    var lo, hi := 1, payloadLength - 1;
    if sniEnd > sniBegin {
      lo := Max(lo, sniBegin + 1);
      hi := Min(hi, sniEnd - 1);
    }
    if lo > hi {
      return 0;
    }
    var target := transportHeader + Clamp(splitOffset, lo, hi);
    boundary := FindNeighbour(target, transportHeader + lo, transportHeader + hi);
    CloserNeighbourIsNearest(target, transportHeader + lo, transportHeader + hi, boundary);
  }

  /** Rounds down and up, and keeps the closer of those that are in range. */
  method FindNeighbour(target: nat, lowest: nat, highest: nat) returns (boundary: nat)
    requires lowest > 0
    ensures boundary == CloserNeighbour(target, lowest, highest)
  {
    var down := target - target % 8;
    var up := target + 7 - (target + 7) % 8;
    boundary := 0;
    if lowest <= down <= highest {
      boundary := down;
    }
    if lowest <= up <= highest {
      if boundary == 0 || Distance(up, target) < Distance(boundary, target) {
        boundary := up;
      }
    }
  }

  /** Of the two neighbouring multiples of eight that lie in range, the closer one; 0 if neither does. */
  function CloserNeighbour(target: nat, lowest: nat, highest: nat): (boundary: nat) {
    var down, up := target - target % 8, target + 7 - (target + 7) % 8;
    if lowest <= down <= highest then
      if lowest <= up <= highest && Distance(up, target) < Distance(down, target) then up else down
    else if lowest <= up <= highest then up
    else 0
  }

  lemma {:induction false} CloserNeighbourIsNearest(target: nat, lowest: nat, highest: nat, boundary: nat)
    requires 0 < lowest <= target <= highest && boundary == CloserNeighbour(target, lowest, highest)
    ensures if boundary == 0 then NoCutPoint(lowest, highest)
            else Nearest(boundary, target, lowest, highest)
  {
    NeighboursSuffice(target, lowest, highest);
    var down, up := target - target % 8, target + 7 - (target + 7) % 8;
    assert boundary != 0 ==> CutPoint(boundary, lowest, highest);
    assert boundary == 0 ==> !CutPoint(down, lowest, highest) && !CutPoint(up, lowest, highest);
  }

  /** Rounding down and up meets every multiple of eight from its side. */
  lemma {:induction false} NeighboursSuffice(target: nat, lowest: nat, highest: nat)
    requires lowest <= target <= highest
    ensures var down, up := target - target % 8, target + 7 - (target + 7) % 8;
      && down % 8 == 0 && up % 8 == 0 && down <= target <= up
      && forall m: nat :: CutPoint(m, lowest, highest) ==>
           if m <= target then CutPoint(down, lowest, highest) && Distance(down, target) <= Distance(m, target)
           else CutPoint(up, lowest, highest) && Distance(up, target) <= Distance(m, target)
  {
    forall m: nat | CutPoint(m, lowest, highest)
      ensures if m <= target then m <= target - target % 8 else target + 7 - (target + 7) % 8 <= m
    {
      var q := m / 8;
      assert m == 8 * q;
    }
  }

  /** A boundary the search returns cuts the packet strictly inside the hostname. */
  lemma {:induction false} BoundaryIsUsable(
    packet: seq<Byte>, h: nat, transportHeader: nat, sniBegin: nat, sniEnd: nat, boundary: nat)
    requires Cuttable(packet, h, transportHeader)
    requires CutPoint(boundary, transportHeader + LowestCut(sniBegin, sniEnd),
                      transportHeader + HighestCut(sniBegin, sniEnd, |packet| - h - transportHeader))
    ensures Splittable(packet, h, h + boundary) && RoundUp8(boundary) == boundary
    ensures sniBegin < sniEnd ==> transportHeader + sniBegin < boundary < transportHeader + sniEnd
  {
  }

  /** An unfragmented IPv4 packet with its two headers in place. */
  predicate Cuttable(packet: seq<Byte>, h: nat, transportHeader: nat) {
    && |packet| <= 0xFFFF && 20 <= h && h % 2 == 0 && h + transportHeader <= |packet|
    && packet[0] / 16 == 4 && Read16(packet, 6) % 0x4000 == 0
  }

  /** A fragment with the octets from `from` up to `limit` of the IP payload has all those from `begin` up to `end`. */
  predicate HoldsAll(from: nat, limit: nat, begin: nat, end: nat) {
    from <= begin && end <= limit
  }

  /** Two fragments with what is in front of and behind the cut, which reassemble to the whole. */
  ghost predicate CutInTwo(packet: seq<Byte>, h: nat, cut: nat, fragments: seq<seq<Byte>>) {
    && h + cut <= |packet| && |fragments| == 2 && 20 <= h < |fragments[0]| && h < |fragments[1]|
    && fragments[0][h..] == packet[h..h + cut] && fragments[1][h..] == packet[h + cut..]
    && Reassembled(fragments[0], fragments[1], h) == Some(packet[h..])
  }

  /** At a multiple of eight, the builder cuts in two or not at all. */
  method CutPacket(packet: seq<Byte>, h: nat, cut: nat) returns (fragments: seq<seq<Byte>>)
    requires RoundUp8(cut) == cut && h % 2 == 0
    ensures if Splittable(packet, h, h + cut) then CutInTwo(packet, h, cut, fragments) else fragments == []
  {
    fragments := BuildIpv4Fragments(packet, h, h + cut);
    if Splittable(packet, h, h + cut) {
      FinishedCutInTwo(packet, h, cut);
    }
  }

  lemma {:induction false} FinishedCutInTwo(packet: seq<Byte>, h: nat, cut: nat)
    requires 20 <= h && h % 2 == 0 && 0 < cut && cut % 8 == 0 && h + cut < |packet| <= 0xFFFF && packet[0] > 0
    ensures CutInTwo(packet, h, cut, TwoFragments(packet, h, cut))
  {
    var a, b := packet[..h + cut], packet[..h] + packet[h + cut..];
    FinishedCarries(a, h, 0x2000);
    FinishedCarries(b, h, cut / 8);
    CarriersCutInTwo(packet, h, cut, Finished(a, h, 0x2000), Finished(b, h, cut / 8));
  }

  lemma {:induction false} CarriersCutInTwo(packet: seq<Byte>, h: nat, cut: nat, first: seq<Byte>, second: seq<Byte>)
    requires 20 <= h && h + cut < |packet| <= 0xFFFF && cut % 8 == 0 && cut > 0
    requires |first| == h + cut && |second| == |packet| - cut
    requires Carries(first, packet[..h + cut], h, 0x2000)
    requires Carries(second, packet[..h] + packet[h + cut..], h, cut / 8)
    ensures CutInTwo(packet, h, cut, [first, second])
  {
    PiecesReassemble(packet, h, cut, first, second);
    assert packet[..h + cut][h..] == packet[h..h + cut];
    assert (packet[..h] + packet[h + cut..])[h..] == packet[h + cut..];
  }

  /**
    The packet loop's use of both: the packet is cut whenever some multiple of eight lies inside, the
    two fragments carry the payload in front of and behind the cut, and for a known hostname neither of
    them carries all of its octets.
   */
  method FragmentAtName(
    packet: seq<Byte>, h: nat, transportHeader: nat, splitOffset: nat, sniBegin: nat, sniEnd: nat)
    returns (fragments: seq<seq<Byte>>, cut: nat)
    requires Cuttable(packet, h, transportHeader)
    ensures var lowest := transportHeader + LowestCut(sniBegin, sniEnd);
      var highest := transportHeader + HighestCut(sniBegin, sniEnd, |packet| - h - transportHeader);
      if cut == 0 then fragments == [] && NoCutPoint(lowest, highest)
      else
        && CutPoint(cut, lowest, highest) && CutInTwo(packet, h, cut, fragments)
        && (sniBegin < sniEnd ==>
              && !HoldsAll(0, cut, transportHeader + sniBegin, transportHeader + sniEnd)
              && !HoldsAll(cut, |packet| - h, transportHeader + sniBegin, transportHeader + sniEnd))
  {
    cut := Ipv4FragmentBoundary(transportHeader, splitOffset, sniBegin, sniEnd, |packet| - h - transportHeader);
    fragments := [];
    if cut != 0 {
      BoundaryIsUsable(packet, h, transportHeader, sniBegin, sniEnd, cut);
      fragments := CutPacket(packet, h, cut);
    }
  }
}
