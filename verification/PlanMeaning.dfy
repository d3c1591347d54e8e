/**
  What each record profile does to a hello, told in the hello's own bytes.

  Main results, for every parsed hello with a host name: a record ends strictly inside the hello exactly where
  the profile wants a cut, namely in the middle of the name, right before it, behind the first byte, or at all
  of these and behind the name; profiles that aim at a name do not apply without one; and only the slow
  profile writes in small pieces, with twice the pause or forty milliseconds between them.
 */
module PlanMeaning {
  import opened Basics
  import opened Bytes
  import opened TlsHello
  import opened RecordSplits

  predicate AimsAtName(name: string) {
    name == "sni-mid" || name == "sni-mid-slow" || name == "sni-pre" || name == "sni-multi"
  }

  /** The profile wants a record to end at this offset of the buffer. */
  predicate WantsCut(name: string, hello: ClientHello, at: nat) {
    || ((name == "sni-mid" || name == "sni-mid-slow") && at == hello.sniOffset + hello.sniLength / 2)
    || (name == "sni-pre" && at == hello.sniOffset)
    || (name == "record-1" && at == 6)
    || (name == "sni-multi"
        && (at == 6 || at == hello.sniOffset || at == hello.sniOffset + hello.sniLength / 2
            || at == hello.sniOffset + hello.sniLength))
  }

  lemma {:induction false} NamesDiffer()
    ensures "sni-mid" != "record-1" && "sni-mid-slow" != "record-1" && "sni-pre" != "record-1"
    ensures "sni-multi" != "record-1" && "sni-pre" != "sni-mid" && |"sni-multi"| == 9 && |"sni-mid-slow"| == 12
  {
    assert "sni-mid"[0] == 's' && "record-1"[0] == 'r' && "sni-mid-slow"[0] == 's' && "sni-pre"[0] == 's';
    assert "sni-multi"[0] == 's' && "sni-pre"[4] == 'p' && "sni-mid"[4] == 'm';
  }

  /** The wanted cuts of a hello that was parsed. */
  lemma {:induction false} CutsAreWanted(name: string, hello: ClientHello, x: nat)
    requires (AimsAtName(name) || name == "record-1") && hello.sniOffset >= 9 && hello.HasSni()
    ensures var cuts := ProfileCuts(name, SniStart(hello), hello.sniLength);
      cuts.Some? && (x in cuts.value <==> WantsCut(name, hello, x + 5))
  {
    NamesDiffer();
  }

  lemma {:induction false} RecordProfileIsKnown(name: string)
    requires AimsAtName(name) || name == "record-1"
    ensures FindProfile(name).Some? && name != "none" && !StartsWith(name, "packet-")
  {
    var at := if name == "sni-mid" then 1 else if name == "record-1" then 2 else if name == "sni-pre" then 8
              else if name == "sni-multi" then 9 else 11;
    assert PROFILES[at].name == name;
    assert name[0] == 's' || name[0] == 'r';
    FoundAtLatest(name, 0, at);
  }

  /** A record ends inside the hello exactly where the profile wants it to. */
  lemma {:induction false} PlanCutsExactly(buffer: seq<Byte>, name: string, delay: nat, at: nat)
    requires Parse(buffer).status == Ok && !Parse(buffer).hello.spansRecords && Parse(buffer).hello.HasSni()
    requires AimsAtName(name) || name == "record-1"
    requires at >= 5
    ensures var hello := Parse(buffer).hello;
      var plan := BuildPlan(name, hello, delay);
      plan.Some? && at - 5 in plan.value.recordSplits <==>
        6 <= at < hello.recordTotalLength && WantsCut(name, hello, at)
  {
    var hello := Parse(buffer).hello;
    ParsedHelloDescribesRecord(buffer);
    RecordProfileIsKnown(name);
    CutsAreWanted(name, hello, at - 5);
    var cuts := ProfileCuts(name, SniStart(hello), hello.sniLength).value;
    SanitizedIsExact(cuts, hello.recordPayloadLength);
  }

  lemma {:induction false} AimingNeedsName(name: string, from: nat)
    requires from <= |PROFILES| && AimsAtName(name)
    ensures FindProfile(name, from).Some? ==> FindProfile(name, from).value.requiresSni
    decreases |PROFILES| - from
  {
    if from < |PROFILES| && PROFILES[from].name != name {
      AimingNeedsName(name, from + 1);
    } else if from < |PROFILES| {
      assert name[0] == 's';
    }
  }

  /** Without a name only the first byte can be split off. */
  lemma {:induction false} NamelessPlan(buffer: seq<Byte>, name: string, delay: nat)
    requires Parse(buffer).status == Ok && !Parse(buffer).hello.spansRecords && !Parse(buffer).hello.HasSni()
    ensures AimsAtName(name) ==> BuildPlan(name, Parse(buffer).hello, delay).None?
    ensures name == "record-1" ==>
      BuildPlan(name, Parse(buffer).hello, delay) == Some(Plan([1], 0, delay))
  {
    ParsedHelloDescribesRecord(buffer);
    if AimsAtName(name) {
      RecordProfileIsKnown(name);
      AimingNeedsName(name, 0);
    }
    if name == "record-1" { FirstByteAlone(Parse(buffer).hello, delay); }
  }

  lemma {:induction false} FirstByteAlone(hello: ClientHello, delay: nat)
    requires !hello.spansRecords && hello.recordPayloadLength >= 4
    ensures BuildPlan("record-1", hello, delay) == Some(Plan([1], 0, delay))
  {
    RecordProfileIsKnown("record-1");
    NamesDiffer();
    RecordOneNeedsNoName(0);
    var cuts := [1];
    assert Sanitized(cuts[..0], hello.recordPayloadLength) == [];
    assert Sanitized(cuts, hello.recordPayloadLength) == [1];
  }

  lemma {:induction false} RecordOneNeedsNoName(from: nat)
    requires from <= |PROFILES|
    ensures FindProfile("record-1", from).Some? ==> !FindProfile("record-1", from).value.requiresSni
    decreases |PROFILES| - from
  {
    if from < |PROFILES| && PROFILES[from].name != "record-1" {
      RecordOneNeedsNoName(from + 1);
    } else if from < |PROFILES| {
      assert "record-1"[0] == 'r';
    }
  }

  /** Only the slow profile writes four bytes at a time, with twice the pause or forty milliseconds between them. */
  lemma {:induction false} PaceExactly(name: string, hello: ClientHello, delay: nat)
    requires (AimsAtName(name) || name == "record-1") && BuildPlan(name, hello, delay).Some?
    ensures var plan := BuildPlan(name, hello, delay).value;
      if name == "sni-mid-slow"
      then plan.writeChunk == 4 && plan.delayMs == Max(delay * 2 % 0x1_0000_0000, 40)
      else plan.writeChunk == 0 && plan.delayMs == delay
  {
    RecordProfileIsKnown(name);
  }
}
