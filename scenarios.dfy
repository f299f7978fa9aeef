/**
 * What processorInfo reports for buffers written from known records: the
 * counters for any run of well-formed records, and a few concrete machines.
 */
module Scenarios {
  import opened Mask
  import opened Bytes
  import opened Relation
  import opened Layout
  import opened Encoding
  import opened Topology

  /**
   * For every buffer written from well-formed records, processorInfo
   * succeeds; it counts the core records and the package records, and the
   * logical processors are the package records' last-mask popcounts added up.
   */
  lemma SummaryOfEncoding(rs: seq<Record>)
    requires forall i :: 0 <= i < |rs| ==> WellFormed(rs[i])
    ensures Summarize(EncodeAll(rs)) == Ok(Tally(rs))
    ensures Tally(rs).cores == CountOf(rs, ProcessorCore)
    ensures Tally(rs).sockets == CountOf(rs, ProcessorPackage)
    ensures Tally(rs).logicalProcessors == PackageProcessors(rs)
  {
    RecordsOfEncoding(rs);
    assert AllDecoded(rs);
    TallyCoresAndSockets(rs);
    TallyLogicalProcessors(rs);
  }

  /** A processor record of kind `k` with one GROUP_AFFINITY in group 0, sized to fit exactly. */
  function OneGroup(k: nat, mask: uint64): (r: Record)
    requires IsProcessorKind(k)
    ensures WellFormed(r)
  {
    Record(k, HeaderSize + ArrayOffset + GroupAffinitySize, ProcessorRelationship([GroupAffinity(mask, 0)]))
  }

  lemma Pow2Small()
    ensures Pow2(1) == 2 && Pow2(2) == 4 && Pow2(4) == 16 && Pow2(8) == 256
  {
    assert Pow2(2) == 4;
    assert Pow2(4) == 16 by { assert Pow2(3) == 8; }
    assert Pow2(8) == 256 by { assert Pow2(6) == 64 by { assert Pow2(5) == 32; } assert Pow2(7) == 128; }
  }

  /** Two sockets with 4 and 8 logical processors, one core each. */
  function TwoSocketRecords(): (rs: seq<Record>)
    ensures forall i :: 0 <= i < |rs| ==> WellFormed(rs[i])
  {
    [OneGroup(ProcessorPackage, 0x0F), OneGroup(ProcessorCore, 0x03),
     OneGroup(ProcessorPackage, 0xFF), OneGroup(ProcessorCore, 0x0C)]
  }

  /** Folding those records, one at a time, gives sockets 2, cores 2, logical processors 4 + 8. */
  lemma TwoSocketTally()
    ensures Tally(TwoSocketRecords()) == Counters(0, 2, 2, 12)
  {
    var p1, c1 := OneGroup(ProcessorPackage, 0x0F), OneGroup(ProcessorCore, 0x03);
    var p2, c2 := OneGroup(ProcessorPackage, 0xFF), OneGroup(ProcessorCore, 0x0C);
    Pow2Small();
    LowOnesPopCount(4);
    LowOnesPopCount(8);
    assert [p1][..0] == [];
    assert Tally([p1]) == Counters(0, 1, 0, 4);
    assert [p1, c1][..1] == [p1];
    assert Tally([p1, c1]) == Counters(0, 1, 1, 4);
    assert [p1, c1, p2][..2] == [p1, c1];
    assert Tally([p1, c1, p2]) == Counters(0, 2, 1, 12);
    assert [p1, c1, p2, c2][..3] == [p1, c1, p2];
  }

  /**
   * The buffer holding two sockets, one with 4 logical processors (mask
   * 0x0F) and one with 8 (mask 0xFF), and two cores: processorInfo reports
   * sockets 2, cores 2, logical processors 12.
   */
  lemma TwoSockets()
    ensures Summarize(EncodeAll(TwoSocketRecords())) == Ok(Counters(0, 2, 2, 12))
  {
    SummaryOfEncoding(TwoSocketRecords());
    TwoSocketTally();
  }

  /**
   * A buffer holding one core record with mask 0x03 counts one core and no
   * logical processor: only package records add logical processors.
   */
  lemma OneCore()
    ensures Summarize(EncodeAll([OneGroup(ProcessorCore, 0x03)])) == Ok(Counters(0, 0, 1, 0))
  {
    var c := OneGroup(ProcessorCore, 0x03);
    SummaryOfEncoding([c]);
    assert [c][..0] == [];
  }

  /**
   * A package spanning two groups counts only its last group's processors:
   * masks 0xFF then 0x01 add 1 logical processor, not 9.
   */
  lemma LastGroupMaskWins()
    ensures Tally([Record(ProcessorPackage, 64, ProcessorRelationship([GroupAffinity(0xFF, 0), GroupAffinity(0x01, 1)]))])
            == Counters(0, 1, 0, 1)
  {
    Pow2Small();
    LowOnesPopCount(1);
  }

  /** A Group record with one active group of 8 processors sets the group counter to 1. */
  lemma OneActiveGroup()
    ensures Summarize(EncodeAll([Record(Group, 80, GroupRelationship(1, 1, [ProcessorGroupInfo(8, 8, 0xFF)]))]))
            == Ok(Counters(1, 0, 0, 0))
  {
    SummaryOfEncoding([Record(Group, 80, GroupRelationship(1, 1, [ProcessorGroupInfo(8, 8, 0xFF)]))]);
  }

  /**
   * The last record's Size may reach past the end of the buffer: the walk
   * stops there and keeps the record. A cache record with Size 100 in a
   * 9-byte buffer is read, and changes no counter.
   */
  lemma SizePastEnd()
    ensures Records([2, 0, 0, 0, 100, 0, 0, 0, 3]) == Ok([Record(Cache, 100, CacheRelationship(3))])
    ensures Summarize([2, 0, 0, 0, 100, 0, 0, 0, 3]) == Ok(Counters(0, 0, 0, 0))
  {
    var b: seq<uint8> := [2, 0, 0, 0, 100, 0, 0, 0, 3];
    var rec := Record(Cache, 100, CacheRelationship(3));
    assert DecodeRecord(b, 0) == Ok(rec);
    assert [rec][1..] == [] && |b| == 9;
    assert RecordsFrom(b, 100) == Ok([rec][1..]);
    RecordsFromCons(b, 0, [rec]);
  }

  /** A record whose Size is 0 stops the walk with an error instead of looping. */
  lemma ZeroSizeStops()
    ensures Records([0, 0, 0, 0, 0, 0, 0, 0]) == Err(ZeroSize(0))
  {
  }
}
