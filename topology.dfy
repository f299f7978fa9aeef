/**
 * The topology aggregator: `processorInfo` (main.go:187-272) walks the buffer
 * and folds its records into four counters.
 *
 * `Step` is what one record does to the counters, `Tally` the fold over the
 * records of a buffer, and `ProcessorInfo` the imperative walk, proved equal
 * to that fold. The lemmas state what the counters end up meaning.
 */
module Topology {
  import opened Mask
  import opened Bytes
  import opened Relation
  import opened Layout

  /** numOfGroups, numofSockets, numOfcores, numOfLogicalProcessors (main.go:187-190). */
  datatype Counters = Counters(groups: nat, sockets: nat, cores: nat, logicalProcessors: nat)

  const Initial: Counters := Counters(0, 0, 0, 0)

  /**
   * `processorCount` after the loop of main.go:204-210: each iteration
   * assigns (not adds) the popcount of the current mask, so the last mask
   * wins, and no mask leaves 0.
   */
  function LastMaskCount(groupMasks: seq<GroupAffinity>): (n: nat)
    ensures n <= MaskBits
  {
    if groupMasks == [] then 0 else PopCount(groupMasks[|groupMasks| - 1].mask)
  }

  /** The counter updates of one record (main.go:211-218, 245). */
  function Step(c: Counters, r: Record): Counters {
    match r.payload
    case ProcessorRelationship(groupMasks) =>
      if r.relationship == ProcessorCore then
        c.(cores := c.cores + 1)
      else if r.relationship == ProcessorPackage then
        c.(sockets := c.sockets + 1, logicalProcessors := c.logicalProcessors + LastMaskCount(groupMasks))
      else c
    case GroupRelationship(_, activeGroupCount, _) => c.(groups := activeGroupCount)
    case _ => c
  }

  /** The counters after folding the records in order, starting from zero. */
  function Tally(rs: seq<Record>): Counters {
    if rs == [] then Initial else Step(Tally(rs[..|rs| - 1]), rs[|rs| - 1])
  }

  /** What processorInfo computes from a buffer: the tally of its records, or the decode error. */
  function Summarize(b: seq<uint8>): Result<Counters> {
    match Records(b)
    case Ok(rs) => Ok(Tally(rs))
    case Err(e) => Err(e)
  }

  /** Records decoded so far, followed by the outcome of decoding the rest. */
  function Then(done: seq<Record>, rest: Result<seq<Record>>): Result<seq<Record>> {
    match rest
    case Ok(rs) => Ok(done + rs)
    case Err(e) => Err(e)
  }

  /**
   * processorInfo (main.go:187-267) on the buffer the second system call
   * filled: the offset cursor starts at 0, each record is dispatched on its
   * relationship, and the cursor advances by the record's Size until it
   * reaches or passes the end of the buffer. Console output is left out.
   */
  method ProcessorInfo(buffer: seq<uint8>) returns (result: Result<Counters>)
    ensures result == Summarize(buffer)
  {
    var counters := Counters(0, 0, 0, 0);
    var offset: nat := 0;
    ghost var seen: seq<Record> := [];
    ThenNothing([], RecordsFrom(buffer, 0));
    while offset < |buffer|
      invariant Records(buffer) == Then(seen, RecordsFrom(buffer, offset))
      invariant counters == Tally(seen)
      decreases |buffer| - offset
    {
      var next, rec := ProcessRecord(buffer, offset, counters);
      if next.Err? {
        return Err(next.error);
      }
      var size := U32(buffer, offset + 4);
      assert (seen + [rec])[..|seen|] == seen;
      ThenAppend(seen, rec, RecordsFrom(buffer, offset + size));
      seen := seen + [rec];
      counters := next.value;
      offset := offset + size;
    }
    assert seen + [] == seen;
    result := Ok(counters);
  }

  /**
   * The body of the walk for the record at `offset` (main.go:193-264): read
   * the header, switch on the relationship, read the fixed fields and the
   * trailing array, update the counters. Returns the decode error instead
   * when a read would leave the buffer or Size is zero.
   */
  method ProcessRecord(buffer: seq<uint8>, offset: nat, c: Counters) returns (next: Result<Counters>, ghost rec: Record)
    requires offset < |buffer|
    ensures next.Err? ==> DecodeRecord(buffer, offset) == Err(next.error)
    ensures next.Ok? ==> DecodeRecord(buffer, offset) == Ok(rec) && next.value == Step(c, rec)
  {
    if |buffer| < offset + HeaderSize {
      return Err(TruncatedHeader(offset)), Record(0, 0, Unrecognized);
    }
    var relationship := U32(buffer, offset);
    var size := U32(buffer, offset + 4);
    if size == 0 {
      return Err(ZeroSize(offset)), Record(0, 0, Unrecognized);
    }
    var p := offset + HeaderSize;
    var numOfGroups, numOfSockets, numOfCores, numOfLogicalProcessors := c.groups, c.sockets, c.cores, c.logicalProcessors;
    if IsProcessorKind(relationship) {
      if |buffer| < p + ArrayOffset {
        return Err(FieldPastEnd(offset)), Record(0, 0, Unrecognized);
      }
      var groupCount := U16(buffer, p + GroupCountOffset);
      if |buffer| < p + ArrayOffset + GroupAffinitySize * groupCount {
        return Err(ArrayPastEnd(offset)), Record(0, 0, Unrecognized);
      }
      var groupMasks := ReadGroupAffinities(buffer, p + ArrayOffset, groupCount);
      var processorCount := 0;
      for i := 0 to groupCount
        invariant processorCount == LastMaskCount(groupMasks[..i])
      {
        processorCount := PrintMask(groupMasks[i].mask);
      }
      assert groupMasks[..groupCount] == groupMasks;
      if relationship == ProcessorCore {
        numOfCores := numOfCores + 1;
      }
      if relationship == ProcessorPackage {
        numOfSockets := numOfSockets + 1;
        numOfLogicalProcessors := numOfLogicalProcessors + processorCount;
      }
      rec := Record(relationship, size, ProcessorRelationship(groupMasks));
      assert groupMasks == Affinities(buffer, p + ArrayOffset, groupCount);
    } else if IsNumaKind(relationship) {
      if |buffer| < p + ArrayOffset {
        return Err(FieldPastEnd(offset)), Record(0, 0, Unrecognized);
      }
      var nodeNumber := U32(buffer, p);
      var groupCount := U16(buffer, p + GroupCountOffset);
      if |buffer| < p + ArrayOffset + GroupAffinitySize * groupCount {
        return Err(ArrayPastEnd(offset)), Record(0, 0, Unrecognized);
      }
      var groupMasks := ReadGroupAffinities(buffer, p + ArrayOffset, groupCount);
      rec := Record(relationship, size, NumaNodeRelationship(nodeNumber, groupMasks));
      assert groupMasks == Affinities(buffer, p + ArrayOffset, groupCount);
    } else if relationship == Cache {
      if |buffer| < p + 1 {
        return Err(FieldPastEnd(offset)), Record(0, 0, Unrecognized);
      }
      var level := buffer[p];
      rec := Record(relationship, size, CacheRelationship(level));
    } else if relationship == Group {
      if |buffer| < p + 4 {
        return Err(FieldPastEnd(offset)), Record(0, 0, Unrecognized);
      }
      var maximumGroupCount := U16(buffer, p);
      var activeGroupCount := U16(buffer, p + 2);
      if activeGroupCount > 0 && |buffer| < p + ArrayOffset + GroupInfoSize * activeGroupCount {
        return Err(ArrayPastEnd(offset)), Record(0, 0, Unrecognized);
      }
      numOfGroups := activeGroupCount;
      var groupInfo := ReadGroupInfos(buffer, p + ArrayOffset, activeGroupCount);
      rec := Record(relationship, size, GroupRelationship(maximumGroupCount, activeGroupCount, groupInfo));
      assert groupInfo == GroupInfos(buffer, p + ArrayOffset, activeGroupCount);
    } else {
      rec := Record(relationship, size, Unrecognized);
    }
    next := Ok(Counters(numOfGroups, numOfSockets, numOfCores, numOfLogicalProcessors));
  }

  lemma ThenNothing(done: seq<Record>, rest: Result<seq<Record>>)
    requires done == []
    ensures Then(done, rest) == rest
  {
    if rest.Ok? {
      assert [] + rest.value == rest.value;
    }
  }

  lemma ThenAppend(done: seq<Record>, rec: Record, rest: Result<seq<Record>>)
    ensures Then(done, Then([rec], rest)) == Then(done + [rec], rest)
  {
    if rest.Ok? {
      assert done + ([rec] + rest.value) == (done + [rec]) + rest.value;
    }
  }

  /** Every record has the payload shape its relationship selects, as decoding guarantees. */
  ghost predicate AllDecoded(rs: seq<Record>) {
    forall i :: 0 <= i < |rs| ==> PayloadMatches(rs[i].relationship, rs[i].payload)
  }

  lemma DecodedRecords(b: seq<uint8>, rs: seq<Record>)
    requires Records(b) == Ok(rs)
    ensures AllDecoded(rs)
  {
    RecordsAtOffsets(b, 0, rs);
  }

  /** Number of records of relationship k. */
  ghost function CountOf(rs: seq<Record>, k: nat): nat {
    |set i | 0 <= i < |rs| && rs[i].relationship == k|
  }

  lemma CountOfSnoc(rs: seq<Record>, r: Record, k: nat)
    ensures CountOf(rs + [r], k) == CountOf(rs, k) + (if r.relationship == k then 1 else 0)
  {
    var s := set i | 0 <= i < |rs| && rs[i].relationship == k;
    var s' := set i | 0 <= i < |rs| + 1 && (rs + [r])[i].relationship == k;
    if r.relationship == k {
      assert s' == s + {|rs|};
    } else {
      assert s' == s;
    }
  }

  /** A record that no counter depends on: NUMA, cache, die, module and unknown kinds. */
  predicate Neutral(r: Record) {
    r.relationship != ProcessorCore && r.relationship != ProcessorPackage && r.relationship != Group
  }

  /**
   * The core counter is the number of ProcessorCore records and the socket
   * counter the number of ProcessorPackage records.
   */
  lemma {:induction false} TallyCoresAndSockets(rs: seq<Record>)
    requires AllDecoded(rs)
    ensures Tally(rs).cores == CountOf(rs, ProcessorCore)
    ensures Tally(rs).sockets == CountOf(rs, ProcessorPackage)
  {
    if rs != [] {
      var init, last := rs[..|rs| - 1], rs[|rs| - 1];
      assert rs == init + [last];
      TallyCoresAndSockets(init);
      CountOfSnoc(init, last, ProcessorCore);
      CountOfSnoc(init, last, ProcessorPackage);
    }
  }

  /** What a record adds to the logical-processor counter: only a package record adds anything. */
  function PackageContribution(r: Record): nat {
    if r.relationship == ProcessorPackage && r.payload.ProcessorRelationship? then LastMaskCount(r.payload.groupMasks) else 0
  }

  /** Sum of the package contributions, front to back. */
  function PackageProcessors(rs: seq<Record>): nat {
    if rs == [] then 0 else PackageContribution(rs[0]) + PackageProcessors(rs[1..])
  }

  lemma {:induction false} PackageProcessorsSnoc(rs: seq<Record>, r: Record)
    ensures PackageProcessors(rs + [r]) == PackageProcessors(rs) + PackageContribution(r)
  {
    if rs != [] {
      assert (rs + [r])[1..] == rs[1..] + [r];
      PackageProcessorsSnoc(rs[1..], r);
    } else {
      assert [r][1..] == [];
    }
  }

  /**
   * The logical-processor counter is the sum, over package records, of the
   * popcount of each one's last group mask, so it is at most 64 per socket;
   * core, die, module, NUMA, cache and group records add nothing to it.
   */
  lemma {:induction false} TallyLogicalProcessors(rs: seq<Record>)
    requires AllDecoded(rs)
    ensures Tally(rs).logicalProcessors == PackageProcessors(rs)
    ensures Tally(rs).logicalProcessors <= MaskBits * Tally(rs).sockets
  {
    if rs != [] {
      var init, last := rs[..|rs| - 1], rs[|rs| - 1];
      assert rs == init + [last];
      TallyLogicalProcessors(init);
      PackageProcessorsSnoc(init, last);
    }
  }

  /** With no Group record, the group counter stays 0. */
  lemma {:induction false} TallyNoGroups(rs: seq<Record>)
    requires AllDecoded(rs)
    requires forall i :: 0 <= i < |rs| ==> rs[i].relationship != Group
    ensures Tally(rs).groups == 0
  {
    if rs != [] {
      var init := rs[..|rs| - 1];
      assert forall i :: 0 <= i < |init| ==> init[i] == rs[i];
      TallyNoGroups(init);
    }
  }

  /**
   * The group counter is the ActiveGroupCount of the last Group record: it is
   * overwritten by every Group record, not summed.
   */
  lemma {:induction false} TallyLastGroup(rs: seq<Record>, j: nat)
    requires AllDecoded(rs)
    requires j < |rs| && rs[j].relationship == Group
    requires forall i :: j < i < |rs| ==> rs[i].relationship != Group
    ensures Tally(rs).groups == rs[j].payload.activeGroupCount
  {
    var init, last := rs[..|rs| - 1], rs[|rs| - 1];
    assert forall i :: 0 <= i < |init| ==> init[i] == rs[i];
    if j < |rs| - 1 {
      TallyLastGroup(init, j);
    }
  }

  /**
   * NUMA, cache, die, module and unrecognised records change no counter:
   * removing one from anywhere in the run leaves the tally as it was.
   */
  lemma {:induction false} TallySkipsNeutral(before: seq<Record>, r: Record, after: seq<Record>)
    requires PayloadMatches(r.relationship, r.payload) && Neutral(r)
    ensures Tally(before + [r] + after) == Tally(before + after)
    decreases |after|
  {
    if after == [] {
      assert before + [r] + after == before + [r];
      assert (before + [r])[..|before|] == before;
      assert before + after == before;
    } else {
      var init, last := after[..|after| - 1], after[|after| - 1];
      TallySkipsNeutral(before, r, init);
      assert before + [r] + after == (before + [r] + init) + [last];
      assert before + after == (before + init) + [last];
      assert (before + [r] + init + [last])[..|before + [r] + init|] == before + [r] + init;
      assert (before + init + [last])[..|before + init|] == before + init;
    }
  }

  /** An empty buffer leaves all four counters at 0. */
  lemma EmptyBuffer()
    ensures Summarize([]) == Ok(Counters(0, 0, 0, 0))
  {
  }
}
