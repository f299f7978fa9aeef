/**
 * The records of the buffer that GetLogicalProcessorInformationEx fills, and
 * how one record is decoded (main.go:28-88, 192-266).
 *
 * A record is a SYSTEM_LOGICAL_PROCESSOR_INFORMATION_EX: `Relationship` (uint32
 * at +0), `Size` (uint32 at +4) and a payload at +8 whose shape depends on the
 * relationship. Offsets below are those of the Go structs on amd64, where
 * `uintptr` is 8 bytes and a trailing `interface{}` field is 8-byte aligned.
 *
 * The Go code casts pointers and never checks bounds: a trailing array may run
 * into the bytes of the next record (that is what the Go code then reads, and so
 * does this model), and a read past the end of the buffer reads memory the
 * buffer does not own. The model turns the latter into an error result, as it
 * does a zero `Size`, on which the Go loop never advances.
 */
module Layout {
  import opened Mask
  import opened Bytes
  import opened Relation

  /** Size of the header that precedes the payload (`info.data` at +8). */
  const HeaderSize: nat := 8
  /** Offset of `GroupCount` in PROCESSOR_RELATIONSHIP and NUMA_NODE_RELATIONSHIP. */
  const GroupCountOffset: nat := 22
  /** Offset of the trailing array (`GroupMasks`, `GroupInfo`) in every payload that has one. */
  const ArrayOffset: nat := 24
  /** `unsafe.Sizeof(GROUP_AFFINITY{})`: Mask (8), Group (2), Reserved (6). */
  const GroupAffinitySize: nat := 16
  /** `unsafe.Sizeof(PROCESSOR_GROUP_INFO{})`: two counts, 38 reserved bytes, the mask at +40. */
  const GroupInfoSize: nat := 48
  const GroupInfoMaskOffset: nat := 40

  /** GROUP_AFFINITY (main.go:42-46); the reserved words are never read. */
  datatype GroupAffinity = GroupAffinity(mask: uint64, group: uint16)

  /** PROCESSOR_GROUP_INFO (main.go:83-88). */
  datatype ProcessorGroupInfo =
    ProcessorGroupInfo(maximumProcessorCount: uint8, activeProcessorCount: uint8, activeProcessorMask: uint64)

  /**
   * The payload of a record, as far as the Go code reads it. Flags,
   * EfficiencyClass and the cache fields other than Level are never read.
   */
  datatype Payload =
    | ProcessorRelationship(groupMasks: seq<GroupAffinity>)
    | NumaNodeRelationship(nodeNumber: uint32, groupMasks: seq<GroupAffinity>)
    | CacheRelationship(level: uint8)
    | GroupRelationship(maximumGroupCount: uint16, activeGroupCount: uint16, groupInfo: seq<ProcessorGroupInfo>)
    | Unrecognized

  datatype Record = Record(relationship: uint32, size: uint32, payload: Payload)

  datatype DecodeError =
    | TruncatedHeader(offset: nat)  // the 8-byte header does not fit in the buffer
    | ZeroSize(offset: nat)         // Size == 0: the Go loop would never advance
    | FieldPastEnd(offset: nat)     // a fixed payload field lies past the buffer's end
    | ArrayPastEnd(offset: nat)     // the trailing array runs past the buffer's end

  datatype Result<T> = Ok(value: T) | Err(error: DecodeError)

  /** The payload shape the Go switch uses for each relationship (main.go:194-264). */
  predicate PayloadMatches(relationship: nat, p: Payload) {
    if IsProcessorKind(relationship) then p.ProcessorRelationship?
    else if IsNumaKind(relationship) then p.NumaNodeRelationship?
    else if relationship == Cache then p.CacheRelationship?
    else if relationship == Group then p.GroupRelationship? && |p.groupInfo| == p.activeGroupCount
    else p.Unrecognized?
  }

  function AffinityAt(b: seq<uint8>, at: nat): GroupAffinity
    requires at + GroupAffinitySize <= |b|
  {
    GroupAffinity(U64(b, at), U16(b, at + 8))
  }

  function GroupInfoAt(b: seq<uint8>, at: nat): ProcessorGroupInfo
    requires at + GroupInfoSize <= |b|
  {
    ProcessorGroupInfo(b[at], b[at + 1], U64(b, at + GroupInfoMaskOffset))
  }

  /** The `count` GROUP_AFFINITY entries that start at `start`, in order. */
  function Affinities(b: seq<uint8>, start: nat, count: nat): (r: seq<GroupAffinity>)
    requires count == 0 || start + GroupAffinitySize * count <= |b|
    ensures |r| == count
    ensures forall i :: 0 <= i < count ==> r[i] == AffinityAt(b, start + GroupAffinitySize * i)
  {
    seq(count, i requires 0 <= i < count => AffinityAt(b, start + GroupAffinitySize * i))
  }

  /** The `count` PROCESSOR_GROUP_INFO entries that start at `start`, in order. */
  function GroupInfos(b: seq<uint8>, start: nat, count: nat): (r: seq<ProcessorGroupInfo>)
    requires count == 0 || start + GroupInfoSize * count <= |b|
    ensures |r| == count
    ensures forall i :: 0 <= i < count ==> r[i] == GroupInfoAt(b, start + GroupInfoSize * i)
  {
    seq(count, i requires 0 <= i < count => GroupInfoAt(b, start + GroupInfoSize * i))
  }

  /**
   * Decodes the record at `offset`: its header, then the payload the switch
   * on `Relationship` reads.
   */
  function DecodeRecord(b: seq<uint8>, offset: nat): (r: Result<Record>)
    ensures r.Ok? ==> r.value.size > 0 && PayloadMatches(r.value.relationship, r.value.payload)
    ensures r.Ok? ==>
              && offset + HeaderSize <= |b|
              && r.value.relationship == U32(b, offset)
              && r.value.size == U32(b, offset + 4)
    ensures r.Err? <==> (|b| < offset + HeaderSize || U32(b, offset + 4) == 0 || !PayloadFits(b, offset))
  {
    if |b| < offset + HeaderSize then Err(TruncatedHeader(offset))
    else
      var relationship, size := U32(b, offset), U32(b, offset + 4);
      var p := offset + HeaderSize;
      if size == 0 then Err(ZeroSize(offset))
      else if IsProcessorKind(relationship) || IsNumaKind(relationship) then
        if |b| < p + ArrayOffset then Err(FieldPastEnd(offset))
        else
          var count := U16(b, p + GroupCountOffset);
          if |b| < p + ArrayOffset + GroupAffinitySize * count then Err(ArrayPastEnd(offset))
          else
            var masks := Affinities(b, p + ArrayOffset, count);
            if IsProcessorKind(relationship) then Ok(Record(relationship, size, ProcessorRelationship(masks)))
            else Ok(Record(relationship, size, NumaNodeRelationship(U32(b, p), masks)))
      else if relationship == Cache then
        if |b| < p + 1 then Err(FieldPastEnd(offset))
        else Ok(Record(relationship, size, CacheRelationship(b[p])))
      else if relationship == Group then
        if |b| < p + 4 then Err(FieldPastEnd(offset))
        else
          var active := U16(b, p + 2);
          if active > 0 && |b| < p + ArrayOffset + GroupInfoSize * active then Err(ArrayPastEnd(offset))
          else Ok(Record(relationship, size, GroupRelationship(U16(b, p), active, GroupInfos(b, p + ArrayOffset, active))))
      else Ok(Record(relationship, size, Unrecognized))
  }

  /**
   * Every byte the payload decoder reads lies inside the buffer (the header
   * is known to fit): the bounds DecodeRecord checks one by one, gathered
   * into one condition.
   */
  ghost predicate PayloadFits(b: seq<uint8>, offset: nat)
    requires offset + HeaderSize <= |b|
  {
    var relationship, p := U32(b, offset), offset + HeaderSize;
    if IsProcessorKind(relationship) || IsNumaKind(relationship) then
      p + ArrayOffset <= |b| && p + ArrayOffset + GroupAffinitySize * U16(b, p + GroupCountOffset) <= |b|
    else if relationship == Cache then p < |b|
    else if relationship == Group then
      p + 4 <= |b| && (U16(b, p + 2) == 0 || p + ArrayOffset + GroupInfoSize * U16(b, p + 2) <= |b|)
    else true
  }

  /**
   * The record walk (main.go:192, 266): starting at `offset`, decode a
   * record, advance by its Size, stop once the offset reaches or passes the
   * end of the buffer.
   */
  function RecordsFrom(b: seq<uint8>, offset: nat): (r: Result<seq<Record>>)
    decreases |b| - offset
  {
    if offset >= |b| then Ok([])
    else
      match DecodeRecord(b, offset)
      case Err(e) => Err(e)
      case Ok(rec) =>
        match RecordsFrom(b, offset + rec.size)
        case Err(e) => Err(e)
        case Ok(rest) => Ok([rec] + rest)
  }

  function Records(b: seq<uint8>): Result<seq<Record>> {
    RecordsFrom(b, 0)
  }

  /** Sum of the Size fields of a run of records: how far the cursor moves over them. */
  function TotalSize(rs: seq<Record>): nat {
    if rs == [] then 0 else rs[0].size + TotalSize(rs[1..])
  }

  /** Dropping the first record of a run: offsets into the rest shift by its Size. */
  lemma TotalSizeOfPrefix(rs: seq<Record>, i: nat)
    requires 0 < i <= |rs|
    ensures TotalSize(rs[..i]) == rs[0].size + TotalSize(rs[1..][..i - 1])
    ensures i < |rs| ==> rs[i] == rs[1..][i - 1]
  {
    assert rs[..i][1..] == rs[1..][..i - 1];
  }

  /** One step of the walk: a successful walk from an offset inside the buffer starts with the record decoded there. */
  lemma RecordsFromStep(b: seq<uint8>, offset: nat, rs: seq<Record>)
    requires RecordsFrom(b, offset) == Ok(rs) && offset < |b|
    ensures |rs| > 0 && DecodeRecord(b, offset) == Ok(rs[0])
    ensures RecordsFrom(b, offset + rs[0].size) == Ok(rs[1..])
  {
  }

  /** The converse step: a record that decodes, followed by a walk that succeeds, is a walk that succeeds. */
  lemma RecordsFromCons(b: seq<uint8>, offset: nat, rs: seq<Record>)
    requires rs != [] && offset < |b| && DecodeRecord(b, offset) == Ok(rs[0])
    requires RecordsFrom(b, offset + rs[0].size) == Ok(rs[1..])
    ensures RecordsFrom(b, offset) == Ok(rs)
  {
    assert [rs[0]] + rs[1..] == rs;
  }

  /**
   * A run of records laid out from `offset`: `find` gives each record at the
   * offset the Size of the one before it leads to.
   */
  ghost predicate ChainFrom(find: nat -> Result<Record>, offset: nat, rs: seq<Record>)
    decreases |rs|
  {
    rs == [] || (find(offset) == Ok(rs[0]) && ChainFrom(find, offset + rs[0].size, rs[1..]))
  }

  /** Records decoded one after the other from `offset`, each at the offset the Size of the one before leads to. */
  ghost predicate DecodedFrom(b: seq<uint8>, offset: nat, rs: seq<Record>) {
    ChainFrom((x: nat) => DecodeRecord(b, x), offset, rs)
  }

  /** Every record of a run laid out from `offset` starts inside the buffer: the cursor reaches each of them. */
  ghost predicate InsideFrom(b: seq<uint8>, offset: nat, rs: seq<Record>)
    decreases |rs|
  {
    rs == [] || (offset < |b| && InsideFrom(b, offset + rs[0].size, rs[1..]))
  }

  /** A record put in front of a run is its first record, and adds its Size to the run's total. */
  lemma TotalSizeCons(rec: Record, rest: seq<Record>)
    ensures ([rec] + rest)[0] == rec && ([rec] + rest)[1..] == rest
    ensures TotalSize([rec] + rest) == rec.size + TotalSize(rest)
  {
    assert ([rec] + rest)[1..] == rest;
  }

  /** Record i of a chain from `offset` is found at `offset` plus the Sizes of records 0 .. i-1. */
  lemma {:induction false} ChainAtOffsets(find: nat -> Result<Record>, offset: nat, rs: seq<Record>)
    requires ChainFrom(find, offset, rs)
    ensures forall i :: 0 <= i < |rs| ==> find(offset + TotalSize(rs[..i])) == Ok(rs[i])
    decreases |rs|
  {
    if rs != [] {
      ChainAtOffsets(find, offset + rs[0].size, rs[1..]);
      assert rs[..0] == [];
      forall i | 0 < i < |rs|
        ensures find(offset + TotalSize(rs[..i])) == Ok(rs[i])
      {
        TotalSizeOfPrefix(rs, i);
      }
    }
  }

  /** Conversely, records each found at `offset` plus the Sizes before it form a chain from `offset`. */
  lemma {:induction false} ChainFromOffsets(find: nat -> Result<Record>, offset: nat, rs: seq<Record>)
    requires forall i :: 0 <= i < |rs| ==> find(offset + TotalSize(rs[..i])) == Ok(rs[i])
    ensures ChainFrom(find, offset, rs)
    decreases |rs|
  {
    if rs != [] {
      assert rs[..0] == [];
      var rest := rs[1..];
      forall i | 0 <= i < |rest|
        ensures find(offset + rs[0].size + TotalSize(rest[..i])) == Ok(rest[i])
      {
        TotalSizeOfPrefix(rs, i + 1);
      }
      ChainFromOffsets(find, offset + rs[0].size, rest);
    }
  }

  /** Record i of a run decoded from `offset` is decoded at `offset` plus the Sizes of records 0 .. i-1. */
  lemma DecodedAtOffsets(b: seq<uint8>, offset: nat, rs: seq<Record>)
    requires DecodedFrom(b, offset, rs)
    ensures forall i :: 0 <= i < |rs| ==> DecodeRecord(b, offset + TotalSize(rs[..i])) == Ok(rs[i])
  {
    ChainAtOffsets((x: nat) => DecodeRecord(b, x), offset, rs);
  }

  /** Conversely, records each decoded at `offset` plus the Sizes before it are decoded from `offset`. */
  lemma DecodedFromOffsets(b: seq<uint8>, offset: nat, rs: seq<Record>)
    requires forall i :: 0 <= i < |rs| ==> DecodeRecord(b, offset + TotalSize(rs[..i])) == Ok(rs[i])
    ensures DecodedFrom(b, offset, rs)
  {
    ChainFromOffsets((x: nat) => DecodeRecord(b, x), offset, rs);
  }

  /** Every record of a run inside the buffer from `offset` starts at `offset` plus the Sizes before it, inside the buffer. */
  lemma {:induction false} InsideAtOffsets(b: seq<uint8>, offset: nat, rs: seq<Record>)
    requires InsideFrom(b, offset, rs)
    ensures forall i :: 0 <= i < |rs| ==> offset + TotalSize(rs[..i]) < |b|
    decreases |rs|
  {
    if rs != [] {
      InsideAtOffsets(b, offset + rs[0].size, rs[1..]);
      assert rs[..0] == [];
      forall i | 0 < i < |rs|
        ensures offset + TotalSize(rs[..i]) < |b|
      {
        TotalSizeOfPrefix(rs, i);
      }
    }
  }

  /** Conversely, a run whose records all start inside the buffer is inside the buffer from `offset`. */
  lemma {:induction false} InsideFromOffsets(b: seq<uint8>, offset: nat, rs: seq<Record>)
    requires forall i :: 0 <= i < |rs| ==> offset + TotalSize(rs[..i]) < |b|
    ensures InsideFrom(b, offset, rs)
    decreases |rs|
  {
    if rs != [] {
      assert rs[..0] == [];
      var rest := rs[1..];
      forall i | 0 <= i < |rest|
        ensures offset + rs[0].size + TotalSize(rest[..i]) < |b|
      {
        TotalSizeOfPrefix(rs, i + 1);
      }
      InsideFromOffsets(b, offset + rs[0].size, rest);
    }
  }

  /** A record of positive Size ends a prefix of the run that is shorter than the whole run. */
  lemma {:induction false} TotalSizePrefixBelow(rs: seq<Record>, i: nat)
    requires i < |rs| && rs[i].size > 0
    ensures TotalSize(rs[..i]) < TotalSize(rs)
  {
    if i == 0 {
      assert rs[..0] == [];
    } else {
      TotalSizeOfPrefix(rs, i);
      TotalSizePrefixBelow(rs[1..], i - 1);
    }
  }

  /** A successful walk decodes its records one after the other, each inside the buffer, until the Sizes reach its end. */
  lemma {:induction false} WalkDecodes(b: seq<uint8>, offset: nat, rs: seq<Record>)
    requires RecordsFrom(b, offset) == Ok(rs)
    ensures offset + TotalSize(rs) >= |b|
    ensures InsideFrom(b, offset, rs) && DecodedFrom(b, offset, rs)
    decreases |b| - offset
  {
    if offset < |b| {
      RecordsFromStep(b, offset, rs);
      WalkDecodes(b, offset + rs[0].size, rs[1..]);
    } else {
      assert rs == [];
    }
  }

  /** Conversely, such a run of records is what the walk returns. */
  lemma {:induction false} WalkOfDecoded(b: seq<uint8>, offset: nat, rs: seq<Record>)
    requires offset + TotalSize(rs) >= |b|
    requires InsideFrom(b, offset, rs) && DecodedFrom(b, offset, rs)
    ensures RecordsFrom(b, offset) == Ok(rs)
    decreases |rs|
  {
    if rs != [] {
      WalkOfDecoded(b, offset + rs[0].size, rs[1..]);
      RecordsFromCons(b, offset, rs);
    }
  }

  /**
   * The walk moves the cursor through the buffer: each record it returns
   * starts inside the buffer, at the offset reached by adding the Sizes of
   * the records before it, and the Sizes of all of them reach or pass its end.
   */
  lemma RecordsStartInside(b: seq<uint8>, offset: nat, rs: seq<Record>)
    requires RecordsFrom(b, offset) == Ok(rs)
    ensures offset + TotalSize(rs) >= |b|
    ensures forall i :: 0 <= i < |rs| ==> offset + TotalSize(rs[..i]) < |b|
  {
    WalkDecodes(b, offset, rs);
    InsideAtOffsets(b, offset, rs);
  }

  /**
   * The walk visits records in buffer order: record i is the one decoded at
   * the offset reached by adding the Sizes of records 0 .. i-1.
   */
  lemma RecordsAtOffsets(b: seq<uint8>, offset: nat, rs: seq<Record>)
    requires RecordsFrom(b, offset) == Ok(rs)
    ensures forall i :: 0 <= i < |rs| ==> DecodeRecord(b, offset + TotalSize(rs[..i])) == Ok(rs[i])
  {
    WalkDecodes(b, offset, rs);
    DecodedAtOffsets(b, offset, rs);
  }

  /**
   * The converse of RecordsStartInside and RecordsAtOffsets: records that decode one after the
   * other, each at the offset the Sizes of the ones before it lead to, each
   * starting inside the buffer, and whose Sizes reach or pass its end, are
   * what the walk returns. The last Size may overshoot the end.
   */
  lemma RecordsFromOfDecoded(b: seq<uint8>, offset: nat, rs: seq<Record>)
    requires offset + TotalSize(rs) >= |b|
    requires forall i :: 0 <= i < |rs| ==> offset + TotalSize(rs[..i]) < |b|
    requires forall i :: 0 <= i < |rs| ==> DecodeRecord(b, offset + TotalSize(rs[..i])) == Ok(rs[i])
    ensures RecordsFrom(b, offset) == Ok(rs)
  {
    InsideFromOffsets(b, offset, rs);
    DecodedFromOffsets(b, offset, rs);
    WalkOfDecoded(b, offset, rs);
  }

  /** The walk of a whole buffer, from offset 0, returns exactly the runs described by RecordsStartInside and RecordsAtOffsets. */
  lemma RecordsOfDecoded(b: seq<uint8>, rs: seq<Record>)
    requires TotalSize(rs) >= |b|
    requires forall i :: 0 <= i < |rs| ==> TotalSize(rs[..i]) < |b|
    requires forall i :: 0 <= i < |rs| ==> DecodeRecord(b, TotalSize(rs[..i])) == Ok(rs[i])
    ensures Records(b) == Ok(rs)
  {
    RecordsFromOfDecoded(b, 0, rs);
  }

  /**
   * A walk that fails has decoded a run of records, each starting inside the
   * buffer, and fails on the record the cursor reaches after them, inside the
   * buffer, with that record's decode error.
   */
  lemma {:induction false} RecordsErrorIsFirstBadRecord(b: seq<uint8>, offset: nat, e: DecodeError) returns (rs: seq<Record>)
    requires RecordsFrom(b, offset) == Err(e)
    ensures DecodedFrom(b, offset, rs) && InsideFrom(b, offset, rs)
    ensures offset + TotalSize(rs) < |b| && DecodeRecord(b, offset + TotalSize(rs)) == Err(e)
    decreases |b| - offset
  {
    assert offset < |b|;
    match DecodeRecord(b, offset)
    case Err(_) =>
      rs := [];
    case Ok(rec) =>
      var rest := RecordsErrorIsFirstBadRecord(b, offset + rec.size, e);
      rs := [rec] + rest;
      TotalSizeCons(rec, rest);
  }

  /** An empty buffer holds no records. */
  lemma EmptyBufferNoRecords()
    ensures Records([]) == Ok([])
  {
  }

  /**
   * The trailing-array loop of main.go:198-201 (and 225-228): `make` a slice
   * of `count` GROUP_AFFINITY and fill element i from `start + i*16`.
   */
  method ReadGroupAffinities(b: seq<uint8>, start: nat, count: uint16) returns (groupMasks: seq<GroupAffinity>)
    requires start + GroupAffinitySize * count <= |b|
    ensures |groupMasks| == count
    ensures forall i :: 0 <= i < count ==> groupMasks[i] == AffinityAt(b, start + GroupAffinitySize * i)
  {
    var a := new GroupAffinity[count];
    for i := 0 to count
      invariant forall j :: 0 <= j < i ==> a[j] == AffinityAt(b, start + GroupAffinitySize * j)
    {
      a[i] := AffinityAt(b, start + GroupAffinitySize * i);
    }
    groupMasks := a[..];
  }

  /**
   * The trailing-array loop of main.go:248-252: `make` a slice of `count`
   * PROCESSOR_GROUP_INFO and fill element i from `start + i*48`.
   */
  method ReadGroupInfos(b: seq<uint8>, start: nat, count: uint16) returns (groupInfo: seq<ProcessorGroupInfo>)
    requires count == 0 || start + GroupInfoSize * count <= |b|
    ensures |groupInfo| == count
    ensures forall i :: 0 <= i < count ==> groupInfo[i] == GroupInfoAt(b, start + GroupInfoSize * i)
  {
    var a := new ProcessorGroupInfo[count];
    for i := 0 to count
      invariant forall j :: 0 <= j < i ==> a[j] == GroupInfoAt(b, start + GroupInfoSize * j)
    {
      a[i] := GroupInfoAt(b, start + GroupInfoSize * i);
    }
    groupInfo := a[..];
  }
}
