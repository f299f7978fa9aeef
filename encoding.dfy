/**
 * Writing records in the layout the decoder reads, the inverse of decoding.
 *
 * A well-formed record written with `EncodeRecord` and read back with
 * `DecodeRecord` gives the record back, and a run of records written one after
 * the other is walked back into exactly that run. Reserved and unread fields
 * are written as zero bytes; a record is padded with zeros up to its Size.
 */
module Encoding {
  import opened Bytes
  import opened Layout

  function EncodeAffinity(g: GroupAffinity): (r: seq<uint8>)
    ensures |r| == GroupAffinitySize
  {
    EncodeU64(g.mask) + EncodeU16(g.group) + Zeros(6)
  }

  function EncodeGroupInfo(g: ProcessorGroupInfo): (r: seq<uint8>)
    ensures |r| == GroupInfoSize
  {
    [g.maximumProcessorCount, g.activeProcessorCount] + Zeros(38) + EncodeU64(g.activeProcessorMask)
  }

  function EncodeAffinities(gs: seq<GroupAffinity>): (r: seq<uint8>)
    ensures |r| == GroupAffinitySize * |gs|
  {
    if gs == [] then [] else EncodeAffinity(gs[0]) + EncodeAffinities(gs[1..])
  }

  function EncodeGroupInfos(gs: seq<ProcessorGroupInfo>): (r: seq<uint8>)
    ensures |r| == GroupInfoSize * |gs|
  {
    if gs == [] then [] else EncodeGroupInfo(gs[0]) + EncodeGroupInfos(gs[1..])
  }

  /** The trailing arrays' counts fit their uint16 count fields. */
  predicate Encodable(p: Payload) {
    match p
    case ProcessorRelationship(gm) => |gm| < 0x1_0000
    case NumaNodeRelationship(_, gm) => |gm| < 0x1_0000
    case GroupRelationship(_, active, infos) => |infos| == active
    case _ => true
  }

  /** The bytes a payload occupies: its fixed fields and its trailing array. */
  function PayloadSize(p: Payload): nat {
    match p
    case ProcessorRelationship(gm) => ArrayOffset + GroupAffinitySize * |gm|
    case NumaNodeRelationship(_, gm) => ArrayOffset + GroupAffinitySize * |gm|
    case CacheRelationship(_) => 1
    case GroupRelationship(_, _, infos) => ArrayOffset + GroupInfoSize * |infos|
    case Unrecognized => 0
  }

  function EncodePayload(p: Payload): (r: seq<uint8>)
    requires Encodable(p)
    ensures |r| == PayloadSize(p)
  {
    match p
    case ProcessorRelationship(gm) =>
      Zeros(GroupCountOffset) + EncodeU16(|gm|) + EncodeAffinities(gm)
    case NumaNodeRelationship(nodeNumber, gm) =>
      EncodeU32(nodeNumber) + Zeros(18) + EncodeU16(|gm|) + EncodeAffinities(gm)
    case CacheRelationship(level) => [level]
    case GroupRelationship(maximumGroupCount, activeGroupCount, infos) =>
      EncodeU16(maximumGroupCount) + EncodeU16(activeGroupCount) + Zeros(20) + EncodeGroupInfos(infos)
    case Unrecognized => []
  }

  /** A record the encoder can write: its payload matches its kind and fits in its Size. */
  predicate WellFormed(r: Record) {
    && PayloadMatches(r.relationship, r.payload)
    && Encodable(r.payload)
    && HeaderSize + PayloadSize(r.payload) <= r.size
  }

  function EncodeRecord(r: Record): (e: seq<uint8>)
    requires WellFormed(r)
    ensures |e| == r.size
  {
    var p := EncodePayload(r.payload);
    EncodeU32(r.relationship) + EncodeU32(r.size) + p + Zeros(r.size - HeaderSize - |p|)
  }

  /** The encodings of the records of a run, one chunk per record. */
  function Chunks(rs: seq<Record>): (cs: seq<seq<uint8>>)
    requires forall i :: 0 <= i < |rs| ==> WellFormed(rs[i])
    ensures |cs| == |rs|
    ensures forall i :: 0 <= i < |rs| ==> cs[i] == EncodeRecord(rs[i])
  {
    seq(|rs|, i requires 0 <= i < |rs| => EncodeRecord(rs[i]))
  }

  /** A run of records written back to back, the shape of the buffer the system call fills. */
  function EncodeAll(rs: seq<Record>): (e: seq<uint8>)
    requires forall i :: 0 <= i < |rs| ==> WellFormed(rs[i])
  {
    Concat(Chunks(rs))
  }

  /** A GROUP_AFFINITY entry found anywhere in a buffer reads back as the entry written. */
  lemma AffinityReadBack(g: GroupAffinity, b: seq<uint8>, at: nat)
    requires Occurs(EncodeAffinity(g), b, at)
    ensures AffinityAt(b, at) == g
  {
    var mask, group := EncodeU64(g.mask), EncodeU16(g.group);
    OccursParts3(mask, group, Zeros(6), b, at);
    U64ReadBack(g.mask, b, at);
    U16ReadBack(g.group, b, at + 8);
  }

  /** A PROCESSOR_GROUP_INFO entry found anywhere in a buffer reads back as the entry written. */
  lemma GroupInfoReadBack(g: ProcessorGroupInfo, b: seq<uint8>, at: nat)
    requires Occurs(EncodeGroupInfo(g), b, at)
    ensures GroupInfoAt(b, at) == g
  {
    var counts, mask := [g.maximumProcessorCount, g.activeProcessorCount], EncodeU64(g.activeProcessorMask);
    OccursParts3(counts, Zeros(38), mask, b, at);
    ReadsWithin(counts, b, at, 0);
    ReadsWithin(counts, b, at, 1);
    U64ReadBack(g.activeProcessorMask, b, at + GroupInfoMaskOffset);
  }

  /** A GROUP_AFFINITY entry reads the same inside a buffer as inside the bytes it lies in. */
  lemma AffinityAtWithin(arr: seq<uint8>, b: seq<uint8>, at: nat, pos: nat)
    requires Occurs(arr, b, at) && pos + GroupAffinitySize <= |arr|
    ensures at + pos + GroupAffinitySize <= |b|
    ensures AffinityAt(b, at + pos) == AffinityAt(arr, pos)
  {
    ReadsWithin(arr, b, at, pos);
    ReadsWithin(arr, b, at, pos + 8);
  }

  /** A PROCESSOR_GROUP_INFO entry reads the same inside a buffer as inside the bytes it lies in. */
  lemma GroupInfoAtWithin(arr: seq<uint8>, b: seq<uint8>, at: nat, pos: nat)
    requires Occurs(arr, b, at) && pos + GroupInfoSize <= |arr|
    ensures at + pos + GroupInfoSize <= |b|
    ensures GroupInfoAt(b, at + pos) == GroupInfoAt(arr, pos)
  {
    ReadsWithin(arr, b, at, pos);
    ReadsWithin(arr, b, at, pos + 1);
    ReadsWithin(arr, b, at, pos + GroupInfoMaskOffset);
  }

  /** Entry i of a written GROUP_AFFINITY array sits 16*i bytes in. */
  lemma {:induction false} AffinityInArray(gs: seq<GroupAffinity>, i: nat)
    requires i < |gs|
    ensures GroupAffinitySize * i + GroupAffinitySize <= |EncodeAffinities(gs)|
    ensures AffinityAt(EncodeAffinities(gs), GroupAffinitySize * i) == gs[i]
  {
    var x, y := EncodeAffinity(gs[0]), EncodeAffinities(gs[1..]);
    assert EncodeAffinities(gs) == x + y;
    if i == 0 {
      OccursInPrefix(x, y);
      AffinityReadBack(gs[0], x + y, 0);
    } else {
      AffinityInArray(gs[1..], i - 1);
      OccursInSuffix(x, y);
      AffinityAtWithin(y, x + y, GroupAffinitySize, GroupAffinitySize * (i - 1));
    }
  }

  /** Entry i of a written PROCESSOR_GROUP_INFO array sits 48*i bytes in. */
  lemma {:induction false} GroupInfoInArray(gs: seq<ProcessorGroupInfo>, i: nat)
    requires i < |gs|
    ensures GroupInfoSize * i + GroupInfoSize <= |EncodeGroupInfos(gs)|
    ensures GroupInfoAt(EncodeGroupInfos(gs), GroupInfoSize * i) == gs[i]
  {
    var x, y := EncodeGroupInfo(gs[0]), EncodeGroupInfos(gs[1..]);
    assert EncodeGroupInfos(gs) == x + y;
    if i == 0 {
      OccursInPrefix(x, y);
      GroupInfoReadBack(gs[0], x + y, 0);
    } else {
      GroupInfoInArray(gs[1..], i - 1);
      OccursInSuffix(x, y);
      GroupInfoAtWithin(y, x + y, GroupInfoSize, GroupInfoSize * (i - 1));
    }
  }

  /** Every entry of a written GROUP_AFFINITY array reads back from the array's own bytes. */
  lemma AffinitiesReadSelf(gs: seq<GroupAffinity>)
    ensures forall i :: 0 <= i < |gs| ==> AffinityAt(EncodeAffinities(gs), GroupAffinitySize * i) == gs[i]
  {
    forall i | 0 <= i < |gs|
      ensures AffinityAt(EncodeAffinities(gs), GroupAffinitySize * i) == gs[i]
    {
      AffinityInArray(gs, i);
    }
  }

  /** Every entry of a written PROCESSOR_GROUP_INFO array reads back from the array's own bytes. */
  lemma GroupInfosReadSelf(gs: seq<ProcessorGroupInfo>)
    ensures forall i :: 0 <= i < |gs| ==> GroupInfoAt(EncodeGroupInfos(gs), GroupInfoSize * i) == gs[i]
  {
    forall i | 0 <= i < |gs|
      ensures GroupInfoAt(EncodeGroupInfos(gs), GroupInfoSize * i) == gs[i]
    {
      GroupInfoInArray(gs, i);
    }
  }

  /** Bytes whose GROUP_AFFINITY entries read as `gs` read the same inside a larger buffer. */
  lemma AffinitiesWithin(gs: seq<GroupAffinity>, arr: seq<uint8>, b: seq<uint8>, at: nat)
    requires Occurs(arr, b, at) && |arr| == GroupAffinitySize * |gs|
    requires forall i :: 0 <= i < |gs| ==> AffinityAt(arr, GroupAffinitySize * i) == gs[i]
    ensures Affinities(b, at, |gs|) == gs
  {
    var r := Affinities(b, at, |gs|);
    forall i | 0 <= i < |gs|
      ensures r[i] == gs[i]
    {
      AffinityAtWithin(arr, b, at, GroupAffinitySize * i);
    }
  }

  /** Bytes whose PROCESSOR_GROUP_INFO entries read as `gs` read the same inside a larger buffer. */
  lemma GroupInfosWithin(gs: seq<ProcessorGroupInfo>, arr: seq<uint8>, b: seq<uint8>, at: nat)
    requires Occurs(arr, b, at) && |arr| == GroupInfoSize * |gs|
    requires forall i :: 0 <= i < |gs| ==> GroupInfoAt(arr, GroupInfoSize * i) == gs[i]
    ensures GroupInfos(b, at, |gs|) == gs
  {
    var r := GroupInfos(b, at, |gs|);
    forall i | 0 <= i < |gs|
      ensures r[i] == gs[i]
    {
      GroupInfoAtWithin(arr, b, at, GroupInfoSize * i);
    }
  }

  /** A written GROUP_AFFINITY array reads back entry by entry. */
  lemma AffinitiesReadBack(gs: seq<GroupAffinity>, b: seq<uint8>, at: nat)
    requires Occurs(EncodeAffinities(gs), b, at)
    ensures Affinities(b, at, |gs|) == gs
  {
    AffinitiesReadSelf(gs);
    AffinitiesWithin(gs, EncodeAffinities(gs), b, at);
  }

  /** A written PROCESSOR_GROUP_INFO array reads back entry by entry. */
  lemma GroupInfosReadBack(gs: seq<ProcessorGroupInfo>, b: seq<uint8>, at: nat)
    requires Occurs(EncodeGroupInfos(gs), b, at)
    ensures GroupInfos(b, at, |gs|) == gs
  {
    GroupInfosReadSelf(gs);
    GroupInfosWithin(gs, EncodeGroupInfos(gs), b, at);
  }

  /**
   * The tail shared by PROCESSOR_RELATIONSHIP and NUMA_NODE_RELATIONSHIP: a
   * 22-byte head, the GroupCount and the GROUP_AFFINITY array at byte 24.
   */
  lemma AffinityTailReadBack(head: seq<uint8>, gm: seq<GroupAffinity>, b: seq<uint8>, p: nat)
    requires |head| == GroupCountOffset && |gm| < 0x1_0000
    requires Occurs(head + EncodeU16(|gm|) + EncodeAffinities(gm), b, p)
    ensures p + ArrayOffset + GroupAffinitySize * |gm| <= |b|
    ensures U16(b, p + GroupCountOffset) == |gm|
    ensures Affinities(b, p + ArrayOffset, |gm|) == gm
  {
    var count, arr := EncodeU16(|gm|), EncodeAffinities(gm);
    OccursParts3(head, count, arr, b, p);
    U16ReadBack(|gm|, b, p + GroupCountOffset);
    AffinitiesReadBack(gm, b, p + ArrayOffset);
  }

  /** The NodeNumber of a written NUMA_NODE_RELATIONSHIP reads back from the payload's first four bytes. */
  lemma NodeNumberReadBack(nodeNumber: uint32, tail: seq<uint8>, b: seq<uint8>, p: nat)
    requires Occurs(EncodeU32(nodeNumber) + Zeros(18) + tail, b, p)
    ensures p + 4 <= |b| && U32(b, p) == nodeNumber
  {
    var node := EncodeU32(nodeNumber);
    OccursParts3(node, Zeros(18), tail, b, p);
    U32ReadBack(nodeNumber, b, p);
  }

  /** MaximumGroupCount and ActiveGroupCount of a written GROUP_RELATIONSHIP read back; its array follows at byte 24. */
  lemma GroupCountsReadBack(maximumGroupCount: uint16, activeGroupCount: uint16, tail: seq<uint8>, b: seq<uint8>, p: nat)
    requires Occurs(EncodeU16(maximumGroupCount) + EncodeU16(activeGroupCount) + Zeros(20) + tail, b, p)
    ensures U16(b, p) == maximumGroupCount && U16(b, p + 2) == activeGroupCount
    ensures Occurs(tail, b, p + ArrayOffset)
  {
    OccursParts4(EncodeU16(maximumGroupCount), EncodeU16(activeGroupCount), Zeros(20), tail, b, p);
    U16ReadBack(maximumGroupCount, b, p);
    U16ReadBack(activeGroupCount, b, p + 2);
  }

  /** The fields of a written GROUP_RELATIONSHIP read back from the payload. */
  lemma GroupPayloadReadBack(maximumGroupCount: uint16, activeGroupCount: uint16, infos: seq<ProcessorGroupInfo>,
                             b: seq<uint8>, p: nat)
    requires |infos| == activeGroupCount
    requires Occurs(EncodeU16(maximumGroupCount) + EncodeU16(activeGroupCount) + Zeros(20) + EncodeGroupInfos(infos), b, p)
    ensures p + ArrayOffset + GroupInfoSize * activeGroupCount <= |b|
    ensures U16(b, p) == maximumGroupCount && U16(b, p + 2) == activeGroupCount
    ensures GroupInfos(b, p + ArrayOffset, activeGroupCount) == infos
  {
    GroupCountsReadBack(maximumGroupCount, activeGroupCount, EncodeGroupInfos(infos), b, p);
    GroupInfosReadBack(infos, b, p + ArrayOffset);
  }

  /** The payload fields, read at the payload's position, give back what was written. */
  lemma PayloadReadBack(r: Record, b: seq<uint8>, offset: nat)
    requires WellFormed(r) && Occurs(EncodePayload(r.payload), b, offset + HeaderSize)
    requires offset + HeaderSize <= |b| && U32(b, offset) == r.relationship && U32(b, offset + 4) == r.size
    ensures DecodeRecord(b, offset) == Ok(r)
  {
    var p := offset + HeaderSize;
    match r.payload
    case ProcessorRelationship(gm) =>
      AffinityTailReadBack(Zeros(GroupCountOffset), gm, b, p);
    case NumaNodeRelationship(nodeNumber, gm) =>
      var head := EncodeU32(nodeNumber) + Zeros(18);
      assert head + EncodeU16(|gm|) + EncodeAffinities(gm) == head + (EncodeU16(|gm|) + EncodeAffinities(gm));
      NodeNumberReadBack(nodeNumber, EncodeU16(|gm|) + EncodeAffinities(gm), b, p);
      AffinityTailReadBack(head, gm, b, p);
    case CacheRelationship(level) =>
      ReadsWithin(EncodePayload(r.payload), b, p, 0);
    case GroupRelationship(maximumGroupCount, activeGroupCount, infos) =>
      GroupPayloadReadBack(maximumGroupCount, activeGroupCount, infos, b, p);
    case Unrecognized =>
  }

  /** A well-formed record written at any offset of a buffer decodes back to itself. */
  lemma RecordRoundTrip(r: Record, b: seq<uint8>, offset: nat)
    requires WellFormed(r) && Occurs(EncodeRecord(r), b, offset)
    ensures DecodeRecord(b, offset) == Ok(r)
  {
    var relationship, size, p := EncodeU32(r.relationship), EncodeU32(r.size), EncodePayload(r.payload);
    OccursParts4(relationship, size, p, Zeros(r.size - HeaderSize - |p|), b, offset);
    U32ReadBack(r.relationship, b, offset);
    U32ReadBack(r.size, b, offset + 4);
    PayloadReadBack(r, b, offset);
  }

  /** The records before record i of a written run take up exactly their Sizes. */
  lemma {:induction false} ChunksPrefixLength(rs: seq<Record>, i: nat)
    requires forall j :: 0 <= j < |rs| ==> WellFormed(rs[j])
    requires i <= |rs|
    ensures |Concat(Chunks(rs)[..i])| == TotalSize(rs[..i])
  {
    if i == 0 {
      assert Chunks(rs)[..0] == [] && rs[..0] == [];
    } else {
      ChunksPrefixLength(rs[1..], i - 1);
      TotalSizeOfPrefix(rs, i);
      assert Chunks(rs)[..i][1..] == Chunks(rs[1..])[..i - 1];
      assert |Chunks(rs)[..i][0]| == rs[0].size;
    }
  }

  /** Record i of a written run decodes at the offset the Sizes of the records before it add up to. */
  lemma DecodesInRun(rs: seq<Record>, i: nat)
    requires forall j :: 0 <= j < |rs| ==> WellFormed(rs[j])
    requires i < |rs|
    ensures DecodeRecord(EncodeAll(rs), TotalSize(rs[..i])) == Ok(rs[i])
  {
    ChunkInConcat(Chunks(rs), i);
    ChunksPrefixLength(rs, i);
    RecordRoundTrip(rs[i], EncodeAll(rs), TotalSize(rs[..i]));
  }

  /** A written run fills exactly the Sizes of its records. */
  lemma EncodeAllLength(rs: seq<Record>)
    requires forall j :: 0 <= j < |rs| ==> WellFormed(rs[j])
    ensures |EncodeAll(rs)| == TotalSize(rs)
  {
    ChunksPrefixLength(rs, |rs|);
    assert Chunks(rs)[..|rs|] == Chunks(rs) && rs[..|rs|] == rs;
  }

  /**
   * Writing a run of records back to back and walking the result gives the
   * run back: records are visited in order and each header's Size leads to
   * the next one.
   */
  lemma RecordsOfEncoding(rs: seq<Record>)
    requires forall i :: 0 <= i < |rs| ==> WellFormed(rs[i])
    ensures Records(EncodeAll(rs)) == Ok(rs)
  {
    EncodeAllLength(rs);
    forall i | 0 <= i < |rs|
      ensures TotalSize(rs[..i]) < |EncodeAll(rs)|
      ensures DecodeRecord(EncodeAll(rs), TotalSize(rs[..i])) == Ok(rs[i])
    {
      TotalSizePrefixBelow(rs, i);
      DecodesInRun(rs, i);
    }
    RecordsOfDecoded(EncodeAll(rs), rs);
  }
}
