/** PACKET_ZC_GROUP_LIST: the party roster, with its guards against truncated packets. */
module GroupList {
  import opened Words
  import opened Wire
  import opened PlainBytes
  import opened Cursor

  datatype Member = Member(
    aid: uint32, gid: uint32, name: Bytes, mapName: Bytes, leader: bool, offline: bool,
    jobClass: int16, baseLevel: int16)

  datatype ZcGroupList = ZcGroupList(packetLength: int16, partyName: Bytes, members: seq<Member>)

  const HEADER_SIZE := 28

  function MemberSize(pv: uint32): nat {
    if pv >= 20171207 then 54
    else if pv >= 20170524 then 50
    else 46
  }

  // ---------- the layout ----------

  /** A member as it travels: zero-padded names, and 0 for "leader" and for "online". */
  datatype Raw = Raw(
    aid: uint32, gid: uint32, name: Bytes, mapName: Bytes, leader: uint8, offline: uint8,
    jobClass: int16, baseLevel: int16)

  predicate Shaped(r: Raw, pv: uint32) {
    && |r.name| == 24 && |r.mapName| == 16
    && (pv < 20171207 ==> r.gid == 0)
    && (pv < 20170524 ==> r.jobClass == 0 && r.baseLevel == 0)
  }

  function NamesWire(r: Raw, pv: uint32): Bytes {
    U32(r.aid) + (if pv >= 20171207 then U32(r.gid) else []) + r.name + r.mapName
  }

  function RawWire(r: Raw, pv: uint32): Bytes {
    NamesWire(r, pv) + [r.leader] + [r.offline]
    + When(pv >= 20170524, I16(r.jobClass)) + When(pv >= 20170524, I16(r.baseLevel))
  }

  function Interpret(r: Raw): Member {
    Member(r.aid, r.gid, UpToZero(r.name), UpToZero(r.mapName), r.leader == 0, r.offline != 0, r.jobClass, r.baseLevel)
  }

  /** The size table agrees with the layout in every era. */
  lemma SizeOfWire(r: Raw, pv: uint32)
    requires Shaped(r, pv)
    ensures |RawWire(r, pv)| == MemberSize(pv)
  {
  }

  lemma WireInjective(r: Raw, q: Raw, pv: uint32)
    requires Shaped(r, pv) && Shaped(q, pv) && RawWire(r, pv) == RawWire(q, pv)
    ensures r == q
  {
    var job, gid := pv >= 20170524, pv >= 20171207;
    var r1, q1 := NamesWire(r, pv) + [r.leader], NamesWire(q, pv) + [q.leader];
    var r2, q2 := r1 + [r.offline], q1 + [q.offline];
    SplitTail(r2 + When(job, I16(r.jobClass)), When(job, I16(r.baseLevel)),
              q2 + When(job, I16(q.jobClass)), When(job, I16(q.baseLevel)));
    SplitTail(r2, When(job, I16(r.jobClass)), q2, When(job, I16(q.jobClass)));
    SplitTail(r1, [r.offline], q1, [q.offline]);
    SplitTail(NamesWire(r, pv), [r.leader], NamesWire(q, pv), [q.leader]);
    var r0, q0 := if gid then U32(r.gid) else [], if gid then U32(q.gid) else [];
    SplitTail(U32(r.aid) + r0 + r.name, r.mapName, U32(q.aid) + q0 + q.name, q.mapName);
    SplitTail(U32(r.aid) + r0, r.name, U32(q.aid) + q0, q.name);
    SplitTail(U32(r.aid), r0, U32(q.aid), q0);
    U32Injective(r.aid, q.aid);
    U32Injective(r.gid, q.gid);
    I16Injective(r.jobClass, q.jobClass);
    I16Injective(r.baseLevel, q.baseLevel);
  }

  // ---------- where each field lies, in plain bytes ----------

  ghost predicate NamesAt(m: Member, b: Bytes, off: nat)
    requires off + 42 <= |b|
  {
    && IsText(m.name, b[off..off + 24]) && IsText(m.mapName, b[off + 24..off + 40])
    && (m.leader <==> b[off + 40] == 0) && (m.offline <==> b[off + 41] != 0)
  }

  ghost predicate FieldsAt(m: Member, b: Bytes, pv: uint32)
    requires MemberSize(pv) <= |b|
  {
    m.aid == Four(b, 0) &&
    if pv >= 20171207 then
      && m.gid == Four(b, 4) && NamesAt(m, b, 8)
      && m.jobClass == SignedTwo(b, 50) && m.baseLevel == SignedTwo(b, 52) && MemberSize(pv) == 54
    else if pv >= 20170524 then
      && m.gid == 0 && NamesAt(m, b, 4)
      && m.jobClass == SignedTwo(b, 46) && m.baseLevel == SignedTwo(b, 48) && MemberSize(pv) == 50
    else
      m.gid == 0 && NamesAt(m, b, 4) && m.jobClass == 0 && m.baseLevel == 0 && MemberSize(pv) == 46
  }

  lemma FieldsInPrefix(m: Member, b: Bytes, n: nat, pv: uint32)
    requires MemberSize(pv) <= n <= |b| && FieldsAt(m, b, pv)
    ensures FieldsAt(m, b[..n], pv)
  {
    var off := if pv >= 20171207 then 8 else 4;
    assert b[..n][off..off + 24] == b[off..off + 24] && b[..n][off + 24..off + 40] == b[off + 24..off + 40];
  }

  // ---------- decoding ----------

  method ReadNames(b: Bytes, off0: nat) returns (ghost name: Bytes, ghost mapName: Bytes, s: Bytes, t: Bytes, off: nat)
    requires off0 + 40 <= |b|
    ensures off == off0 + 40 && |name| == 24 && |mapName| == 16
    ensures b[..off] == b[..off0] + name + mapName
    ensures s == UpToZero(name) && t == UpToZero(mapName)
    ensures IsText(s, b[off0..off0 + 24]) && IsText(t, b[off0 + 24..off0 + 40])
  {
    name, mapName := b[off0..off0 + 24], b[off0 + 24..off0 + 40];
    s := NullTermString(b[off0..off0 + 24]);
    t := NullTermString(b[off0 + 24..off0 + 40]);
    off := off0 + 40;
  }

  method ReadI16If(present: bool, b: Bytes, off0: nat) returns (n: int16, off: nat)
    requires off0 + (if present then 2 else 0) <= |b|
    ensures off == (if present then off0 + 2 else off0) && n == if present then SignedTwo(b, off0) else 0
    ensures b[..off] == b[..off0] + When(present, I16(n))
  {
    n, off := 0, off0;
    if present {
      ReadsTwo(b, off0);
      SliceI16(b, off0);
      n, off := LeI16(b, off0), off0 + 2;
    }
  }

  method ReadIds(b: Bytes, pv: uint32) returns (aid: uint32, gid: uint32, off: nat)
    requires MemberSize(pv) <= |b|
    ensures off == (if pv >= 20171207 then 8 else 4)
    ensures aid == Four(b, 0) && gid == if pv >= 20171207 then Four(b, 4) else 0
    ensures b[..off] == U32(aid) + (if pv >= 20171207 then U32(gid) else [])
  {
    SliceU32(b, 0);
    ReadsFour(b, 0);
    aid, gid, off := LeU32(b, 0), 0, 4;
    assert b[..4] == U32(aid);
    if pv >= 20171207 {
      SliceU32(b, 4);
      ReadsFour(b, 4);
      gid, off := LeU32(b, 4), 8;
    }
  }

  /** One member: each field is what lies at its offset; the cursor ends exactly at the size-table value. */
  method DecodeMember(b: Bytes, pv: uint32) returns (dst: Member, ghost raw: Raw, cur: nat)
    requires MemberSize(pv) <= |b|
    ensures cur == MemberSize(pv) && FieldsAt(dst, b, pv)
    ensures Shaped(raw, pv) && RawWire(raw, pv) == b[..MemberSize(pv)] && dst == Interpret(raw)
  {
    var aid, gid, name, mapName, jobClass, baseLevel;
    ghost var rawName, rawMap;
    aid, gid, cur := ReadIds(b, pv);
    rawName, rawMap, name, mapName, cur := ReadNames(b, cur);
    var leader, offline := b[cur], b[cur + 1];
    SliceU8(b, cur);
    SliceU8(b, cur + 1);
    ghost var base := b[..cur];
    cur := cur + 2;
    assert b[..cur] == base + [leader] + [offline];
    jobClass, cur := ReadI16If(pv >= 20170524, b, cur);
    baseLevel, cur := ReadI16If(pv >= 20170524, b, cur);
    raw := Raw(aid, gid, rawName, rawMap, leader, offline, jobClass, baseLevel);
    assert base == NamesWire(raw, pv);
    dst := Member(aid, gid, name, mapName, leader == 0, offline != 0, jobClass, baseLevel);
  }

  ghost predicate MemberIs(m: Member, b: Bytes, pv: uint32) {
    && (exists r :: Shaped(r, pv) && RawWire(r, pv) == b && Interpret(r) == m)
    && |b| == MemberSize(pv) && FieldsAt(m, b, pv)
  }

  ghost predicate DecodesFirst(members: seq<Member>, body: Bytes, pv: uint32) {
    && |members| <= |body| / MemberSize(pv)
    && forall i :: 0 <= i < |members| ==> MemberIs(members[i], Entry(body, MemberSize(pv), i), pv)
  }

  /** The members are the whole entries of the body; a partial trailing one is dropped. */
  ghost predicate Decodes(members: seq<Member>, body: Bytes, pv: uint32) {
    |members| == |body| / MemberSize(pv) && DecodesFirst(members, body, pv)
  }

  lemma OneMore(members: seq<Member>, m: Member, body: Bytes, pv: uint32)
    requires DecodesFirst(members, body, pv) && |members| < |body| / MemberSize(pv)
    requires MemberIs(m, Entry(body, MemberSize(pv), |members|), pv)
    ensures DecodesFirst(members + [m], body, pv)
  {
  }

  method DecodeAt(b: Bytes, pv: uint32) returns (dst: Member)
    requires MemberSize(pv) <= |b|
    ensures MemberIs(dst, b[..MemberSize(pv)], pv)
  {
    ghost var raw;
    var cur;
    dst, raw, cur := DecodeMember(b, pv);
    FieldsInPrefix(dst, b, MemberSize(pv), pv);
  }

  const ZERO := Member(0, 0, [], [], false, false, 0, 0)

  method DecodeRoster(body: Bytes, pv: uint32) returns (members: array<Member>)
    ensures fresh(members) && Decodes(members[..], body, pv)
  {
    var n := |body| / MemberSize(pv);
    members := new Member[n](_ => ZERO);
    ghost var done: seq<Member> := [];
    for i := 0 to n
      invariant members[..i] == done && DecodesFirst(done, body, pv)
    {
      var m := DecodeAt(From(body, MemberSize(pv), i), pv);
      OneMore(done, m, body, pv);
      members[i] := m;
      done := done + [m];
    }
    assert members[..] == done;
  }

  /** A packet shorter than its fixed header decodes to the zero event. */
  method DecodeZcGroupList(data: Bytes, pv: uint32) returns (e: ZcGroupList)
    ensures |data| < 28 ==> e == ZcGroupList(0, [], [])
    ensures |data| >= 28 ==>
              && e.packetLength == SignedTwo(data, 2) && IsText(e.partyName, data[4..28])
              && Decodes(e.members, data[28..], pv)
  {
    e := ZcGroupList(0, [], []);
    if |data| < HEADER_SIZE { return; }
    ReadsTwo(data, 2);
    var partyName := NullTermString(data[4..4 + 24]);
    var members := DecodeRoster(data[HEADER_SIZE..], pv);
    e := ZcGroupList(LeI16(data, 2), partyName, members[..]);
  }

  // ---------- round trip ----------

  function Zeros(n: nat): Bytes {
    seq(n, _ => 0)
  }

  /** A member that the layout of the era can carry. */
  predicate Fits(m: Member, pv: uint32) {
    && |m.name| <= 24 && |m.mapName| <= 16 && 0 !in m.name && 0 !in m.mapName
    && (pv < 20171207 ==> m.gid == 0)
    && (pv < 20170524 ==> m.jobClass == 0 && m.baseLevel == 0)
  }

  /** The server's encoding: names padded with zeros, both flags inverted. */
  function ToRaw(m: Member): Raw
    requires |m.name| <= 24 && |m.mapName| <= 16
  {
    Raw(m.aid, m.gid, m.name + Zeros(24 - |m.name|), m.mapName + Zeros(16 - |m.mapName|),
        if m.leader then 0 else 1, if m.offline then 1 else 0, m.jobClass, m.baseLevel)
  }

  lemma InterpretToRaw(m: Member, pv: uint32)
    requires Fits(m, pv)
    ensures Shaped(ToRaw(m), pv) && Interpret(ToRaw(m)) == m
  {
    UpToZeroIs(ToRaw(m).name, |m.name|);
    UpToZeroIs(ToRaw(m).mapName, |m.mapName|);
    assert ToRaw(m).name[..|m.name|] == m.name && ToRaw(m).mapName[..|m.mapName|] == m.mapName;
  }

  ghost function Serialised(ms: seq<Member>, pv: uint32): seq<Bytes>
    requires forall i :: 0 <= i < |ms| ==> Fits(ms[i], pv)
  {
    seq(|ms|, i requires 0 <= i < |ms| => assert Fits(ms[i], pv); RawWire(ToRaw(ms[i]), pv))
  }

  /** A roster sent by the server, even with a truncated last member, decodes to its whole members. */
  lemma RosterRoundTrip(members: seq<Member>, ms: seq<Member>, tail: Bytes, pv: uint32)
    requires (forall i :: 0 <= i < |ms| ==> Fits(ms[i], pv)) && |tail| < MemberSize(pv)
    requires Decodes(members, Joined(Serialised(ms, pv)) + tail, pv)
    ensures members == ms
  {
    var sz, wires := MemberSize(pv), Serialised(ms, pv);
    forall i | 0 <= i < |ms| ensures |wires[i]| == sz {
      InterpretToRaw(ms[i], pv);
      SizeOfWire(ToRaw(ms[i]), pv);
    }
    JoinedEntries(wires, sz, tail);
    forall i | 0 <= i < |ms| ensures members[i] == ms[i] {
      assert MemberIs(members[i], Entry(Joined(wires) + tail, sz, i), pv);
      var r :| Shaped(r, pv) && RawWire(r, pv) == wires[i] && Interpret(r) == members[i];
      InterpretToRaw(ms[i], pv);
      WireInjective(r, ToRaw(ms[i]), pv);
    }
  }
}
