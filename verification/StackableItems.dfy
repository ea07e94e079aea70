/** NORMALITEM_INFO entries: four eras of one layout, their sizes, and the list decoder. */
module StackableItems {
  import opened Words
  import opened Wire
  import opened PlainBytes
  import opened Cursor

  datatype NormalItem = NormalItem(
    index: uint16, itid: uint32, kind: uint8, count: uint16, wearState: uint32, cards: seq<uint32>,
    hireExpireDate: int32, isIdentified: uint8, placeETCTab: uint8)

  const ZERO := NormalItem(0, 0, 0, 0, 0, [0, 0, 0, 0], 0, 0, 0)

  function NormalItemSize(pv: uint32): nat {
    if pv >= 20181121 then 34
    else if pv >= 20120925 then 24
    else if pv >= 20080102 then 22
    else 18
  }

  /** Widened fields hold values of their wire width, and era-absent fields are zero. */
  predicate Fits(e: NormalItem, pv: uint32) {
    && |e.cards| == 4
    && (pv < 20181121 ==> e.itid < 0x1_0000 && forall i :: 0 <= i < 4 ==> e.cards[i] < 0x1_0000)
    && (pv < 20120925 ==> e.wearState < 0x1_0000 && e.placeETCTab == 0)
    && (pv < 20080102 ==> e.hireExpireDate == 0)
    && (pv >= 20120925 ==> e.isIdentified < 2 && e.placeETCTab < 2)
  }

  function HeadWire(e: NormalItem, pv: uint32): Bytes {
    U16(e.index) + Wide(e.itid, pv >= 20181121) + [e.kind] + When(pv < 20120925, [e.isIdentified])
    + U16(e.count) + Wide(e.wearState, pv >= 20120925)
  }

  function BodyWire(e: NormalItem, pv: uint32): Bytes {
    HeadWire(e, pv) + Cards(e.cards, pv >= 20181121) + When(pv >= 20080102, I32(e.hireExpireDate))
  }

  function Flag(e: NormalItem, spare: nat, pv: uint32): Bytes
    requires Fits(e, pv) && spare < 64
  {
    if pv >= 20120925 then [e.isIdentified + 2 * e.placeETCTab + 4 * spare] else []
  }

  function NormalWire(e: NormalItem, spare: nat, pv: uint32): Bytes
    requires Fits(e, pv) && spare < 64
  {
    BodyWire(e, pv) + Flag(e, spare, pv)
  }

  /** The size table agrees with the layout in every era. */
  lemma SizeOfWire(e: NormalItem, spare: nat, pv: uint32)
    requires Fits(e, pv) && spare < 64
    ensures |NormalWire(e, spare, pv)| == NormalItemSize(pv)
  {
    CardsLength(e.cards, pv >= 20181121);
  }

  function Spare(b: Bytes, pv: uint32): nat
    requires NormalItemSize(pv) <= |b|
  {
    if pv >= 20120925 then b[NormalItemSize(pv) - 1] / 4 else 0
  }

  // ---------- where each field lies, in plain bytes ----------

  /** Up to the cards. */
  ghost predicate HeadAt(e: NormalItem, b: Bytes, pv: uint32)
    requires NormalItemSize(pv) <= |b|
  {
    e.index == Two(b, 0) &&
    if pv >= 20181121 then
      e.itid == Four(b, 2) && e.kind == b[6] && e.count == Two(b, 7) && e.wearState == Four(b, 9)
    else if pv >= 20120925 then
      e.itid == Two(b, 2) && e.kind == b[4] && e.count == Two(b, 5) && e.wearState == Four(b, 7)
    else
      && e.itid == Two(b, 2) && e.kind == b[4] && e.isIdentified == b[5]
      && e.count == Two(b, 6) && e.wearState == Two(b, 8)
  }

  ghost predicate FlagsIn(e: NormalItem, flag: uint8) {
    e.isIdentified as int == flag as int % 2 && e.placeETCTab as int == flag as int / 2 % 2
  }

  ghost predicate CardsAndExpiryAt(e: NormalItem, b: Bytes, pv: uint32)
    requires |e.cards| == 4 && NormalItemSize(pv) <= |b|
  {
    if pv >= 20181121 then CardsAt(e.cards, b, 13, true) && e.hireExpireDate == SignedFour(b, 29)
    else if pv >= 20120925 then CardsAt(e.cards, b, 11, false) && e.hireExpireDate == SignedFour(b, 19)
    else if pv >= 20080102 then CardsAt(e.cards, b, 10, false) && e.hireExpireDate == SignedFour(b, 18)
    else CardsAt(e.cards, b, 10, false)
  }

  /** The flag byte is the last one; before there was one, the last field ends the entry. */
  ghost predicate FlagAt(e: NormalItem, b: Bytes, pv: uint32)
    requires NormalItemSize(pv) <= |b|
  {
    var end := NormalItemSize(pv);
    if pv >= 20181121 then end == 34 && FlagsIn(e, b[33])
    else if pv >= 20120925 then end == 24 && FlagsIn(e, b[23])
    else end == if pv >= 20080102 then 18 + 4 else 10 + 8
  }

  ghost predicate FieldsAt(e: NormalItem, b: Bytes, pv: uint32)
    requires |e.cards| == 4 && NormalItemSize(pv) <= |b|
  {
    HeadAt(e, b, pv) && CardsAndExpiryAt(e, b, pv) && FlagAt(e, b, pv)
  }

  lemma FieldsInPrefix(e: NormalItem, b: Bytes, n: nat, pv: uint32)
    requires |e.cards| == 4 && NormalItemSize(pv) <= n <= |b| && FieldsAt(e, b, pv)
    ensures FieldsAt(e, b[..n], pv)
  {
  }

  // ---------- decoding one entry ----------

  method DecodeHead(b: Bytes, pv: uint32) returns (dst: NormalItem, off: nat)
    requires NormalItemSize(pv) <= |b|
    ensures off == (if pv >= 20181121 then 13 else if pv >= 20120925 then 11 else 10)
    ensures b[..off] == HeadWire(dst, pv) && HeadAt(dst, b, pv)
    ensures dst == ZERO.(index := dst.index, itid := dst.itid, kind := dst.kind, count := dst.count,
                         wearState := dst.wearState, isIdentified := dst.isIdentified)
    ensures pv < 20181121 ==> dst.itid < 0x1_0000
    ensures if pv < 20120925 then dst.wearState < 0x1_0000 else dst.isIdentified == 0
  {
    var index := LeU16(b, 0);
    SliceU16(b, 0);
    assert b[..2] == U16(index);
    ReadsTwo(b, 0);
    off := 2;
    var itid, kind, isIdentified, count, wearState;
    itid, off := ReadWide(b, off, pv >= 20181121);
    kind, off := ReadByteIf(true, b, off, 0);
    isIdentified, off := ReadByteIf(pv < 20120925, b, off, 0);
    count, off := ReadU16If(true, b, off, 0);
    wearState, off := ReadWide(b, off, pv >= 20120925);
    dst := ZERO.(index := index, itid := itid, kind := kind, count := count, wearState := wearState,
                 isIdentified := isIdentified);
  }

  /** Everything before the flag byte. */
  method DecodeBody(b: Bytes, pv: uint32) returns (dst: NormalItem, off: nat)
    requires NormalItemSize(pv) <= |b|
    ensures off + (if pv >= 20120925 then 1 else 0) == NormalItemSize(pv)
    ensures Fits(dst, pv) && dst.placeETCTab == 0 && b[..off] == BodyWire(dst, pv)
    ensures HeadAt(dst, b, pv) && CardsAndExpiryAt(dst, b, pv)
  {
    dst, off := DecodeHead(b, pv);
    ghost var head := dst;
    var cards, hireExpireDate;
    cards, off := ReadCards(b, off, pv >= 20181121);
    hireExpireDate, off := ReadI32If(pv >= 20080102, b, off, 0);
    dst := dst.(cards := cards, hireExpireDate := hireExpireDate);
    assert HeadWire(dst, pv) == HeadWire(head, pv);
  }

  /**
   One entry, from a zeroed struct: what is written serialises back to exactly the first
   NormalItemSize(pv) bytes, each field is what lies at its offset, and the cursor stops at
   the size-table value.
   */
  method DecodeNormalItemEntry(b: Bytes, pv: uint32) returns (dst: NormalItem, off: nat)
    requires NormalItemSize(pv) <= |b|
    ensures off + (if pv >= 20120925 then 1 else 0) == NormalItemSize(pv)
    ensures Fits(dst, pv) && FieldsAt(dst, b, pv)
    ensures NormalWire(dst, Spare(b, pv), pv) == b[..NormalItemSize(pv)]
  {
    dst, off := DecodeBody(b, pv);
    if pv >= 20120925 {
      var flag := b[off];
      SliceU8(b, off);
      ghost var body := dst;
      dst := dst.(isIdentified := flag % 2, placeETCTab := flag / 2 % 2);
      BodyIgnoresFlag(dst, body, pv);
      assert Flag(dst, flag / 4, pv) == [flag];
    }
  }

  lemma BodyIgnoresFlag(d: NormalItem, e: NormalItem, pv: uint32)
    requires pv >= 20120925 && d == e.(isIdentified := d.isIdentified, placeETCTab := d.placeETCTab)
    ensures BodyWire(d, pv) == BodyWire(e, pv)
  {
    assert HeadWire(d, pv) == HeadWire(e, pv);
  }

  // ---------- the layout determines the entry ----------

  lemma HeadInjective(d: NormalItem, e: NormalItem, pv: uint32)
    requires Fits(d, pv) && Fits(e, pv) && HeadWire(d, pv) == HeadWire(e, pv)
    ensures d.index == e.index && d.itid == e.itid && d.kind == e.kind
    ensures d.count == e.count && d.wearState == e.wearState
    ensures pv < 20120925 ==> d.isIdentified == e.isIdentified
  {
    var id, flagged := pv >= 20181121, pv >= 20120925;
    var d2, e2 := U16(d.index) + Wide(d.itid, id), U16(e.index) + Wide(e.itid, id);
    var d3, e3 := d2 + [d.kind], e2 + [e.kind];
    var d4, e4 := d3 + When(!flagged, [d.isIdentified]), e3 + When(!flagged, [e.isIdentified]);
    SplitTail(d4 + U16(d.count), Wide(d.wearState, flagged), e4 + U16(e.count), Wide(e.wearState, flagged));
    SplitTail(d4, U16(d.count), e4, U16(e.count));
    SplitTail(d3, When(!flagged, [d.isIdentified]), e3, When(!flagged, [e.isIdentified]));
    SplitTail(d2, [d.kind], e2, [e.kind]);
    SplitTail(U16(d.index), Wide(d.itid, id), U16(e.index), Wide(e.itid, id));
    U16Injective(d.index, e.index);
    WideInjective(d.itid, e.itid, id);
    U16Injective(d.count, e.count);
    WideInjective(d.wearState, e.wearState, flagged);
  }

  lemma BodyInjective(d: NormalItem, e: NormalItem, pv: uint32)
    requires Fits(d, pv) && Fits(e, pv) && BodyWire(d, pv) == BodyWire(e, pv)
    ensures HeadWire(d, pv) == HeadWire(e, pv) && d.cards == e.cards && d.hireExpireDate == e.hireExpireDate
  {
    var wide, hire := pv >= 20181121, pv >= 20080102;
    SplitTail(HeadWire(d, pv) + Cards(d.cards, wide), When(hire, I32(d.hireExpireDate)),
              HeadWire(e, pv) + Cards(e.cards, wide), When(hire, I32(e.hireExpireDate)));
    CardsLength(d.cards, wide);
    CardsLength(e.cards, wide);
    SplitTail(HeadWire(d, pv), Cards(d.cards, wide), HeadWire(e, pv), Cards(e.cards, wide));
    if !wide {
      NarrowCards(d.cards);
      NarrowCards(e.cards);
    }
    CardsInjective(d.cards, e.cards, wide);
    I32Injective(d.hireExpireDate, e.hireExpireDate);
  }

  /** Two entries with the same bytes are the same entry, with the same unused flag bits. */
  lemma WireInjective(d: NormalItem, s: nat, e: NormalItem, t: nat, pv: uint32)
    requires Fits(d, pv) && Fits(e, pv) && s < 64 && t < 64
    requires NormalWire(d, s, pv) == NormalWire(e, t, pv)
    ensures d == e && (pv >= 20120925 ==> s == t)
  {
    SplitTail(BodyWire(d, pv), Flag(d, s, pv), BodyWire(e, pv), Flag(e, t, pv));
    if pv >= 20120925 { assert Flag(d, s, pv)[0] == Flag(e, t, pv)[0]; }
    BodyInjective(d, e, pv);
    HeadInjective(d, e, pv);
  }

  // ---------- the list ----------

  ghost predicate EntryIs(e: NormalItem, b: Bytes, pv: uint32) {
    Fits(e, pv) && |b| == NormalItemSize(pv) && NormalWire(e, Spare(b, pv), pv) == b && FieldsAt(e, b, pv)
  }

  /** The first entries of the body, decoded. */
  ghost predicate DecodesFirst(items: seq<NormalItem>, body: Bytes, pv: uint32) {
    && |items| <= |body| / NormalItemSize(pv)
    && forall i :: 0 <= i < |items| ==> EntryIs(items[i], Entry(body, NormalItemSize(pv), i), pv)
  }

  /** The items are the whole entries of the body, in order. */
  ghost predicate Decodes(items: seq<NormalItem>, body: Bytes, pv: uint32) {
    |items| == |body| / NormalItemSize(pv) && DecodesFirst(items, body, pv)
  }

  lemma OneMore(items: seq<NormalItem>, e: NormalItem, body: Bytes, pv: uint32)
    requires DecodesFirst(items, body, pv) && |items| < |body| / NormalItemSize(pv)
    requires EntryIs(e, Entry(body, NormalItemSize(pv), |items|), pv)
    ensures DecodesFirst(items + [e], body, pv)
  {
  }

  method DecodeAt(b: Bytes, pv: uint32) returns (dst: NormalItem)
    requires NormalItemSize(pv) <= |b|
    ensures EntryIs(dst, b[..NormalItemSize(pv)], pv)
  {
    var off;
    dst, off := DecodeNormalItemEntry(b, pv);
    FieldsInPrefix(dst, b, NormalItemSize(pv), pv);
  }

  method DecodeNormalItems(body: Bytes, pv: uint32) returns (items: array<NormalItem>)
    ensures fresh(items) && Decodes(items[..], body, pv)
  {
    var n := |body| / NormalItemSize(pv);
    items := new NormalItem[n](_ => ZERO);
    ghost var done: seq<NormalItem> := [];
    for i := 0 to n
      invariant items[..i] == done && DecodesFirst(done, body, pv)
    {
      var dst := DecodeAt(From(body, NormalItemSize(pv), i), pv);
      OneMore(done, dst, body, pv);
      items[i] := dst;
      done := done + [dst];
    }
    assert items[..] == done;
  }

  /** An entry to be sent, and the unused bits of its flag byte. */
  datatype Sent = Sent(item: NormalItem, spare: nat)

  ghost predicate Sendable(es: seq<Sent>, pv: uint32) {
    forall i :: 0 <= i < |es| ==> Fits(es[i].item, pv) && es[i].spare < 64
  }

  ghost function Serialised(es: seq<Sent>, pv: uint32): seq<Bytes>
    requires Sendable(es, pv)
  {
    seq(|es|, i requires 0 <= i < |es| => NormalWire(es[i].item, es[i].spare, pv))
  }

  /** Decoding n serialised entries followed by a partial one returns exactly those n entries. */
  lemma ListRoundTrip(items: seq<NormalItem>, es: seq<Sent>, tail: Bytes, pv: uint32)
    requires Sendable(es, pv) && |tail| < NormalItemSize(pv)
    requires Decodes(items, Joined(Serialised(es, pv)) + tail, pv)
    ensures |items| == |es| && forall i :: 0 <= i < |es| ==> items[i] == es[i].item
  {
    var sz, wires := NormalItemSize(pv), Serialised(es, pv);
    forall i | 0 <= i < |es| ensures |wires[i]| == sz { SizeOfWire(es[i].item, es[i].spare, pv); }
    JoinedEntries(wires, sz, tail);
    forall i | 0 <= i < |es| ensures items[i] == es[i].item {
      assert EntryIs(items[i], Entry(Joined(wires) + tail, sz, i), pv);
      WireInjective(items[i], Spare(wires[i], pv), es[i].item, es[i].spare, pv);
    }
  }

  /** Decoding distributes over concatenation at an entry boundary. */
  lemma DecodeConcat(xs: seq<NormalItem>, ys: seq<NormalItem>, a: Bytes, b: Bytes, pv: uint32)
    requires Decodes(xs, a, pv) && Decodes(ys, b, pv) && |a| % NormalItemSize(pv) == 0
    ensures Decodes(xs + ys, a + b, pv)
  {
    var sz := NormalItemSize(pv);
    EntryCountOfConcat(|a|, |b|, sz);
    forall i | 0 <= i < |xs + ys| ensures EntryIs((xs + ys)[i], Entry(a + b, sz, i), pv) {
      EntriesOfConcat(a, b, sz, i);
      if i < |xs| {
        assert EntryIs(xs[i], Entry(a, sz, i), pv);
      } else {
        assert EntryIs(ys[i - |xs|], Entry(b, sz, i - |xs|), pv);
      }
    }
  }
}
