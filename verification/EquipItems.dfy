/** EQUIPITEM_INFO entries: eight eras of one layout, their sizes, and the list decoder. */
module EquipItems {
  import opened Words
  import opened Wire
  import opened PlainBytes
  import opened Cursor

  datatype ItemOption = ItemOption(index: int16, value: int16, param: uint8)

  /** Every packetver-conditional field in its widest form. */
  datatype EquipItem = EquipItem(
    index: uint16, itid: uint32, kind: uint8, location: uint32, wearState: uint32, refiningLevel: uint8,
    cards: seq<uint32>, hireExpireDate: int32, bindOnEquipType: uint16, spriteNumber: uint16,
    optionCount: uint8, options: seq<ItemOption>, grade: uint8,
    isIdentified: uint8, isDamaged: uint8, placeETCTab: uint8)

  const ZERO_OPTION := ItemOption(0, 0, 0)
  const ZERO := EquipItem(0, 0, 0, 0, 0, 0, [0, 0, 0, 0], 0, 0, 0, 0,
                          [ZERO_OPTION, ZERO_OPTION, ZERO_OPTION, ZERO_OPTION, ZERO_OPTION], 0, 0, 0, 0)

  /** The fixed-length arrays of the Go struct. */
  predicate Shaped(e: EquipItem) {
    |e.cards| == 4 && |e.options| == 5
  }

  function EquipItemSize(pv: uint32): nat {
    if pv >= 20200916 then 68
    else if pv >= 20181121 then 67
    else if pv >= 20150226 then 57
    else if pv >= 20120925 then 31
    else if pv >= 20100629 then 28
    else if pv >= 20080102 then 26
    else if pv >= 20071002 then 24
    else 20
  }

  // ---------- the layout, written as a serializer ----------

  function OptionWire(o: ItemOption): Bytes {
    I16(o.index) + I16(o.value) + [o.param]
  }

  function Options(options: seq<ItemOption>): Bytes {
    if options == [] then [] else Options(options[..|options| - 1]) + OptionWire(options[|options| - 1])
  }

  /** The flag byte; only its low three bits have fields. */
  function Flag(e: EquipItem, spare: nat, pv: uint32): Bytes
    requires Narrow(e, pv) && spare < 32
  {
    if pv >= 20120925 then [e.isIdentified + 2 * e.isDamaged + 4 * e.placeETCTab + 8 * spare] else []
  }

  function HeadWire(e: EquipItem, pv: uint32): Bytes {
    U16(e.index) + Wide(e.itid, pv >= 20181121) + [e.kind] + When(pv < 20120925, [e.isIdentified])
    + Wide(e.location, pv >= 20120925) + Wide(e.wearState, pv >= 20120925)
    + When(pv < 20120925, [e.isDamaged]) + When(pv < 20200916, [e.refiningLevel])
  }

  function MiddleWire(e: EquipItem, pv: uint32): Bytes {
    HeadWire(e, pv) + Cards(e.cards, pv >= 20181121) + When(pv >= 20071002, I32(e.hireExpireDate))
    + When(pv >= 20080102, U16(e.bindOnEquipType)) + When(pv >= 20100629, U16(e.spriteNumber))
  }

  function TailWire(e: EquipItem, pv: uint32): Bytes {
    MiddleWire(e, pv)
    + When(pv >= 20150226, [e.optionCount]) + When(pv >= 20150226, Options(e.options))
    + When(pv >= 20200916, [e.refiningLevel]) + When(pv >= 20200916, [e.grade])
  }

  function EquipWire(e: EquipItem, spare: nat, pv: uint32): Bytes
    requires Narrow(e, pv) && spare < 32
  {
    TailWire(e, pv) + Flag(e, spare, pv)
  }

  /** Widened fields hold values of their wire width. */
  predicate Narrow(e: EquipItem, pv: uint32) {
    && Shaped(e)
    && (pv < 20181121 ==> e.itid < 0x1_0000 && forall i :: 0 <= i < 4 ==> e.cards[i] < 0x1_0000)
    && (pv < 20120925 ==> e.location < 0x1_0000 && e.wearState < 0x1_0000)
    && (pv >= 20120925 ==> e.isIdentified < 2 && e.isDamaged < 2 && e.placeETCTab < 2)
  }

  /** The fields the era does not have are as in `e0`. */
  predicate SameAbsent(e: EquipItem, e0: EquipItem, pv: uint32) {
    && (pv < 20071002 ==> e.hireExpireDate == e0.hireExpireDate)
    && (pv < 20080102 ==> e.bindOnEquipType == e0.bindOnEquipType)
    && (pv < 20100629 ==> e.spriteNumber == e0.spriteNumber)
    && (pv < 20120925 ==> e.placeETCTab == e0.placeETCTab)
    && (pv < 20150226 ==> e.optionCount == e0.optionCount && e.options == e0.options)
    && (pv < 20200916 ==> e.grade == e0.grade)
  }

  /** An entry as the decoder can produce it from a zeroed struct. */
  predicate Fits(e: EquipItem, pv: uint32) {
    Narrow(e, pv) && SameAbsent(e, ZERO, pv)
  }

  // ---------- the size table ----------

  lemma OptionsLength(options: seq<ItemOption>)
    ensures |Options(options)| == |options| * 5
  {
  }

  /** The size table agrees with the layout in every era. */
  lemma SizeOfWire(e: EquipItem, spare: nat, pv: uint32)
    requires Narrow(e, pv) && spare < 32
    ensures |EquipWire(e, spare, pv)| == EquipItemSize(pv)
  {
    CardsLength(e.cards, pv >= 20181121);
    OptionsLength(e.options);
  }

  // ---------- where each field lies, in plain bytes ----------

  /** Up to the cards. */
  ghost predicate HeadAt(e: EquipItem, b: Bytes, pv: uint32)
    requires EquipItemSize(pv) <= |b|
  {
    e.index == Two(b, 0) &&
    if pv >= 20181121 then
      && e.itid == Four(b, 2) && e.kind == b[6] && e.location == Four(b, 7) && e.wearState == Four(b, 11)
      && (pv < 20200916 ==> e.refiningLevel == b[15])
    else if pv >= 20120925 then
      && e.itid == Two(b, 2) && e.kind == b[4] && e.location == Four(b, 5) && e.wearState == Four(b, 9)
      && e.refiningLevel == b[13]
    else
      && e.itid == Two(b, 2) && e.kind == b[4] && e.isIdentified == b[5] && e.location == Two(b, 6)
      && e.wearState == Two(b, 8) && e.isDamaged == b[10] && e.refiningLevel == b[11]
  }

  /** From the cards to the sprite number. */
  ghost predicate MiddleAt(e: EquipItem, b: Bytes, pv: uint32)
    requires Shaped(e) && EquipItemSize(pv) <= |b|
  {
    if pv >= 20200916 then
      && CardsAt(e.cards, b, 15, true) && e.hireExpireDate == SignedFour(b, 31)
      && e.bindOnEquipType == Two(b, 35) && e.spriteNumber == Two(b, 37)
    else if pv >= 20181121 then
      && CardsAt(e.cards, b, 16, true) && e.hireExpireDate == SignedFour(b, 32)
      && e.bindOnEquipType == Two(b, 36) && e.spriteNumber == Two(b, 38)
    else if pv >= 20120925 then
      && CardsAt(e.cards, b, 14, false) && e.hireExpireDate == SignedFour(b, 22)
      && e.bindOnEquipType == Two(b, 26) && e.spriteNumber == Two(b, 28)
    else
      && CardsAt(e.cards, b, 12, false)
      && (pv >= 20071002 ==> e.hireExpireDate == SignedFour(b, 20))
      && (pv >= 20080102 ==> e.bindOnEquipType == Two(b, 24))
      && (pv >= 20100629 ==> e.spriteNumber == Two(b, 26))
  }

  /** Five bytes each: index, value and parameter. */
  ghost predicate OptionsAt(options: seq<ItemOption>, b: Bytes, off: nat)
    requires off + 5 * |options| <= |b|
  {
    forall i :: 0 <= i < |options| ==>
      options[i] == ItemOption(SignedTwo(b, off + 5 * i), SignedTwo(b, off + 5 * i + 2), b[off + 5 * i + 4])
  }

  /** The options, and the two fields that come after them on the newest versions. */
  ghost predicate TailAt(e: EquipItem, b: Bytes, pv: uint32)
    requires Shaped(e) && EquipItemSize(pv) <= |b|
  {
    if pv >= 20200916 then
      && e.optionCount == b[39] && OptionsAt(e.options, b, 40)
      && e.refiningLevel == b[65] && e.grade == b[66]
    else if pv >= 20181121 then e.optionCount == b[40] && OptionsAt(e.options, b, 41)
    else if pv >= 20150226 then e.optionCount == b[30] && OptionsAt(e.options, b, 31)
    else true
  }

  ghost predicate FlagsIn(e: EquipItem, flag: uint8) {
    && e.isIdentified as int == flag as int % 2
    && e.isDamaged as int == flag as int / 2 % 2
    && e.placeETCTab as int == flag as int / 4 % 2
  }

  /** The flag byte is the last one; before there was one, the last field ends the entry. */
  ghost predicate FlagAt(e: EquipItem, b: Bytes, pv: uint32)
    requires EquipItemSize(pv) <= |b|
  {
    var end := EquipItemSize(pv);
    if pv >= 20200916 then end == 68 && FlagsIn(e, b[67])
    else if pv >= 20181121 then end == 67 && FlagsIn(e, b[66])
    else if pv >= 20150226 then end == 57 && FlagsIn(e, b[56])
    else if pv >= 20120925 then end == 31 && FlagsIn(e, b[30])
    else end == if pv >= 20100629 then 26 + 2 else if pv >= 20080102 then 24 + 2 else if pv >= 20071002 then 20 + 4
                else 12 + 8
  }

  ghost predicate FieldsAt(e: EquipItem, b: Bytes, pv: uint32)
    requires Shaped(e) && EquipItemSize(pv) <= |b|
  {
    HeadAt(e, b, pv) && MiddleAt(e, b, pv) && TailAt(e, b, pv) && FlagAt(e, b, pv)
  }

  lemma HeadInPrefix(e: EquipItem, b: Bytes, n: nat, pv: uint32)
    requires EquipItemSize(pv) <= n <= |b| && HeadAt(e, b, pv)
    ensures HeadAt(e, b[..n], pv)
  {
  }

  lemma MiddleInPrefix(e: EquipItem, b: Bytes, n: nat, pv: uint32)
    requires Shaped(e) && EquipItemSize(pv) <= n <= |b| && MiddleAt(e, b, pv)
    ensures MiddleAt(e, b[..n], pv)
  {
  }

  lemma TailInPrefix(e: EquipItem, b: Bytes, n: nat, pv: uint32)
    requires Shaped(e) && EquipItemSize(pv) <= n <= |b| && TailAt(e, b, pv)
    ensures TailAt(e, b[..n], pv)
  {
  }

  // ---------- decoding one entry ----------

  method ReadOption(b: Bytes, off: nat) returns (o: ItemOption)
    requires off + 5 <= |b|
    ensures b[..off + 5] == b[..off] + OptionWire(o)
    ensures o == ItemOption(SignedTwo(b, off), SignedTwo(b, off + 2), b[off + 4])
  {
    ReadsTwo(b, off);
    ReadsTwo(b, off + 2);
    o := ItemOption(LeI16(b, off), LeI16(b, off + 2), b[off + 4]);
    SliceI16(b, off);
    SliceI16(b, off + 2);
    SliceU8(b, off + 4);
  }

  method ReadOptions(b: Bytes, off0: nat) returns (options: seq<ItemOption>, off: nat)
    requires off0 + 25 <= |b|
    ensures off == off0 + 25 && |options| == 5
    ensures b[..off] == b[..off0] + Options(options)
    ensures OptionsAt(options, b, off0)
  {
    options, off := [], off0;
    for i := 0 to 5
      invariant off == off0 + 5 * i && |options| == i
      invariant b[..off] == b[..off0] + Options(options)
      invariant OptionsAt(options, b, off0)
    {
      var o := ReadOption(b, off);
      assert (options + [o])[..|options|] == options;
      options, off := options + [o], off + 5;
    }
  }

  method ReadIds(b: Bytes, pv: uint32, was: uint8)
    returns (index: uint16, itid: uint32, kind: uint8, isIdentified: uint8, off: nat)
    requires EquipItemSize(pv) <= |b|
    ensures off == (if pv >= 20181121 then 7 else if pv >= 20120925 then 5 else 6)
    ensures b[..off] ==
            U16(index) + Wide(itid, pv >= 20181121) + [kind] + When(pv < 20120925, [isIdentified])
    ensures pv < 20181121 ==> itid < 0x1_0000
    ensures index == Two(b, 0)
    ensures if pv >= 20181121 then itid == Four(b, 2) && kind == b[6] else itid == Two(b, 2) && kind == b[4]
    ensures isIdentified == if pv < 20120925 then b[5] else was
  {
    index := LeU16(b, 0);
    SliceU16(b, 0);
    assert b[..2] == U16(index);
    ReadsTwo(b, 0);
    off := 2;
    itid, off := ReadWide(b, off, pv >= 20181121);
    kind, off := ReadByteIf(true, b, off, 0);
    isIdentified, off := ReadByteIf(pv < 20120925, b, off, was);
  }

  /** The cursor up to and including the original position of RefiningLevel. */
  method DecodeHead(dst0: EquipItem, b: Bytes, pv: uint32) returns (dst: EquipItem, off: nat)
    requires Shaped(dst0) && EquipItemSize(pv) <= |b|
    ensures off == (if pv >= 20200916 then 15 else if pv >= 20181121 then 16 else if pv >= 20120925 then 14 else 12)
    ensures b[..off] == HeadWire(dst, pv) && HeadAt(dst, b, pv)
    ensures dst == dst0.(index := dst.index, itid := dst.itid, kind := dst.kind, location := dst.location,
                         wearState := dst.wearState, refiningLevel := dst.refiningLevel,
                         isIdentified := dst.isIdentified, isDamaged := dst.isDamaged)
    ensures pv < 20181121 ==> dst.itid < 0x1_0000
    ensures pv < 20120925 ==> dst.location < 0x1_0000 && dst.wearState < 0x1_0000
  {
    var index, itid, kind, isIdentified;
    index, itid, kind, isIdentified, off := ReadIds(b, pv, dst0.isIdentified);
    var location, wearState, isDamaged, refiningLevel;
    location, off := ReadWide(b, off, pv >= 20120925);
    wearState, off := ReadWide(b, off, pv >= 20120925);
    isDamaged, off := ReadByteIf(pv < 20120925, b, off, dst0.isDamaged);
    refiningLevel, off := ReadByteIf(pv < 20200916, b, off, dst0.refiningLevel);
    dst := dst0.(index := index, itid := itid, kind := kind, location := location, wearState := wearState,
                 refiningLevel := refiningLevel, isIdentified := isIdentified, isDamaged := isDamaged);
  }

  /** Cards and the three fields that followed one after another. */
  method DecodeMiddle(dst0: EquipItem, b: Bytes, pv: uint32, off0: nat) returns (dst: EquipItem, off: nat)
    requires Shaped(dst0) && EquipItemSize(pv) <= |b|
    requires off0 == (if pv >= 20200916 then 15 else if pv >= 20181121 then 16 else if pv >= 20120925 then 14 else 12)
    requires b[..off0] == HeadWire(dst0, pv)
    ensures off == (if pv >= 20200916 then 39 else if pv >= 20181121 then 40 else if pv >= 20120925 then 30
                    else if pv >= 20100629 then 28 else if pv >= 20080102 then 26
                    else if pv >= 20071002 then 24 else 20)
    ensures b[..off] == MiddleWire(dst, pv) && Shaped(dst) && MiddleAt(dst, b, pv)
    ensures dst == dst0.(cards := dst.cards, hireExpireDate := dst.hireExpireDate,
                         bindOnEquipType := dst.bindOnEquipType, spriteNumber := dst.spriteNumber)
    ensures pv < 20181121 ==> forall i :: 0 <= i < 4 ==> dst.cards[i] < 0x1_0000
    ensures pv < 20071002 ==> dst.hireExpireDate == dst0.hireExpireDate
    ensures pv < 20080102 ==> dst.bindOnEquipType == dst0.bindOnEquipType
    ensures pv < 20100629 ==> dst.spriteNumber == dst0.spriteNumber
  {
    off := off0;
    var cards, hireExpireDate, bindOnEquipType, spriteNumber;
    cards, off := ReadCards(b, off, pv >= 20181121);
    hireExpireDate, off := ReadI32If(pv >= 20071002, b, off, dst0.hireExpireDate);
    bindOnEquipType, off := ReadU16If(pv >= 20080102, b, off, dst0.bindOnEquipType);
    spriteNumber, off := ReadU16If(pv >= 20100629, b, off, dst0.spriteNumber);
    dst := dst0.(cards := cards, hireExpireDate := hireExpireDate, bindOnEquipType := bindOnEquipType,
                 spriteNumber := spriteNumber);
    assert HeadWire(dst, pv) == HeadWire(dst0, pv);
  }

  /** The era-dependent fields before the flag byte. */
  method DecodeTail(dst0: EquipItem, b: Bytes, pv: uint32, off0: nat) returns (dst: EquipItem, off: nat)
    requires Shaped(dst0) && EquipItemSize(pv) <= |b|
    requires off0 == (if pv >= 20200916 then 39 else if pv >= 20181121 then 40 else if pv >= 20120925 then 30
                      else if pv >= 20100629 then 28 else if pv >= 20080102 then 26
                      else if pv >= 20071002 then 24 else 20)
    requires b[..off0] == MiddleWire(dst0, pv)
    ensures off == EquipItemSize(pv) - (if pv >= 20120925 then 1 else 0)
    ensures b[..off] == TailWire(dst, pv) && Shaped(dst) && TailAt(dst, b, pv)
    ensures dst == dst0.(optionCount := dst.optionCount, options := dst.options,
                         refiningLevel := dst.refiningLevel, grade := dst.grade)
    ensures pv < 20150226 ==> dst.optionCount == dst0.optionCount && dst.options == dst0.options
    ensures pv < 20200916 ==> dst.refiningLevel == dst0.refiningLevel && dst.grade == dst0.grade
  {
    off := off0;
    var optionCount, refiningLevel, grade;
    var options := dst0.options;
    optionCount, off := ReadByteIf(pv >= 20150226, b, off, dst0.optionCount);
    if pv >= 20150226 {
      options, off := ReadOptions(b, off);
    }
    refiningLevel, off := ReadByteIf(pv >= 20200916, b, off, dst0.refiningLevel);
    grade, off := ReadByteIf(pv >= 20200916, b, off, dst0.grade);
    dst := dst0.(optionCount := optionCount, options := options, refiningLevel := refiningLevel, grade := grade);
    assert MiddleWire(dst, pv) == MiddleWire(dst0, pv);
  }

  function Spare(b: Bytes, pv: uint32): nat
    requires EquipItemSize(pv) <= |b|
  {
    if pv >= 20120925 then b[EquipItemSize(pv) - 1] / 8 else 0
  }

  /**
   One entry: what is written to `dst` serialises back to exactly the first
   EquipItemSize(pv) bytes (the flag byte's unused bits aside, which are passed along), the
   fields the era lacks are untouched, each field is what lies at its offset, and the cursor
   stops at the size-table value.
   */
  method DecodeEquipItemEntry(dst0: EquipItem, b: Bytes, pv: uint32) returns (dst: EquipItem, off: nat)
    requires Shaped(dst0) && EquipItemSize(pv) <= |b|
    ensures off + (if pv >= 20120925 then 1 else 0) == EquipItemSize(pv)
    ensures Narrow(dst, pv) && SameAbsent(dst, dst0, pv)
    ensures EquipWire(dst, Spare(b, pv), pv) == b[..EquipItemSize(pv)]
    ensures FieldsAt(dst, b, pv)
  {
    dst, off := DecodeHead(dst0, b, pv);
    dst, off := DecodeMiddle(dst, b, pv, off);
    dst, off := DecodeTail(dst, b, pv, off);
    dst := DecodeFlag(dst, b, pv, off);
  }

  lemma TailIgnoresFlag(d: EquipItem, e: EquipItem, pv: uint32)
    requires pv >= 20120925
    requires d == e.(isIdentified := d.isIdentified, isDamaged := d.isDamaged, placeETCTab := d.placeETCTab)
    ensures TailWire(d, pv) == TailWire(e, pv)
  {
    assert HeadWire(d, pv) == HeadWire(e, pv);
  }

  lemma FlagBits(flag: uint8)
    ensures flag % 2 + 2 * (flag / 2 % 2) + 4 * (flag / 4 % 2) + 8 * (flag / 8) == flag as int
    ensures flag / 8 < 32
  {
    assert flag / 4 == 2 * (flag / 8) + flag / 4 % 2;
    assert flag / 2 == 2 * (flag / 4) + flag / 2 % 2;
  }

  method DecodeFlag(dst0: EquipItem, b: Bytes, pv: uint32, off: nat) returns (dst: EquipItem)
    requires EquipItemSize(pv) <= |b| && off == EquipItemSize(pv) - (if pv >= 20120925 then 1 else 0)
    requires b[..off] == TailWire(dst0, pv) && Narrow(dst0.(isIdentified := 0, isDamaged := 0, placeETCTab := 0), pv)
    ensures dst == dst0.(isIdentified := dst.isIdentified, isDamaged := dst.isDamaged, placeETCTab := dst.placeETCTab)
    ensures Narrow(dst, pv) && FlagAt(dst, b, pv) && (pv < 20120925 ==> dst == dst0)
    ensures EquipWire(dst, Spare(b, pv), pv) == b[..EquipItemSize(pv)]
  {
    dst := dst0;
    if pv >= 20120925 {
      var flag := b[off];
      SliceU8(b, off);
      dst := dst.(isIdentified := flag % 2, isDamaged := flag / 2 % 2, placeETCTab := flag / 4 % 2);
      TailIgnoresFlag(dst, dst0, pv);
      FlagBits(flag);
    }
  }

  // ---------- the layout determines the entry ----------

  lemma OptionInjective(a: ItemOption, b: ItemOption)
    requires OptionWire(a) == OptionWire(b)
    ensures a == b
  {
    SplitTail(I16(a.index) + I16(a.value), [a.param], I16(b.index) + I16(b.value), [b.param]);
    SplitTail(I16(a.index), I16(a.value), I16(b.index), I16(b.value));
    I16Injective(a.index, b.index);
    I16Injective(a.value, b.value);
  }

  lemma {:induction false} OptionsInjective(a: seq<ItemOption>, b: seq<ItemOption>)
    requires |a| == |b| && Options(a) == Options(b)
    ensures a == b
  {
    if a != [] {
      var n := |a| - 1;
      SplitTail(Options(a[..n]), OptionWire(a[n]), Options(b[..n]), OptionWire(b[n]));
      OptionInjective(a[n], b[n]);
      OptionsInjective(a[..n], b[..n]);
      assert a == a[..n] + [a[n]] && b == b[..n] + [b[n]];
    }
  }

  lemma HeadInjective(d: EquipItem, e: EquipItem, pv: uint32)
    requires Narrow(d, pv) && Narrow(e, pv) && HeadWire(d, pv) == HeadWire(e, pv)
    ensures d.index == e.index && d.itid == e.itid && d.kind == e.kind
    ensures d.location == e.location && d.wearState == e.wearState
    ensures pv < 20120925 ==> d.isIdentified == e.isIdentified && d.isDamaged == e.isDamaged
    ensures pv < 20200916 ==> d.refiningLevel == e.refiningLevel
  {
    var id, place := pv >= 20181121, pv >= 20120925;
    var d1, e1 := U16(d.index), U16(e.index);
    var d2, e2 := d1 + Wide(d.itid, id), e1 + Wide(e.itid, id);
    var d3, e3 := d2 + [d.kind], e2 + [e.kind];
    var d4, e4 := d3 + When(!place, [d.isIdentified]), e3 + When(!place, [e.isIdentified]);
    var d5, e5 := d4 + Wide(d.location, place), e4 + Wide(e.location, place);
    var d6, e6 := d5 + Wide(d.wearState, place), e5 + Wide(e.wearState, place);
    var d7, e7 := d6 + When(!place, [d.isDamaged]), e6 + When(!place, [e.isDamaged]);
    SplitTail(d7, When(pv < 20200916, [d.refiningLevel]), e7, When(pv < 20200916, [e.refiningLevel]));
    SplitTail(d6, When(!place, [d.isDamaged]), e6, When(!place, [e.isDamaged]));
    SplitTail(d5, Wide(d.wearState, place), e5, Wide(e.wearState, place));
    SplitTail(d4, Wide(d.location, place), e4, Wide(e.location, place));
    SplitTail(d3, When(!place, [d.isIdentified]), e3, When(!place, [e.isIdentified]));
    SplitTail(d2, [d.kind], e2, [e.kind]);
    SplitTail(d1, Wide(d.itid, id), e1, Wide(e.itid, id));
    U16Injective(d.index, e.index);
    WideInjective(d.itid, e.itid, id);
    WideInjective(d.location, e.location, place);
    WideInjective(d.wearState, e.wearState, place);
  }

  lemma MiddleInjective(d: EquipItem, e: EquipItem, pv: uint32)
    requires Narrow(d, pv) && Narrow(e, pv) && MiddleWire(d, pv) == MiddleWire(e, pv)
    ensures HeadWire(d, pv) == HeadWire(e, pv) && d.cards == e.cards
    ensures pv >= 20071002 ==> d.hireExpireDate == e.hireExpireDate
    ensures pv >= 20080102 ==> d.bindOnEquipType == e.bindOnEquipType
    ensures pv >= 20100629 ==> d.spriteNumber == e.spriteNumber
  {
    var wide := pv >= 20181121;
    var d1, e1 := HeadWire(d, pv) + Cards(d.cards, wide), HeadWire(e, pv) + Cards(e.cards, wide);
    var d2, e2 := d1 + When(pv >= 20071002, I32(d.hireExpireDate)), e1 + When(pv >= 20071002, I32(e.hireExpireDate));
    var d3, e3 := d2 + When(pv >= 20080102, U16(d.bindOnEquipType)), e2 + When(pv >= 20080102, U16(e.bindOnEquipType));
    SplitTail(d3, When(pv >= 20100629, U16(d.spriteNumber)), e3, When(pv >= 20100629, U16(e.spriteNumber)));
    SplitTail(d2, When(pv >= 20080102, U16(d.bindOnEquipType)), e2, When(pv >= 20080102, U16(e.bindOnEquipType)));
    SplitTail(d1, When(pv >= 20071002, I32(d.hireExpireDate)), e1, When(pv >= 20071002, I32(e.hireExpireDate)));
    CardsLength(d.cards, wide);
    CardsLength(e.cards, wide);
    SplitTail(HeadWire(d, pv), Cards(d.cards, wide), HeadWire(e, pv), Cards(e.cards, wide));
    if !wide {
      NarrowCards(d.cards);
      NarrowCards(e.cards);
    }
    CardsInjective(d.cards, e.cards, wide);
    I32Injective(d.hireExpireDate, e.hireExpireDate);
    U16Injective(d.bindOnEquipType, e.bindOnEquipType);
    U16Injective(d.spriteNumber, e.spriteNumber);
  }

  lemma TailInjective(d: EquipItem, e: EquipItem, pv: uint32)
    requires Narrow(d, pv) && Narrow(e, pv) && TailWire(d, pv) == TailWire(e, pv)
    ensures MiddleWire(d, pv) == MiddleWire(e, pv)
    ensures pv >= 20150226 ==> d.optionCount == e.optionCount && d.options == e.options
    ensures pv >= 20200916 ==> d.refiningLevel == e.refiningLevel && d.grade == e.grade
  {
    var opt, rep := pv >= 20150226, pv >= 20200916;
    var d1, e1 := MiddleWire(d, pv) + When(opt, [d.optionCount]), MiddleWire(e, pv) + When(opt, [e.optionCount]);
    var d2, e2 := d1 + When(opt, Options(d.options)), e1 + When(opt, Options(e.options));
    var d3, e3 := d2 + When(rep, [d.refiningLevel]), e2 + When(rep, [e.refiningLevel]);
    SplitTail(d3, When(rep, [d.grade]), e3, When(rep, [e.grade]));
    SplitTail(d2, When(rep, [d.refiningLevel]), e2, When(rep, [e.refiningLevel]));
    OptionsLength(d.options);
    OptionsLength(e.options);
    SplitTail(d1, When(opt, Options(d.options)), e1, When(opt, Options(e.options)));
    SplitTail(MiddleWire(d, pv), When(opt, [d.optionCount]), MiddleWire(e, pv), When(opt, [e.optionCount]));
    if opt { OptionsInjective(d.options, e.options); }
  }

  lemma FlagInjective(d: EquipItem, s: nat, e: EquipItem, t: nat, pv: uint32)
    requires Narrow(d, pv) && Narrow(e, pv) && s < 32 && t < 32 && Flag(d, s, pv) == Flag(e, t, pv)
    ensures pv >= 20120925 ==> d.isIdentified == e.isIdentified && d.isDamaged == e.isDamaged
    ensures pv >= 20120925 ==> d.placeETCTab == e.placeETCTab && s == t
  {
    if pv >= 20120925 { assert Flag(d, s, pv)[0] == Flag(e, t, pv)[0]; }
  }

  /** Two entries with the same bytes are the same entry, with the same unused flag bits. */
  lemma WireInjective(d: EquipItem, s: nat, e: EquipItem, t: nat, pv: uint32)
    requires Fits(d, pv) && Fits(e, pv) && s < 32 && t < 32
    requires EquipWire(d, s, pv) == EquipWire(e, t, pv)
    ensures d == e && (pv >= 20120925 ==> s == t)
  {
    SplitTail(TailWire(d, pv), Flag(d, s, pv), TailWire(e, pv), Flag(e, t, pv));
    FlagInjective(d, s, e, t, pv);
    TailInjective(d, e, pv);
    MiddleInjective(d, e, pv);
    HeadInjective(d, e, pv);
  }

  // ---------- the list ----------

  ghost predicate EntryIs(e: EquipItem, b: Bytes, pv: uint32) {
    Fits(e, pv) && |b| == EquipItemSize(pv) && EquipWire(e, Spare(b, pv), pv) == b && FieldsAt(e, b, pv)
  }

  lemma DecodedIs(dst: EquipItem, b: Bytes, pv: uint32)
    requires EquipItemSize(pv) <= |b| && Fits(dst, pv)
    requires EquipWire(dst, Spare(b, pv), pv) == b[..EquipItemSize(pv)] && FieldsAt(dst, b, pv)
    ensures EntryIs(dst, b[..EquipItemSize(pv)], pv)
  {
    HeadInPrefix(dst, b, EquipItemSize(pv), pv);
    MiddleInPrefix(dst, b, EquipItemSize(pv), pv);
    TailInPrefix(dst, b, EquipItemSize(pv), pv);
  }

  method DecodeAt(dst0: EquipItem, b: Bytes, pv: uint32) returns (dst: EquipItem)
    requires dst0 == ZERO && EquipItemSize(pv) <= |b|
    ensures EntryIs(dst, b[..EquipItemSize(pv)], pv)
  {
    var off;
    dst, off := DecodeEquipItemEntry(dst0, b, pv);
    DecodedIs(dst, b, pv);
  }

  /** The first entries of the body, decoded. */
  ghost predicate DecodesFirst(items: seq<EquipItem>, body: Bytes, pv: uint32) {
    && |items| <= |body| / EquipItemSize(pv)
    && forall i :: 0 <= i < |items| ==> EntryIs(items[i], Entry(body, EquipItemSize(pv), i), pv)
  }

  /** The items are the whole entries of the body, in order. */
  ghost predicate Decodes(items: seq<EquipItem>, body: Bytes, pv: uint32) {
    |items| == |body| / EquipItemSize(pv) && DecodesFirst(items, body, pv)
  }

  /** An entry with the bytes of another one is that one. */
  lemma EntryOfWire(d: EquipItem, b: Bytes, e: EquipItem, spare: nat, pv: uint32)
    requires EntryIs(d, b, pv) && Fits(e, pv) && spare < 32 && EquipWire(e, spare, pv) == b
    ensures d == e
  {
    WireInjective(d, Spare(b, pv), e, spare, pv);
  }

  lemma OneMore(items: seq<EquipItem>, e: EquipItem, body: Bytes, pv: uint32)
    requires DecodesFirst(items, body, pv) && |items| < |body| / EquipItemSize(pv)
    requires EntryIs(e, Entry(body, EquipItemSize(pv), |items|), pv)
    ensures DecodesFirst(items + [e], body, pv)
  {
  }

  method DecodeEquipItems(body: Bytes, pv: uint32) returns (items: array<EquipItem>)
    ensures fresh(items) && Decodes(items[..], body, pv)
  {
    var n := |body| / EquipItemSize(pv);
    items := new EquipItem[n](_ => ZERO);
    ghost var done: seq<EquipItem> := [];
    for i := 0 to n
      invariant items[..i] == done && DecodesFirst(done, body, pv)
      invariant forall k :: i <= k < n ==> items[k] == ZERO
    {
      var dst := DecodeAt(items[i], From(body, EquipItemSize(pv), i), pv);
      OneMore(done, dst, body, pv);
      items[i] := dst;
      done := done + [dst];
    }
    assert items[..] == done;
  }

  /** An entry to be sent, and the unused bits of its flag byte. */
  datatype Sent = Sent(item: EquipItem, spare: nat)

  ghost predicate Sendable(es: seq<Sent>, pv: uint32) {
    forall i :: 0 <= i < |es| ==> Fits(es[i].item, pv) && es[i].spare < 32
  }

  ghost function Serialised(es: seq<Sent>, pv: uint32): seq<Bytes>
    requires Sendable(es, pv)
  {
    seq(|es|, i requires 0 <= i < |es| => EquipWire(es[i].item, es[i].spare, pv))
  }

  /**
   Decoding n serialised entries followed by a partial one returns exactly those n entries,
   at every version: era-absent fields zero, narrow fields widened.
   */
  lemma ListRoundTrip(items: seq<EquipItem>, es: seq<Sent>, tail: Bytes, pv: uint32)
    requires Sendable(es, pv) && |tail| < EquipItemSize(pv)
    requires Decodes(items, Joined(Serialised(es, pv)) + tail, pv)
    ensures |items| == |es| && forall i :: 0 <= i < |es| ==> items[i] == es[i].item
  {
    var sz, wires := EquipItemSize(pv), Serialised(es, pv);
    forall i | 0 <= i < |es| ensures |wires[i]| == sz { SizeOfWire(es[i].item, es[i].spare, pv); }
    JoinedEntries(wires, sz, tail);
    forall i | 0 <= i < |es| ensures items[i] == es[i].item {
      assert EntryIs(items[i], Entry(Joined(wires) + tail, sz, i), pv);
      EntryOfWire(items[i], wires[i], es[i].item, es[i].spare, pv);
    }
  }

  /** A body decodes in only one way. */
  lemma DecodingUnique(items: seq<EquipItem>, items': seq<EquipItem>, body: Bytes, pv: uint32)
    requires Decodes(items, body, pv) && Decodes(items', body, pv)
    ensures items == items'
  {
    forall i | 0 <= i < |items| ensures items[i] == items'[i] {
      var b := Entry(body, EquipItemSize(pv), i);
      assert EntryIs(items[i], b, pv) && EntryIs(items'[i], b, pv);
      EntryOfWire(items[i], b, items'[i], Spare(b, pv), pv);
    }
  }

  /** Decoding distributes over concatenation at an entry boundary. */
  lemma DecodeConcat(xs: seq<EquipItem>, ys: seq<EquipItem>, a: Bytes, b: Bytes, pv: uint32)
    requires Decodes(xs, a, pv) && Decodes(ys, b, pv) && |a| % EquipItemSize(pv) == 0
    ensures Decodes(xs + ys, a + b, pv)
  {
    var sz := EquipItemSize(pv);
    EntryCountOfConcat(|a|, |b|, sz);
    forall i | 0 <= i < |xs + ys| ensures EntryIs((xs + ys)[i], Entry(a + b, sz, i), pv) {
      EntriesOfConcat(a, b, sz, i);
      if i < |xs| {
        assert EntryIs(xs[i], Entry(a, sz, i), pv);
      } else {
        assert EntryIs(ys[i - |xs|], Entry(b, sz, i - |xs|), pv);
      }
    }
  }
}
