/**
 A cursor over an entry whose layout depends on the packet version: each read advances the
 offset past exactly the bytes that serialise the value read.
 */
module Cursor {
  import opened Words
  import opened Wire
  import opened PlainBytes

  /** A field that only some eras have. */
  function When(present: bool, b: Bytes): Bytes {
    if present then b else []
  }

  /** EQUIPSLOTINFO: card numbers, 16 or 32 bits wide. */
  function Cards(cards: seq<uint32>, wide: bool): Bytes {
    if cards == [] then [] else Cards(cards[..|cards| - 1], wide) + Wide(cards[|cards| - 1], wide)
  }

  lemma CardsLength(cards: seq<uint32>, wide: bool)
    ensures |Cards(cards, wide)| == |cards| * (if wide then 4 else 2)
  {
  }

  method ReadWide(b: Bytes, off0: nat, wide: bool) returns (n: uint32, off: nat)
    requires off0 + (if wide then 4 else 2) <= |b|
    ensures off == off0 + (if wide then 4 else 2)
    ensures b[..off] == b[..off0] + Wide(n, wide) && (!wide ==> n < 0x1_0000)
    ensures n == if wide then Four(b, off0) else Two(b, off0)
  {
    if wide {
      SliceU32(b, off0);
      ReadsFour(b, off0);
      n, off := LeU32(b, off0), off0 + 4;
    } else {
      SliceU16(b, off0);
      ReadsTwo(b, off0);
      n, off := LeU16(b, off0), off0 + 2;
    }
  }

  /** A byte that only some eras have. */
  method ReadByteIf(present: bool, b: Bytes, off0: nat, was: uint8) returns (n: uint8, off: nat)
    requires present ==> off0 < |b|
    requires off0 <= |b|
    ensures off == (if present then off0 + 1 else off0) && n == if present then b[off0] else was
    ensures b[..off] == b[..off0] + When(present, [n])
  {
    n, off := was, off0;
    if present {
      SliceU8(b, off0);
      n, off := b[off0], off0 + 1;
    }
  }

  method ReadI32If(present: bool, b: Bytes, off0: nat, was: int32) returns (n: int32, off: nat)
    requires off0 + (if present then 4 else 0) <= |b|
    ensures off == (if present then off0 + 4 else off0) && n == if present then SignedFour(b, off0) else was
    ensures b[..off] == b[..off0] + When(present, I32(n))
  {
    n, off := was, off0;
    if present {
      SliceI32(b, off0);
      ReadsFour(b, off0);
      n, off := LeI32(b, off0), off0 + 4;
    }
  }

  method ReadU16If(present: bool, b: Bytes, off0: nat, was: uint16) returns (n: uint16, off: nat)
    requires off0 + (if present then 2 else 0) <= |b|
    ensures off == (if present then off0 + 2 else off0) && n == if present then Two(b, off0) else was
    ensures b[..off] == b[..off0] + When(present, U16(n))
  {
    n, off := was, off0;
    if present {
      SliceU16(b, off0);
      ReadsTwo(b, off0);
      n, off := LeU16(b, off0), off0 + 2;
    }
  }

  lemma OneMoreCard(before: Bytes, cards: seq<uint32>, card: uint32, wide: bool)
    ensures before + Cards(cards + [card], wide) == before + Cards(cards, wide) + Wide(card, wide)
  {
    assert (cards + [card])[..|cards|] == cards;
  }

  /** The card numbers lie one after another. */
  ghost predicate CardsAt(cards: seq<uint32>, b: Bytes, off: nat, wide: bool)
    requires off + |cards| * (if wide then 4 else 2) <= |b|
  {
    forall i :: 0 <= i < |cards| ==> cards[i] == if wide then Four(b, off + 4 * i) else Two(b, off + 2 * i)
  }

  method ReadCards(b: Bytes, off0: nat, wide: bool) returns (cards: seq<uint32>, off: nat)
    requires off0 + (if wide then 16 else 8) <= |b|
    ensures off == off0 + (if wide then 16 else 8) && |cards| == 4
    ensures b[..off] == b[..off0] + Cards(cards, wide)
    ensures !wide ==> forall i :: 0 <= i < 4 ==> cards[i] < 0x1_0000
    ensures CardsAt(cards, b, off0, wide)
  {
    cards, off := [], off0;
    for i := 0 to 4
      invariant off == off0 + i * (if wide then 4 else 2) && |cards| == i
      invariant b[..off] == b[..off0] + Cards(cards, wide)
      invariant !wide ==> forall k :: 0 <= k < i ==> cards[k] < 0x1_0000
      invariant CardsAt(cards, b, off0, wide)
    {
      var card;
      ghost var off1 := off;
      card, off := ReadWide(b, off, wide);
      OneMoreCard(b[..off0], cards, card, wide);
      assert b[..off] == b[..off1] + Wide(card, wide);
      cards := cards + [card];
    }
  }

  predicate AllNarrow(cards: seq<uint32>) {
    cards == [] || (AllNarrow(cards[..|cards| - 1]) && cards[|cards| - 1] < 0x1_0000)
  }

  lemma {:induction false} CardsInjective(a: seq<uint32>, b: seq<uint32>, wide: bool)
    requires |a| == |b| && Cards(a, wide) == Cards(b, wide)
    requires wide || (AllNarrow(a) && AllNarrow(b))
    ensures a == b
  {
    if a != [] {
      var n := |a| - 1;
      SplitTail(Cards(a[..n], wide), Wide(a[n], wide), Cards(b[..n], wide), Wide(b[n], wide));
      WideInjective(a[n], b[n], wide);
      CardsInjective(a[..n], b[..n], wide);
      SameCards(a, b);
    }
  }

  lemma SameCards(a: seq<uint32>, b: seq<uint32>)
    requires |a| == |b| > 0 && a[..|a| - 1] == b[..|b| - 1] && a[|a| - 1] == b[|b| - 1]
    ensures a == b
  {
    assert a == a[..|a| - 1] + [a[|a| - 1]] && b == b[..|b| - 1] + [b[|b| - 1]];
  }

  lemma {:induction false} NarrowCards(cards: seq<uint32>)
    requires forall i :: 0 <= i < |cards| ==> cards[i] < 0x1_0000
    ensures AllNarrow(cards)
  {
    if cards != [] { NarrowCards(cards[..|cards| - 1]); }
  }
}
