/** Which spellings of a packet id are the same id, and what number an id spells. */
module PacketIDs {
  import opened Words
  import opened Strings
  import opened Spelling
  import opened SemanticModel
  import opened SemanticLaws
  import opened SemanticRefinement
  import opened SemanticRuns
  import JoinPass

  const CAPITALS := "ABCDEFGHIJKLMNOPQRSTUVWXYZ"
  const SMALLS := "abcdefghijklmnopqrstuvwxyz"

  // ---------- letter case ----------

  /** The same character, or the two cases of a letter. */
  predicate SameLetter(c: char, d: char) {
    c == d || exists i :: 0 <= i < 26 && c in [CAPITALS[i], SMALLS[i]] && d in [CAPITALS[i], SMALLS[i]]
  }

  predicate SameLetters(s: string, t: string) {
    |s| == |t| && forall i :: 0 <= i < |s| ==> SameLetter(s[i], t[i])
  }

  lemma LetterAt(i: nat)
    requires i < 26
    ensures CAPITALS[i] as int == 'A' as int + i && SMALLS[i] as int == 'a' as int + i
  {
  }

  lemma SmallExactly(c: char)
    ensures c in SMALLS <==> 'a' <= c <= 'z'
  {
    forall i | 0 <= i < 26 ensures SMALLS[i] as int == 'a' as int + i { LetterAt(i); }
    if 'a' <= c <= 'z' { assert SMALLS[c as int - 'a' as int] == c; }
  }

  lemma SameLetterExactly(c: char, d: char)
    ensures SameLetter(c, d) <==> Upper(c) == Upper(d)
  {
    forall i | 0 <= i < 26 ensures CAPITALS[i] as int == 'A' as int + i && SMALLS[i] as int == 'a' as int + i {
      LetterAt(i);
    }
    if Upper(c) == Upper(d) && c != d {
      var i := Upper(c) as int - 'A' as int;
      assert c in [CAPITALS[i], SMALLS[i]] && d in [CAPITALS[i], SMALLS[i]];
    }
  }

  // ---------- spellings ----------

  predicate Prefixed(s: string) {
    |s| >= 2 && s[0] == '0' && s[1] in ['x', 'X']
  }

  /** White space around an optional 0x and the rest. */
  ghost predicate SpellsAs(s: string, pre: string, x: string, body: string, post: string) {
    && s == pre + (x + body) + post && AllSpace(pre) && AllSpace(post) && Tight(x + body)
    && (x == "" || (Prefixed(x) && |x| == 2)) && (x == "" ==> !Prefixed(body))
  }

  ghost predicate Spells(s: string, body: string) {
    exists pre, x, post :: SpellsAs(s, pre, x, body, post)
  }

  lemma SpellsSomething(s: string) returns (body: string)
    requires !AllSpace(s)
    ensures Spells(s, body)
  {
    var pre, post := TrimParts(s);
    var trimmed := TrimSpace(s);
    TrimToNothing(s);
    if Prefixed(trimmed) {
      body := trimmed[2..];
      assert trimmed == trimmed[..2] + body;
      assert SpellsAs(s, pre, trimmed[..2], body, post);
    } else {
      body := trimmed;
      assert trimmed == "" + body;
      assert SpellsAs(s, pre, "", body, post);
    }
  }

  lemma CasesAppend(x: string, body: string)
    ensures ToLower(x + body) == ToLower(x) + ToLower(body)
    ensures ToUpper(ToLower(body)) == ToUpper(body)
  {
  }

  /** Lower-cased, a prefix taken off, and upper-cased again. */
  function Refold(trimmed: string): string {
    var lower := ToLower(trimmed);
    if "0x" <= lower then ToUpper(lower[2..]) else ToUpper(lower)
  }

  lemma RefoldBare(body: string)
    requires !Prefixed(body)
    ensures Refold(body) == ToUpper(body)
  {
    CasesAppend("", body);
    PrefixKept(body);
  }

  lemma RefoldPrefixed(x: string, body: string)
    requires Prefixed(x) && |x| == 2
    ensures Refold(x + body) == ToUpper(body)
  {
    CasesAppend(x, body);
    assert ToLower(x) == "0x" && ToLower(x + body)[2..] == ToLower(body);
  }

  lemma NormRefolds(s: string)
    requires TrimSpace(s) != ""
    ensures NormPacketID(s) == "0x" + Refold(TrimSpace(s))
  {
    assert ToLower(TrimSpace(s)) != "";
  }

  lemma PrefixKept(body: string)
    ensures "0x" <= ToLower(body) ==> Prefixed(body)
  {
    if |body| >= 2 { assert ToLower(body)[0] == Lower(body[0]) && ToLower(body)[1] == Lower(body[1]); }
  }

  lemma NormOfParts(s: string, pre: string, x: string, body: string, post: string)
    requires SpellsAs(s, pre, x, body, post)
    ensures NormPacketID(s) == "0x" + ToUpper(body)
  {
    TrimOf(pre, x + body, post);
    NormRefolds(s);
    if x == "" {
      assert x + body == body;
      RefoldBare(body);
    } else {
      RefoldPrefixed(x, body);
    }
  }

  lemma NormOfSpelling(s: string, body: string)
    requires Spells(s, body)
    ensures NormPacketID(s) == "0x" + ToUpper(body)
  {
    var pre, x, post :| SpellsAs(s, pre, x, body, post);
    NormOfParts(s, pre, x, body, post);
  }

  /** Both blank, or alike up to white space around them, letter case and an optional 0x. */
  ghost predicate SameID(s: string, t: string) {
    || (AllSpace(s) && AllSpace(t))
    || exists b, c :: Spells(s, b) && Spells(t, c) && SameLetters(b, c)
  }

  lemma UpperExactly(b: string, c: string)
    ensures ToUpper(b) == ToUpper(c) <==> SameLetters(b, c)
  {
    if |b| == |c| {
      forall i | 0 <= i < |b| ensures SameLetter(b[i], c[i]) <==> ToUpper(b)[i] == ToUpper(c)[i] {
        SameLetterExactly(b[i], c[i]);
      }
    }
  }

  lemma NormBlank(s: string)
    ensures NormPacketID(s) == "" <==> AllSpace(s)
  {
    TrimToNothing(s);
  }

  lemma SpellsNoBlank(s: string, body: string)
    requires Spells(s, body)
    ensures !AllSpace(s)
  {
    var pre, x, post :| SpellsAs(s, pre, x, body, post);
    assert s[|pre|] == (x + body)[0];
  }

  /** Two ids normalise alike exactly when they are the same id. */
  lemma NormExactly(s: string, t: string)
    ensures NormPacketID(s) == NormPacketID(t) <==> SameID(s, t)
  {
    NormBlank(s);
    NormBlank(t);
    if !AllSpace(s) && !AllSpace(t) {
      var b := SpellsSomething(s);
      var c := SpellsSomething(t);
      NormOfSpelling(s, b);
      NormOfSpelling(t, c);
      if NormPacketID(s) == NormPacketID(t) { SamePrefix(ToUpper(b), ToUpper(c)); UpperExactly(b, c); }
      if SameID(s, t) { SameIDNorms(s, t); }
    } else if SameID(s, t) && !(AllSpace(s) && AllSpace(t)) {
      var b, c :| Spells(s, b) && Spells(t, c) && SameLetters(b, c);
      SpellsNoBlank(s, b);
      SpellsNoBlank(t, c);
    }
  }

  lemma SamePrefix(s: string, t: string)
    requires "0x" + s == "0x" + t
    ensures s == t
  {
    assert ("0x" + s)[2..] == s && ("0x" + t)[2..] == t;
  }

  lemma SameIDNorms(s: string, t: string)
    requires SameID(s, t) && !AllSpace(s)
    ensures NormPacketID(s) == NormPacketID(t)
  {
    var b, c :| Spells(s, b) && Spells(t, c) && SameLetters(b, c);
    NormOfSpelling(s, b);
    NormOfSpelling(t, c);
    UpperExactly(b, c);
  }

  /** A normal form is 0x and no lower-case letter after it. */
  lemma NormForm(s: string)
    requires !AllSpace(s)
    ensures var n := NormPacketID(s);
            |n| >= 2 && n[0] == '0' && n[1] == 'x' && forall i :: 2 <= i < |n| ==> n[i] !in SMALLS
  {
    var body := SpellsSomething(s);
    NormOfSpelling(s, body);
    var n := NormPacketID(s);
    forall i | 2 <= i < |n| ensures n[i] !in SMALLS { SmallExactly(n[i]); }
  }

  // ---------- the number an id spells ----------

  /** Hex digits of either case, the last of them the lowest; leading zeros are allowed. */
  ghost predicate HexNumeral(s: string, n: nat)
    decreases |s|
  {
    && |s| > 0 && HexFor(s[|s| - 1], n % 16)
    && if |s| == 1 then n < 16 else HexNumeral(s[..|s| - 1], n / 16)
  }

  lemma {:induction false} HexValueExactly(s: string, n: nat)
    requires s != []
    ensures JoinPass.HexValue(s) == Some(n) <==> HexNumeral(s, n)
  {
    var front, last := s[..|s| - 1], s[|s| - 1];
    HexCharReads(last, n % 16);
    LastDigit(front, last, n);
    if |s| == 1 {
      assert JoinPass.HexValue(front) == Some(0);
    } else {
      HexValueExactly(front, n / 16);
    }
  }

  lemma LastDigit(front: string, last: char, n: nat)
    ensures JoinPass.HexValue(front + [last]) == Some(n) <==>
            JoinPass.HexValue(front) == Some(n / 16) && HexDigit(last) == Some(n % 16)
  {
    JoinPass.HexValueAppend(front, last);
    match (JoinPass.HexValue(front), HexDigit(last))
    case (Some(hi), Some(lo)) =>
      HexBelow16(last);
      assert (16 * hi + lo) / 16 == hi && (16 * hi + lo) % 16 == lo;
    case _ =>
  }

  /** The join pass reads an id, with or without 0x, as the 16-bit number it spells, and no other. */
  lemma ParsesExactly(x: string, s: string, id: uint16)
    requires (x == "" && !Prefixed(s)) || (Prefixed(x) && |x| == 2)
    ensures JoinPass.ParseHexID(x + s) == Some(id) <==> HexNumeral(s, id)
  {
    ParseOf(x, s);
    if s != [] { HexValueExactly(s, id); }
  }

  lemma {:induction false} HexValueUpper(s: string)
    ensures JoinPass.HexValue(ToUpper(s)) == JoinPass.HexValue(s)
  {
    if s != [] {
      var n := |s| - 1;
      HexValueUpper(s[..n]);
      assert ToUpper(s)[..n] == ToUpper(s[..n]);
    }
  }

  /** Normalising does not change the number. */
  lemma NormKeepsNumber(s: string)
    requires Tight(s)
    ensures JoinPass.ParseHexID(NormPacketID(s)) == JoinPass.ParseHexID(s)
  {
    var x, body := if Prefixed(s) then s[..2] else "", if Prefixed(s) then s[2..] else s;
    assert s == x + body == "" + (x + body) + "";
    NormOfParts(s, "", x, body, "");
    ParseOf(x, body);
    NormalNumber(body);
  }

  /** The number of an id without its prefix. */
  function Number(body: string): Option<uint16> {
    match JoinPass.HexValue(body)
    case Some(n) => if body != [] && n < 0x1_0000 then Some(n) else None
    case None => None
  }

  lemma ParseOf(x: string, body: string)
    requires (x == "" && !Prefixed(body)) || (Prefixed(x) && |x| == 2)
    ensures JoinPass.ParseHexID(x + body) == Number(body)
  {
    if x == "" { assert x + body == body; } else { assert (x + body)[2..] == body; }
  }

  lemma NumberUpper(body: string)
    ensures Number(ToUpper(body)) == Number(body)
  {
    HexValueUpper(body);
  }

  lemma NormalNumber(body: string)
    ensures JoinPass.ParseHexID("0x" + ToUpper(body)) == Number(body)
  {
    var x := "0x";
    assert Prefixed(x);
    ParseOf(x, ToUpper(body));
    NumberUpper(body);
  }

  // ---------- the calls, for any spelling ----------

  /** The text of a node's id is the id wanted. */
  ghost predicate TextIs(t: Tree, packetID: string) {
    Lookup(t, "packet_id").Some? && SameID(Lookup(t, "packet_id").value.value, packetID)
  }

  lemma TextIsNode(t: Tree, packetID: string)
    ensures TextIs(t, packetID) <==> NodeID(t) == Some(NormPacketID(packetID))
  {
    match Lookup(t, "packet_id")
    case Some(v) => NormExactly(v.value, packetID);
    case None =>
  }

  /** Any spelling of the id of an implementation deletes the first one that has it, and none deletes another. */
  lemma DeleteAnySpelling(t: Tree, packetID: string, i: nat)
    requires Whole(t) && i < |ImplsSeq(t).kids| && TextIs(ImplsSeq(t).kids[i], packetID)
    requires forall k :: 0 <= k < i ==> !TextIs(ImplsSeq(t).kids[k], packetID)
    ensures DeleteFromAction(t, packetID).1 == None
    ensures ImplsSeq(DeleteFromAction(t, packetID).0).kids == ImplsSeq(t).kids[..i] + ImplsSeq(t).kids[i + 1..]
  {
    var items := ImplsSeq(t).kids;
    FirstText(items, packetID, i);
    DeleteLeaves(t, packetID, i);
  }

  lemma FirstText(items: seq<Tree>, packetID: string, i: nat)
    requires i < |items| && TextIs(items[i], packetID) && forall k :: 0 <= k < i ==> !TextIs(items[k], packetID)
    ensures FindImpl(items, NormPacketID(packetID), 0) == Some(i)
  {
    TextIsNode(items[i], packetID);
    forall k | 0 <= k < i ensures NodeID(items[k]) != Some(NormPacketID(packetID)) { TextIsNode(items[k], packetID); }
    FirstNode(items, NormPacketID(packetID), i);
  }

  lemma FirstNode(items: seq<Tree>, want: string, i: nat)
    requires i < |items| && NodeID(items[i]) == Some(want) && forall k :: 0 <= k < i ==> NodeID(items[k]) != Some(want)
    ensures FindImpl(items, want, 0) == Some(i)
  {
  }

  /** Deleting or updating fails exactly when no implementation has that id in any spelling. */
  lemma FindsAnySpelling(t: Tree, packetID: string, structName: Option<string>, min: Option<int>, max: Option<int>)
    ensures DeleteFromAction(t, packetID).1 == Some(ImplNotFound) <==>
            forall k :: 0 <= k < |ImplsSeq(t).kids| ==> !TextIs(ImplsSeq(t).kids[k], packetID)
    ensures UpdateInAction(t, packetID, structName, min, max).1 == Some(ImplNotFound) <==>
            forall k :: 0 <= k < |ImplsSeq(t).kids| ==> !TextIs(ImplsSeq(t).kids[k], packetID)
  {
    var items := ImplsSeq(t).kids;
    match FindImpl(items, NormPacketID(packetID), 0)
    case Some(i) => TextIsNode(items[i], packetID);
    case None =>
      forall k | 0 <= k < |items| ensures !TextIs(items[k], packetID) { TextIsNode(items[k], packetID); }
  }

  /** The id the loader reads of a node: its last packet_id, if that is a scalar and not null. */
  ghost predicate ReadsAs(t: Tree, packetID: string) {
    match LastOf(t, "packet_id")
    case Some(v) => SameID(ScalarString(v), packetID)
    case None => AllSpace(packetID)
  }

  lemma ReadsAsID(t: Tree, packetID: string)
    ensures ReadsAs(t, packetID) <==> ParseImpl(t).packetID == NormPacketID(packetID)
  {
    ImplLast(t);
    NormBlank(packetID);
    match LastOf(t, "packet_id")
    case Some(v) => NormExactly(ScalarString(v), packetID);
    case None =>
  }

  /** Adding is refused exactly when the loader reads that id, in any spelling, of some implementation. */
  lemma AddRefusedAnySpelling(t: Tree, impl: Implementation, keys: seq<string>)
    requires forall k :: k in keys ==> k in impl.fieldMapping
    ensures AddToAction(t, impl, keys).1 == Some(ImplExists) <==>
            exists k :: 0 <= k < |ImplsSeq(t).kids| && ReadsAs(ImplsSeq(t).kids[k], impl.packetID)
  {
    var items, id := ImplsSeq(t).kids, NormPacketID(impl.packetID);
    ExistingIs(t);
    forall k | 0 <= k < |items| ensures ReadsAs(items[k], impl.packetID) <==> Parsed(items)[k].packetID == id {
      ReadsAsID(items[k], impl.packetID);
    }
    if HasID(Parsed(items), id) {
      var k :| 0 <= k < |items| && Parsed(items)[k].packetID == id;
      assert ReadsAs(items[k], impl.packetID);
    }
    if k :| 0 <= k < |items| && ReadsAs(items[k], impl.packetID) { assert Parsed(items)[k].packetID == id; }
  }
}
