/** The binary fixture file: written by the splitter, read back by the replay tests. */
module Fixture {
  import opened Words
  import opened Wire
  import opened PlainBytes
  import DumpSplitter

  const MAGIC: Bytes := [0x52, 0x41, 0x54, 0x46]  // "RATF"
  const END: Bytes := [0x45, 0x4E, 0x44, 0x20]    // "END "

  /** Tag, length (truncated to 32 bits), data. */
  function Block(tag: uint8, data: Bytes): Bytes {
    [tag] + U32(ToUint32(|data|)) + data
  }

  function Header(packetver: uint32): Bytes {
    MAGIC + U32(1) + U32(packetver)
  }

  function Contents(packetver: uint32, phases: seq<Bytes>): Bytes
    requires |phases| == 3
  {
    Header(packetver) + Block(1, phases[0]) + Block(2, phases[1]) + Block(3, phases[2]) + END
  }

  method WriteFixture(packetver: uint32, phases: seq<Bytes>) returns (w: Bytes)
    requires |phases| == 3
    ensures w == Contents(packetver, phases) && FileLayout(w, packetver, phases)
  {
    FileLaidOut(packetver, phases);
    w := MAGIC;
    w := w + U32(1);
    w := w + U32(packetver);
    var tags: seq<uint8> := [1, 2, 3];
    for i := 0 to 3
      invariant w == Header(packetver) + (if i > 0 then Block(1, phases[0]) else [])
                     + (if i > 1 then Block(2, phases[1]) else []) + (if i > 2 then Block(3, phases[2]) else [])
    {
      w := w + [tags[i]];
      w := w + U32(ToUint32(|phases[i]|));
      w := w + phases[i];
    }
    w := w + END;
  }

  // ---------- the file, byte by byte ----------

  /** Four characters. */
  ghost predicate Spells(b: Bytes, off: nat, word: string)
    requires off + 4 <= |b| && |word| == 4
  {
    forall i :: 0 <= i < 4 ==> b[off + i] as int == word[i] as int
  }

  /** One byte of tag, four of length, and the data. */
  ghost predicate BlockAt(w: Bytes, pos: nat, tag: int, data: Bytes) {
    && pos + 5 + |data| <= |w| && w[pos] as int == tag
    && Four(w, pos + 1) == |data| % 4294967296 && w[pos + 5..pos + 5 + |data|] == data
  }

  /** The last blocks, the very last of them tagged 3, and the end mark. */
  ghost predicate PhasesAt(w: Bytes, pos: nat, phases: seq<Bytes>)
    decreases |phases|
  {
    if phases == [] then pos + 4 <= |w| && Spells(w, pos, "END ")
    else BlockAt(w, pos, 4 - |phases|, phases[0]) && PhasesAt(w, pos + 5 + |phases[0]|, phases[1..])
  }

  /** The buffer starts with such a file. */
  ghost predicate FileIn(w: Bytes, packetver: uint32, phases: seq<Bytes>) {
    && |w| >= 16 && Spells(w, 0, "RATF") && Four(w, 4) == 1 && Four(w, 8) == packetver
    && |phases| == 3 && PhasesAt(w, 12, phases)
  }

  ghost predicate FileLayout(w: Bytes, packetver: uint32, phases: seq<Bytes>)
    requires |phases| == 3
  {
    && FileIn(w, packetver, phases)
    && |w| == 12 + (5 + |phases[0]|) + (5 + |phases[1]|) + (5 + |phases[2]|) + 4
  }

  lemma U32At(before: Bytes, n: uint32, after: Bytes)
    ensures Four(before + U32(n) + after, |before|) == n
  {
    WritesFour(n, 0);
    var w, off := before + U32(n) + after, |before|;
    assert w[off] == U32(n)[0] && w[off + 1] == U32(n)[1] && w[off + 2] == U32(n)[2] && w[off + 3] == U32(n)[3];
  }

  lemma BlockThere(before: Bytes, tag: uint8, data: Bytes, after: Bytes)
    ensures BlockAt(before + Block(tag, data) + after, |before|, tag, data)
  {
    var w, length := before + Block(tag, data) + after, U32(ToUint32(|data|));
    assert w == (before + [tag]) + length + (data + after);
    U32At(before + [tag], ToUint32(|data|), data + after);
    assert w[|before|] == tag && w[|before| + 5..|before| + 5 + |data|] == data;
  }

  lemma HeaderThere(packetver: uint32, after: Bytes)
    ensures var w := Header(packetver) + after;
            |w| == 12 + |after| && Spells(w, 0, "RATF") && Four(w, 4) == 1 && Four(w, 8) == packetver
  {
    var w := Header(packetver) + after;
    assert w == MAGIC + U32(1) + (U32(packetver) + after) == (MAGIC + U32(1)) + U32(packetver) + after;
    U32At(MAGIC, 1, U32(packetver) + after);
    U32At(MAGIC + U32(1), packetver, after);
  }

  lemma EndThere(before: Bytes)
    ensures PhasesAt(before + END, |before|, [])
  {
  }

  lemma BlockFirst(before: Bytes, tag: uint8, data: Bytes, after: Bytes, later: seq<Bytes>)
    requires tag as int == 3 - |later|
    requires PhasesAt(before + Block(tag, data) + after, |before + Block(tag, data)|, later)
    ensures PhasesAt(before + Block(tag, data) + after, |before|, [data] + later)
  {
    BlockThere(before, tag, data, after);
    assert ([data] + later)[1..] == later;
  }

  lemma Associates(a: Bytes, b: Bytes, c: Bytes)
    ensures a + (b + c) == a + b + c
  {
  }

  lemma LastBlock(before: Bytes, z: Bytes)
    ensures PhasesAt(before + Block(3, z) + END, |before|, [z] + [])
  {
    EndThere(before + Block(3, z));
    BlockFirst(before, 3, z, END, []);
  }

  lemma LastTwoBlocks(before: Bytes, y: Bytes, z: Bytes)
    ensures PhasesAt(before + Block(2, y) + (Block(3, z) + END), |before|, [y] + ([z] + []))
  {
    LastBlock(before + Block(2, y), z);
    Associates(before + Block(2, y), Block(3, z), END);
    BlockFirst(before, 2, y, Block(3, z) + END, [z] + []);
  }

  lemma AllBlocks(before: Bytes, x: Bytes, y: Bytes, z: Bytes)
    ensures PhasesAt(before + Block(1, x) + (Block(2, y) + (Block(3, z) + END)), |before|, [x] + ([y] + ([z] + [])))
  {
    LastTwoBlocks(before + Block(1, x), y, z);
    Associates(before + Block(1, x), Block(2, y), Block(3, z) + END);
    BlockFirst(before, 1, x, Block(2, y) + (Block(3, z) + END), [y] + ([z] + []));
  }

  /** Where everything lies in the file that is written. */
  lemma FileLaidOut(packetver: uint32, phases: seq<Bytes>)
    requires |phases| == 3
    ensures FileLayout(Contents(packetver, phases), packetver, phases)
  {
    var h, b1, b2, b3 := Header(packetver), Block(1, phases[0]), Block(2, phases[1]), Block(3, phases[2]);
    AllBlocks(h, phases[0], phases[1], phases[2]);
    assert phases == [phases[0]] + ([phases[1]] + ([phases[2]] + []));
    Associates(h + b1 + b2, b3, END);
    Associates(h + b1, b2, b3 + END);
    Associates(h, b1, b2 + (b3 + END));
    HeaderThere(packetver, b1 + (b2 + (b3 + END)));
  }

  // ---------- the reader ----------

  /** The block at `pos`: its data and where the next one starts. */
  function ReadBlock(b: Bytes, pos: nat, tag: uint8): Option<(Bytes, nat)> {
    if pos + 5 > |b| || b[pos] != tag then None
    else
      var n := LeU32(b, pos + 1);
      if pos + 5 + n > |b| then None else Some((b[pos + 5..pos + 5 + n], pos + 5 + n))
  }

  /** Phases from the `k`-th on, then the end mark. */
  function ReadPhases(b: Bytes, pos: nat, k: nat): Option<seq<Bytes>>
    requires k <= 3
    decreases 3 - k
  {
    if k == 3 then if pos + 4 > |b| || b[pos..pos + 4] != END then None else Some([])
    else match ReadBlock(b, pos, k + 1)
      case None => None
      case Some((data, next)) =>
        match ReadPhases(b, next, k + 1)
        case None => None
        case Some(rest) => Some([data] + rest)
  }

  function LoadFixture(b: Bytes): Option<(uint32, seq<Bytes>)> {
    if |b| < 16 || b[0..4] != MAGIC || LeU32(b, 4) != 1 then None
    else match ReadPhases(b, 12, 0)
      case None => None
      case Some(phases) => Some((LeU32(b, 8), phases))
  }

  ghost predicate Short(data: Bytes) {
    |data| < 4294967296
  }

  lemma ReadBlockExactly(b: Bytes, pos: nat, tag: uint8, data: Bytes, next: nat)
    ensures ReadBlock(b, pos, tag) == Some((data, next)) <==>
            BlockAt(b, pos, tag as int, data) && Short(data) && next == pos + 5 + |data|
  {
    if pos + 5 <= |b| { ReadsFour(b, pos + 1); }
  }

  lemma WordThere(b: Bytes, off: nat, bytes: Bytes, word: string)
    requires off + 4 <= |b| && |bytes| == |word| == 4 && forall i :: 0 <= i < 4 ==> bytes[i] as int == word[i] as int
    ensures b[off..off + 4] == bytes <==> Spells(b, off, word)
  {
    if b[off..off + 4] == bytes {
      forall i | 0 <= i < 4 ensures b[off + i] as int == word[i] as int { assert b[off + i] == bytes[i]; }
    }
    if Spells(b, off, word) {
      forall i | 0 <= i < 4 ensures b[off..off + 4][i] == bytes[i] { assert b[off + i] as int == word[i] as int; }
    }
  }

  ghost predicate AllShort(phases: seq<Bytes>) {
    forall k :: 0 <= k < |phases| ==> Short(phases[k])
  }

  /** Such blocks, all of them short. */
  ghost predicate Loadable(w: Bytes, pos: nat, phases: seq<Bytes>)
    decreases |phases|
  {
    if phases == [] then pos + 4 <= |w| && Spells(w, pos, "END ")
    else
      && BlockAt(w, pos, 4 - |phases|, phases[0]) && Short(phases[0])
      && Loadable(w, pos + 5 + |phases[0]|, phases[1..])
  }

  lemma {:induction false} LoadableExactly(w: Bytes, pos: nat, phases: seq<Bytes>)
    ensures Loadable(w, pos, phases) <==> PhasesAt(w, pos, phases) && AllShort(phases)
    decreases |phases|
  {
    if phases != [] {
      LoadableExactly(w, pos + 5 + |phases[0]|, phases[1..]);
      ShortFirst(phases);
    }
  }

  lemma ShortFirst(phases: seq<Bytes>)
    requires phases != []
    ensures AllShort(phases) <==> Short(phases[0]) && AllShort(phases[1..])
  {
    if Short(phases[0]) && AllShort(phases[1..]) {
      forall k | 0 <= k < |phases| ensures Short(phases[k]) { if k > 0 { assert phases[k] == phases[1..][k - 1]; } }
    }
  }

  lemma EndExactly(b: Bytes, pos: nat, phases: seq<Bytes>)
    ensures ReadPhases(b, pos, 3) == Some(phases) <==> |phases| == 0 && Loadable(b, pos, phases)
  {
    if pos + 4 <= |b| { WordThere(b, pos, END, "END "); }
  }

  lemma {:induction false} ReadIsThere(b: Bytes, pos: nat, k: nat)
    requires k <= 3 && ReadPhases(b, pos, k).Some?
    ensures var phases := ReadPhases(b, pos, k).value; |phases| == 3 - k && Loadable(b, pos, phases)
    decreases 3 - k
  {
    if k == 3 {
      EndExactly(b, pos, []);
    } else {
      var (data, next) := ReadBlock(b, pos, k + 1).value;
      ReadBlockExactly(b, pos, k + 1, data, next);
      ReadIsThere(b, next, k + 1);
      assert ReadPhases(b, pos, k).value[1..] == ReadPhases(b, next, k + 1).value;
    }
  }

  lemma {:induction false} ThereIsRead(b: Bytes, pos: nat, k: nat, phases: seq<Bytes>)
    requires k <= 3 && |phases| == 3 - k && Loadable(b, pos, phases)
    ensures ReadPhases(b, pos, k) == Some(phases)
    decreases 3 - k
  {
    if k == 3 {
      EndExactly(b, pos, phases);
    } else {
      var next := pos + 5 + |phases[0]|;
      ReadBlockExactly(b, pos, k + 1, phases[0], next);
      ThereIsRead(b, next, k + 1, phases[1..]);
      assert phases == [phases[0]] + phases[1..];
    }
  }

  /** The reader takes what starts with such a file with short phases, and nothing else. */
  lemma LoadsExactly(b: Bytes, packetver: uint32, phases: seq<Bytes>)
    ensures LoadFixture(b) == Some((packetver, phases)) <==> FileIn(b, packetver, phases) && AllShort(phases)
  {
    if ReadPhases(b, 12, 0).Some? { ReadIsThere(b, 12, 0); }
    if |phases| == 3 && Loadable(b, 12, phases) { ThereIsRead(b, 12, 0, phases); }
    LoadableExactly(b, 12, phases);
    if |b| >= 16 { HeaderExactly(b, packetver); }
  }

  lemma HeaderExactly(b: Bytes, packetver: uint32)
    requires |b| >= 16
    ensures b[0..4] == MAGIC && LeU32(b, 4) == 1 && LeU32(b, 8) == packetver <==>
            Spells(b, 0, "RATF") && Four(b, 4) == 1 && Four(b, 8) == packetver
  {
    WordThere(b, 0, MAGIC, "RATF");
    ReadsFour(b, 4);
    ReadsFour(b, 8);
  }

  // ---------- the round trip ----------

  /** Phases of less than 4 GiB come back unchanged. */
  lemma LoadsWhatWasWritten(packetver: uint32, phases: seq<Bytes>)
    requires |phases| == 3 && forall k :: 0 <= k < 3 ==> |phases[k]| < 0x1_0000_0000
    ensures LoadFixture(Contents(packetver, phases)) == Some((packetver, phases))
  {
    FileLaidOut(packetver, phases);
    LoadsExactly(Contents(packetver, phases), packetver, phases);
  }

  /** The length field is 32 bits wide, so that bound is exactly what the round trip needs. */
  lemma RoundTripExactly(packetver: uint32, phases: seq<Bytes>)
    requires |phases| == 3
    ensures LoadFixture(Contents(packetver, phases)) == Some((packetver, phases)) <==>
            forall k :: 0 <= k < 3 ==> |phases[k]| < 0x1_0000_0000
  {
    FileLaidOut(packetver, phases);
    LoadsExactly(Contents(packetver, phases), packetver, phases);
  }

  /**
   The whole tool, from dump text to fixture file: the file is laid out as above, and with
   short phases a reader gets back the packetver truncated to 32 bits and the bytes received
   in each phase, which together are every received byte in order.
   */
  method GenFixture(text: seq<string>, packetver: nat) returns (w: Bytes)
    ensures var lines := DumpSplitter.Lines(text);
            var phases := seq(3, k requires 0 <= k < 3 => DumpSplitter.PhaseBytes(lines, k));
            && FileLayout(w, packetver % 4294967296, phases)
            && phases[0] + phases[1] + phases[2] == DumpSplitter.ReceivedBytes(lines)
            && ((forall k :: 0 <= k < 3 ==> |phases[k]| < 4294967296) ==>
                  LoadFixture(w) == Some((packetver % 4294967296, phases)))
  {
    ghost var lines := DumpSplitter.Lines(text);
    var phases := DumpSplitter.ParseDump(text);
    assert phases == seq(3, k requires 0 <= k < 3 => DumpSplitter.PhaseBytes(lines, k));
    w := WriteFixture(ToUint32(packetver), phases);
    RoundTripExactly(ToUint32(packetver), phases);
    DumpSplitter.BytesConserved(lines);
  }
}
