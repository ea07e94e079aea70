/** Splitting an OpenKore hex dump into the three server phases. */
module DumpSplitter {
  import opened Words
  import opened Wire
  import opened Strings

  function WordEnd(s: string): (n: nat)
    ensures n <= |s|
  {
    if s == [] || IsSpace(s[0]) then 0 else 1 + WordEnd(s[1..])
  }

  /** The maximal runs of non-space characters. */
  function Fields(s: string): seq<string>
    decreases |s|
  {
    if s == [] then []
    else if IsSpace(s[0]) then Fields(s[1..])
    else [s[..WordEnd(s)]] + Fields(s[WordEnd(s)..])
  }

  /** `hex.DecodeString` on a two-character token. */
  function HexPair(p: string): Option<uint8> {
    if |p| != 2 then None
    else match (HexDigit(p[0]), HexDigit(p[1]))
      case (Some(hi), Some(lo)) => Some(16 * hi as int + lo as int)
      case _ => None
  }

  // ---------- one line ----------

  /** The 4-digit packet id of a header line. */
  function ExtractPacketID(line: string): Option<uint16> {
    match After(line, "packet:")
    case None => None
    case Some(after) =>
      var rest := TrimSpace(after);
      if |rest| < 4 then None
      else match (HexPair(rest[..2]), HexPair(rest[2..4]))
        case (Some(hi), Some(lo)) => Some(0x100 * hi as int + lo as int)
        case _ => None
  }

  predicate IsHexDataLine(s: string) {
    match After(s, ">")
    case None => false
    case Some(after) => exists k :: 0 <= k < |Fields(TrimSpace(after))| && HexPair(Fields(TrimSpace(after))[k]).Some?
  }

  /** The leading two-digit tokens. */
  function LeadingHex(fields: seq<string>): Bytes {
    if fields == [] then []
    else match HexPair(fields[0])
      case Some(b) => [b] + LeadingHex(fields[1..])
      case None => []
  }

  function HexLine(s: string): Bytes {
    match After(s, ">")
    case None => []
    case Some(after) => LeadingHex(Fields(TrimSpace(after)))
  }

  lemma LeadingHexStep(fields: seq<string>, i: nat)
    requires i < |fields|
    ensures LeadingHex(fields[i..]) ==
            match HexPair(fields[i]) { case Some(b) => [b] + LeadingHex(fields[i + 1..]) case None => [] }
  {
    assert fields[i..][1..] == fields[i + 1..];
  }

  /** The token loop: stop at the first token that is not a pair of hex digits. */
  method ParseHexLine(s: string) returns (result: Bytes)
    ensures result == HexLine(s)
  {
    result := [];
    var after := After(s, ">");
    if after == None { return; }
    var fields := Fields(TrimSpace(after.value));
    assert fields[0..] == fields;
    var i := 0;
    while i < |fields|
      invariant i <= |fields| && LeadingHex(fields) == result + LeadingHex(fields[i..])
    {
      LeadingHexStep(fields, i);
      var b := HexPair(fields[i]);
      if b == None { break; }
      result := result + [b.value];
      i := i + 1;
    }
  }

  ghost predicate AllHex(fields: seq<string>) {
    forall k :: 0 <= k < |fields| ==> HexPair(fields[k]).Some?
  }

  /**
   The parser is meant to take the hex column and stop at the ASCII column. It does so
   exactly when the first token of the ASCII column is not a pair of hex digits.
   */
  lemma {:induction false} StopsAtAsciiColumn(hex: seq<string>, ascii: seq<string>)
    requires AllHex(hex)
    ensures LeadingHex(hex + ascii) == LeadingHex(hex) + LeadingHex(ascii)
    ensures |LeadingHex(hex)| == |hex|
    ensures LeadingHex(hex + ascii) == LeadingHex(hex) <==> ascii == [] || HexPair(ascii[0]) == None
  {
    if hex == [] {
      assert hex + ascii == ascii;
    } else {
      StopsAtAsciiColumn(hex[1..], ascii);
      assert (hex + ascii)[1..] == hex[1..] + ascii;
    }
  }

  lemma OneWord(word: string, rest: string)
    requires word != [] && (forall i :: 0 <= i < |word| ==> !IsSpace(word[i])) && (rest == [] || IsSpace(rest[0]))
    ensures Fields(word + rest) == [word] + Fields(rest)
  {
    WordEndsThere(word, rest);
    assert (word + rest)[..|word|] == word && (word + rest)[|word|..] == rest;
  }

  lemma {:induction false} WordEndsThere(word: string, rest: string)
    requires (forall i :: 0 <= i < |word| ==> !IsSpace(word[i])) && (rest == [] || IsSpace(rest[0]))
    ensures WordEnd(word + rest) == |word|
  {
    if word == [] {
      assert word + rest == rest;
    } else {
      assert (word + rest)[1..] == word[1..] + rest;
      WordEndsThere(word[1..], rest);
    }
  }

  lemma HexIsWord(p: string)
    requires HexPair(p).Some?
    ensures |p| == 2 && !IsSpace(p[0]) && !IsSpace(p[1])
  {
  }

  // ---------- the scan, as a reading of the lines ----------

  datatype Line = Sent(id: Option<uint16>) | Received(ok: bool) | Data(bytes: Bytes) | Other

  function Classify(line: string): Line {
    var trimmed := TrimSpace(line);
    if ">> Sent packet:" <= trimmed then Sent(ExtractPacketID(trimmed))
    else if "<< Received packet:" <= trimmed then Received(ExtractPacketID(trimmed).Some?)
    else if IsHexDataLine(trimmed) then Data(HexLine(trimmed))
    else Other
  }

  function Lines(text: seq<string>): seq<Line> {
    seq(|text|, i requires 0 <= i < |text| => Classify(text[i]))
  }

  /** Whether a data line here would belong to a received packet. */
  function Receiving(lines: seq<Line>): bool {
    if lines == [] then false
    else match lines[|lines| - 1]
      case Sent(_) => false
      case Received(ok) => ok
      case _ => Receiving(lines[..|lines| - 1])
  }

  /** The phase after these lines: 0x0065 ends login, and only then 0x0436 ends char. */
  function Phase(lines: seq<Line>): (p: nat)
    ensures p < 3
  {
    if lines == [] then 0
    else
      var p := Phase(lines[..|lines| - 1]);
      var last := lines[|lines| - 1];
      if last == CH_ENTER && p == 0 then 1
      else if last == CZ_ENTER && p == 1 then 2
      else p
  }

  /** The bytes of received packets seen while the phase was `k`, in file order. */
  function PhaseBytes(lines: seq<Line>, k: nat): Bytes {
    if lines == [] then []
    else
      var front, last := lines[..|lines| - 1], lines[|lines| - 1];
      PhaseBytes(front, k) + (if last.Data? && Receiving(front) && Phase(front) == k then last.bytes else [])
  }

  /** The bytes of all received packets, in file order. */
  function ReceivedBytes(lines: seq<Line>): Bytes {
    if lines == [] then []
    else
      var front, last := lines[..|lines| - 1], lines[|lines| - 1];
      ReceivedBytes(front) + (if last.Data? && Receiving(front) then last.bytes else [])
  }

  // ---------- the scan itself ----------

  datatype BlockState = StateNone | StateSend | StateRecv

  /** The variables of the scan loop. */
  class Scanner {
    var phases: seq<Bytes>
    var currentPhase: nat
    var state: BlockState
    var isRecv: bool
    var currentBytes: Bytes

    ghost predicate Valid()
      reads this
    {
      && |phases| == 3 && currentPhase < 3
      && (state != StateRecv ==> currentBytes == [])
      && (isRecv || state != StateRecv) && (isRecv ==> state != StateSend)
    }

    /** Everything scanned so far, the open block included. */
    ghost function Pending(k: nat): Bytes
      requires k < 3 && Valid()
      reads this
    {
      phases[k] + (if k == currentPhase then currentBytes else [])
    }

    constructor ()
      ensures Valid() && state == StateNone && currentPhase == 0 && forall k :: 0 <= k < 3 ==> Pending(k) == []
    {
      phases, currentPhase, state, isRecv, currentBytes := [[], [], []], 0, StateNone, false, [];
    }

    method FlushBlock()
      requires Valid()
      modifies this
      ensures Valid() && state == StateNone && currentPhase == old(currentPhase) && currentBytes == []
      ensures forall k :: 0 <= k < 3 ==> phases[k] == old(Pending(k))
    {
      if state == StateRecv && |currentBytes| > 0 {
        phases := phases[currentPhase := phases[currentPhase] + currentBytes];
      }
      currentBytes := [];
      isRecv := false;
      state := StateNone;
    }

    /** One line of the dump. */
    method Scan(line: string)
      requires Valid()
      modifies this
      ensures Valid()
      ensures match Classify(line)
              case Sent(id) =>
                && state != StateRecv
                && currentPhase == (if id == Some(0x0065) && old(currentPhase) == 0 then 1
                                    else if id == Some(0x0436) && old(currentPhase) == 1 then 2
                                    else old(currentPhase))
                && forall k :: 0 <= k < 3 ==> Pending(k) == old(Pending(k))
              case Received(ok) =>
                && (state == StateRecv <==> ok) && currentPhase == old(currentPhase)
                && forall k :: 0 <= k < 3 ==> Pending(k) == old(Pending(k))
              case Data(bytes) =>
                && state == old(state) && currentPhase == old(currentPhase)
                && forall k :: 0 <= k < 3 ==>
                     Pending(k) == old(Pending(k)) + (if state == StateRecv && k == currentPhase then bytes else [])
              case Other =>
                && state == old(state) && currentPhase == old(currentPhase)
                && forall k :: 0 <= k < 3 ==> Pending(k) == old(Pending(k))
    {
      var trimmed := TrimSpace(line);
      if ">> Sent packet:" <= trimmed {
        FlushBlock();
        state := StateSend;
        var id := ExtractPacketID(trimmed);
        if id == None {
          state := StateNone;
          return;
        }
        isRecv := false;
        if id.value == 0x0065 {
          if currentPhase == 0 { currentPhase := 1; }
        } else if id.value == 0x0436 {
          if currentPhase == 1 { currentPhase := 2; }
        }
        return;
      }
      if "<< Received packet:" <= trimmed {
        FlushBlock();
        state := StateRecv;
        isRecv := true;
        var id := ExtractPacketID(trimmed);
        if id == None {
          state := StateNone;
        }
        return;
      }
      if state != StateNone && IsHexDataLine(trimmed) {
        var b := ParseHexLine(trimmed);
        if isRecv {
          currentBytes := currentBytes + b;
        }
      }
    }
  }

  /** The three phases hold exactly the bytes received in each, whole blocks in file order. */
  method ParseDump(text: seq<string>) returns (phases: seq<Bytes>)
    ensures |phases| == 3 && forall k :: 0 <= k < 3 ==> phases[k] == PhaseBytes(Lines(text), k)
  {
    var scanner := new Scanner();
    ghost var lines := Lines(text);
    for i := 0 to |text|
      invariant scanner.Valid() && fresh(scanner)
      invariant scanner.currentPhase == Phase(lines[..i])
      invariant scanner.state == StateRecv <==> Receiving(lines[..i])
      invariant forall k :: 0 <= k < 3 ==> scanner.Pending(k) == PhaseBytes(lines[..i], k)
    {
      assert lines[..i + 1][..i] == lines[..i];
      scanner.Scan(text[i]);
    }
    assert lines[..|text|] == lines;
    scanner.FlushBlock();
    phases := scanner.phases;
  }

  // ---------- conservation ----------

  lemma {:induction false} PhaseNeverDecreases(lines: seq<Line>, i: nat, j: nat)
    requires i <= j <= |lines|
    ensures Phase(lines[..i]) <= Phase(lines[..j])
    decreases j
  {
    if i < j {
      PhaseNeverDecreases(lines, i, j - 1);
      assert lines[..j][..j - 1] == lines[..j - 1];
    }
  }

  const CH_ENTER := Sent(Some(0x0065))
  const CZ_ENTER := Sent(Some(0x0436))

  ghost predicate CrossedAt(lines: seq<Line>, i: int, j: int) {
    0 <= i < j < |lines| && lines[i] == CH_ENTER && lines[j] == CZ_ENTER
  }

  /** Some sent 0x0436 follows some sent 0x0065. */
  ghost predicate Crossed(lines: seq<Line>) {
    exists i, j :: CrossedAt(lines, i, j)
  }

  lemma CrossedAppend(front: seq<Line>, last: Line)
    ensures Crossed(front + [last]) <==> Crossed(front) || (CH_ENTER in front && last == CZ_ENTER)
  {
    var all := front + [last];
    if Crossed(all) {
      var i, j :| CrossedAt(all, i, j);
      assert front[i] == CH_ENTER;
      assert j < |front| ==> CrossedAt(front, i, j);
    }
    if Crossed(front) {
      var i, j :| CrossedAt(front, i, j);
      assert CrossedAt(all, i, j);
    }
    if CH_ENTER in front && last == CZ_ENTER {
      var i :| 0 <= i < |front| && front[i] == CH_ENTER;
      assert CrossedAt(all, i, |front|);
    }
  }

  /** Which phase: login until a sent 0x0065, char until a later sent 0x0436, then map. */
  lemma {:induction false} PhaseMeans(lines: seq<Line>)
    ensures Phase(lines) >= 1 <==> CH_ENTER in lines
    ensures Phase(lines) == 2 <==> Crossed(lines)
  {
    if lines != [] {
      var front, last := lines[..|lines| - 1], lines[|lines| - 1];
      PhaseMeans(front);
      assert lines == front + [last];
      CrossedAppend(front, last);
    }
  }

  lemma {:induction false} NothingAhead(lines: seq<Line>, k: nat)
    requires Phase(lines) < k
    ensures PhaseBytes(lines, k) == []
  {
    if lines != [] {
      NothingAhead(lines[..|lines| - 1], k);
    }
  }

  /** The three phases concatenated are all received bytes, in file order. */
  lemma {:induction false} BytesConserved(lines: seq<Line>)
    ensures PhaseBytes(lines, 0) + PhaseBytes(lines, 1) + PhaseBytes(lines, 2) == ReceivedBytes(lines)
  {
    if lines != [] {
      var front := lines[..|lines| - 1];
      BytesConserved(front);
      if Phase(front) < 2 { NothingAhead(front, 2); }
      if Phase(front) < 1 { NothingAhead(front, 1); }
    }
  }

  predicate Header(l: Line) {
    l.Sent? || l.Received?
  }

  /** Every data line of a received block goes to the phase fixed before the block's header. */
  lemma {:induction false} BlockGoesWhole(lines: seq<Line>, h: nat, j: nat)
    requires h < j <= |lines| && lines[h] == Received(true)
    requires forall i :: h < i < j ==> !Header(lines[i])
    ensures Receiving(lines[..j]) && Phase(lines[..j]) == Phase(lines[..h])
    decreases j
  {
    assert lines[..j][..j - 1] == lines[..j - 1];
    if h + 1 < j {
      BlockGoesWhole(lines, h, j - 1);
    }
  }
}
