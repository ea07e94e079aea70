/** What the lines of a dump say, character by character, and the split as a statement about the text. */
module DumpText {
  import opened Words
  import opened Wire
  import opened Strings
  import opened Spelling
  import opened DumpSplitter

  const SENT := ">> Sent packet:"
  const RECEIVED := "<< Received packet:"

  // ---------- header lines ----------

  /** White space, the mark, and anything after it. */
  ghost predicate MarkedAs(line: string, mark: string, lead: string, tail: string) {
    line == lead + (mark + tail) && AllSpace(lead)
  }

  ghost predicate Marked(line: string, mark: string) {
    exists lead, tail :: MarkedAs(line, mark, lead, tail)
  }

  /** White space, the mark, white space, four hex digits of the id, and anything after them. */
  ghost predicate HeaderAs(line: string, mark: string, id: uint16,
                           lead: string, gap: string, digits: string, rest: string) {
    line == lead + (mark + (gap + (digits + rest))) && AllSpace(lead) && AllSpace(gap) && FourDigits(digits, id)
  }

  ghost predicate Header(line: string, mark: string, id: uint16) {
    exists lead, gap, digits, rest :: HeaderAs(line, mark, id, lead, gap, digits, rest)
  }

  lemma TrimRightKeeps(a: string, r: string)
    requires a != [] && !Space(a[|a| - 1])
    ensures TrimRight(a + r) == a + TrimRight(r)
  {
    var post := TrimRightParts(r);
    assert a + r == (a + TrimRight(r)) + post;
    TrimRightOf(a + TrimRight(r), post);
  }

  /** Trimming a marked line takes off what leads, and white space at the end. */
  lemma TrimMarked(lead: string, mark: string, tail: string)
    requires AllSpace(lead) && Tight(mark)
    ensures TrimSpace(lead + (mark + tail)) == mark + TrimRight(tail)
  {
    assert (mark + tail)[0] == mark[0];
    TrimLeftOf(lead, mark + tail);
    TrimRightKeeps(mark, tail);
  }

  lemma MarkedExactly(line: string, mark: string)
    requires Tight(mark)
    ensures Marked(line, mark) <==> mark <= TrimSpace(line)
  {
    if Marked(line, mark) {
      var lead, tail :| MarkedAs(line, mark, lead, tail);
      TrimMarked(lead, mark, tail);
    }
    if mark <= TrimSpace(line) {
      var pre, post := TrimParts(line);
      var t := TrimSpace(line)[|mark|..];
      assert TrimSpace(line) == mark + t;
      assert line == pre + (mark + (t + post));
      assert MarkedAs(line, mark, pre, t + post);
    }
  }

  lemma FirstChar(p: string, s: string)
    requires p != []
    ensures p <= s ==> s != [] && s[0] == p[0]
  {
  }

  lemma {:induction false} AfterSkips(pre: string, t: string)
    requires forall i :: 0 <= i < |pre| ==> pre[i] != 'p'
    ensures After(pre + ("packet:" + t), "packet:") == Some(t)
  {
    var s := pre + ("packet:" + t);
    if pre == [] {
      assert s == "packet:" + t;
    } else {
      assert s[0] == pre[0] && s[1..] == pre[1..] + ("packet:" + t);
      FirstChar("packet:", s);
      AfterSkips(pre[1..], t);
    }
  }

  lemma MarksEnd(t: string)
    ensures After(SENT + t, "packet:") == Some(t) && After(RECEIVED + t, "packet:") == Some(t)
    ensures Tight(SENT) && Tight(RECEIVED)
  {
    assert SENT + t == ">> Sent " + ("packet:" + t) && RECEIVED + t == "<< Received " + ("packet:" + t);
    AfterSkips(">> Sent ", t);
    AfterSkips("<< Received ", t);
  }

  lemma Split16(hi: nat, lo: nat, b: nat)
    requires lo < 16
    ensures 16 * hi + lo == b <==> hi == b / 16 && lo == b % 16
  {
  }

  lemma Split256(hi: nat, lo: nat, b: nat)
    requires lo < 256
    ensures 256 * hi + lo == b <==> hi == b / 256 && lo == b % 256
  {
  }

  lemma PairExactly(p: string, b: uint8)
    ensures HexPair(p) == Some(b) <==> |p| == 2 && HexFor(p[0], b / 16) && HexFor(p[1], b % 16)
  {
    if |p| == 2 {
      HexCharReads(p[0], b / 16);
      HexCharReads(p[1], b % 16);
      match (HexDigit(p[0]), HexDigit(p[1]))
      case (Some(hi), Some(lo)) =>
        HexBelow16(p[1]);
        Split16(hi, lo, b);
      case _ =>
    }
  }

  lemma TopNibble(id: nat, hi: nat, lo: nat)
    requires id == 0x100 * hi + lo && lo < 0x100
    ensures id / 0x1000 == hi / 16 && id / 0x100 == hi && id % 0x100 == lo
  {
    var q, r := hi / 16, hi % 16;
    assert id == 0x1000 * q + (0x100 * r + lo);
  }

  lemma LowNibble(id: nat, hi: nat, lo: nat)
    requires id == 0x100 * hi + lo && lo < 0x100
    ensures id / 0x10 % 0x10 == lo / 16 && id % 0x10 == lo % 16
  {
    var q, r := lo / 16, lo % 16;
    assert id == 0x10 * (0x10 * hi + q) + r;
    assert id / 0x10 == 0x10 * hi + q;
  }

  lemma Nibbles(id: uint16)
    ensures id / 0x100 / 16 == id / 0x1000 && id / 0x100 % 16 == id / 0x100 % 0x10
    ensures id % 0x100 / 16 == id / 0x10 % 0x10 && id % 0x100 % 16 == id % 0x10
  {
    TopNibble(id, id / 0x100, id % 0x100);
    LowNibble(id, id / 0x100, id % 0x100);
  }

  lemma FourExactly(s: string, id: uint16)
    requires |s| == 4
    ensures FourDigits(s, id) <==> HexPair(s[..2]) == Some(id / 0x100) && HexPair(s[2..]) == Some(id % 0x100)
  {
    Nibbles(id);
    PairExactly(s[..2], id / 0x100);
    PairExactly(s[2..], id % 0x100);
  }

  function PairsValue(hi: Option<uint8>, lo: Option<uint8>): Option<uint16> {
    match (hi, lo)
    case (Some(h), Some(l)) => Some(0x100 * h as int + l as int)
    case _ => None
  }

  lemma PairsExactly(hi: Option<uint8>, lo: Option<uint8>, id: uint16)
    ensures PairsValue(hi, lo) == Some(id) <==> hi == Some(id / 0x100) && lo == Some(id % 0x100)
  {
    if hi.Some? && lo.Some? { Split256(hi.value, lo.value, id); }
  }

  /** The four characters after the white space are the digits of the id. */
  lemma ExtractExactly(line: string, after: string, id: uint16)
    requires After(line, "packet:") == Some(after)
    ensures ExtractPacketID(line) == Some(id) <==> |TrimSpace(after)| >= 4 && FourDigits(TrimSpace(after)[..4], id)
  {
    var rest := TrimSpace(after);
    if |rest| >= 4 {
      FourExactly(rest[..4], id);
      assert rest[..4][..2] == rest[..2] && rest[..4][2..] == rest[2..4];
      PairsExactly(HexPair(rest[..2]), HexPair(rest[2..4]), id);
      assert ExtractPacketID(line) == PairsValue(HexPair(rest[..2]), HexPair(rest[2..4]));
    }
  }

  lemma DigitsTight(digits: string, id: uint16, rest: string)
    requires FourDigits(digits, id) && (rest != [] ==> !Space(rest[|rest| - 1]))
    ensures Tight(digits + rest)
  {
    HexCharReads(digits[0], id / 0x1000);
    HexCharReads(digits[3], id % 0x10);
    assert (digits + rest)[|digits + rest| - 1] == if rest == [] then digits[3] else rest[|rest| - 1];
  }

  /** What follows the mark, white space at the end taken off. */
  lemma HeaderTail(gap: string, digits: string, rest: string, id: uint16)
    requires AllSpace(gap) && FourDigits(digits, id)
    ensures var tail := TrimRight(gap + (digits + rest));
            |TrimSpace(tail)| >= 4 && TrimSpace(tail)[..4] == digits
  {
    var kept := TrimRight(rest);
    var post := TrimRightParts(rest);
    DigitsTight(digits, id, []);
    DigitsTight(digits, id, kept);
    assert digits + [] == digits && gap + (digits + rest) == (gap + digits) + rest;
    TrimRightKeeps(gap + digits, rest);
    GapTrimmed(gap, digits, kept);
  }

  lemma GapTrimmed(gap: string, digits: string, kept: string)
    requires AllSpace(gap) && |digits| == 4 && Tight(digits + kept)
    ensures TrimSpace((gap + digits) + kept) == digits + kept && (digits + kept)[..4] == digits
  {
    assert (gap + digits) + kept == gap + (digits + kept) + [];
    TrimOf(gap, digits + kept, []);
  }

  lemma HeaderReads(line: string, mark: string, id: uint16)
    requires (mark == SENT || mark == RECEIVED) && Header(line, mark, id)
    ensures mark <= TrimSpace(line) && ExtractPacketID(TrimSpace(line)) == Some(id)
  {
    var lead, gap, digits, rest :| HeaderAs(line, mark, id, lead, gap, digits, rest);
    var tail := TrimRight(gap + (digits + rest));
    MarksEnd(tail);
    TrimMarked(lead, mark, gap + (digits + rest));
    HeaderTail(gap, digits, rest, id);
    ExtractExactly(TrimSpace(line), tail, id);
  }

  lemma HeaderFrom(line: string, mark: string, id: uint16, pre: string, t: string, post: string)
    requires line == pre + (mark + t) + post && AllSpace(pre)
    requires |TrimSpace(t)| >= 4 && FourDigits(TrimSpace(t)[..4], id)
    ensures Header(line, mark, id)
  {
    var gap, post' := TrimParts(t);
    var found := TrimSpace(t);
    var digits, rest := found[..4], found[4..] + post' + post;
    assert found == digits + found[4..];
    assert gap + (digits + rest) == t + post;
    assert pre + (mark + (t + post)) == pre + (mark + t) + post;
    assert HeaderAs(line, mark, id, pre, gap, digits, rest);
  }

  lemma ReadsHeader(line: string, mark: string, id: uint16)
    requires (mark == SENT || mark == RECEIVED) && mark <= TrimSpace(line)
    requires ExtractPacketID(TrimSpace(line)) == Some(id)
    ensures Header(line, mark, id)
  {
    var pre, post := TrimParts(line);
    var t := TrimSpace(line)[|mark|..];
    assert TrimSpace(line) == mark + t;
    MarksEnd(t);
    ExtractExactly(TrimSpace(line), t, id);
    HeaderFrom(line, mark, id, pre, t, post);
  }

  /** A line is a sent packet with this id exactly when it is spelled as one. */
  lemma SentExactly(line: string, id: uint16)
    ensures Classify(line) == Sent(Some(id)) <==> Header(line, SENT, id)
  {
    if Header(line, SENT, id) { HeaderReads(line, SENT, id); }
    if Classify(line) == Sent(Some(id)) { ReadsHeader(line, SENT, id); }
  }

  /** And a received packet with an id exactly when it is spelled with some id. */
  lemma ReceivedExactly(line: string)
    ensures Classify(line) == Received(true) <==> exists id: uint16 :: Header(line, RECEIVED, id)
  {
    MarksEnd("");
    if id: uint16 :| Header(line, RECEIVED, id) {
      HeaderReads(line, RECEIVED, id);
      NotBothMarks(TrimSpace(line));
    }
    if Classify(line) == Received(true) {
      ReadsHeader(line, RECEIVED, ExtractPacketID(TrimSpace(line)).value);
    }
  }

  lemma NotBothMarks(s: string)
    ensures !(SENT <= s && RECEIVED <= s)
  {
    FirstChar(SENT, s);
    FirstChar(RECEIVED, s);
  }

  /** Any other line with one of the marks is a header too; it starts no received block. */
  lemma HeaderExactly(line: string)
    ensures Classify(line).Sent? <==> Marked(line, SENT)
    ensures Classify(line).Received? <==> Marked(line, RECEIVED)
  {
    MarksEnd("");
    MarkedExactly(line, SENT);
    MarkedExactly(line, RECEIVED);
    NotBothMarks(TrimSpace(line));
  }

  // ---------- data lines ----------

  /** At `n`, after white space, the byte in two hex digits of either case. */
  ghost predicate ByteAt(text: string, n: int, b: uint8) {
    && 1 <= n <= |text| - 2 && AllSpace(text[..n])
    && HexFor(text[n], b / 16) && HexFor(text[n + 1], b % 16)
  }

  /** The bytes one after another, and nothing else. */
  ghost predicate Spelled(text: string, bytes: Bytes)
    decreases |bytes|
  {
    if bytes == [] then text == ""
    else exists n :: ByteAt(text, n, bytes[0]) && Spelled(text[n + 2..], bytes[1..])
  }

  predicate HexLetter(c: char) {
    '0' <= c <= '9' || 'a' <= c <= 'f' || 'A' <= c <= 'F'
  }

  /** The first word is a pair of hex digits. */
  ghost predicate PairFirstAs(rest: string, gap: string, word: string, tail: string) {
    && rest == gap + (word + tail) && AllSpace(gap) && |word| == 2 && HexLetter(word[0]) && HexLetter(word[1])
    && (tail == [] || Space(tail[0]))
  }

  ghost predicate PairFirst(rest: string) {
    exists gap, word, tail :: PairFirstAs(rest, gap, word, tail)
  }

  lemma {:induction false} SpelledFields(text: string, bytes: Bytes, rest: string)
    requires Spelled(text, bytes) && (rest == [] || Space(rest[0]))
    ensures |Fields(text + rest)| == |bytes| + |Fields(rest)|
    ensures LeadingHex(Fields(text + rest)) == bytes + LeadingHex(Fields(rest))
    decreases |bytes|
  {
    if bytes == [] {
      assert text + rest == rest;
    } else {
      var n :| ByteAt(text, n, bytes[0]) && Spelled(text[n + 2..], bytes[1..]);
      SpelledFields(text[n + 2..], bytes[1..], rest);
      SpelledRest(text[n + 2..], bytes[1..], rest);
      SpelledStep(text, n, bytes[0], rest);
      PutFirst(bytes, LeadingHex(Fields(rest)));
    }
  }

  lemma PutFirst(bytes: Bytes, more: Bytes)
    requires bytes != []
    ensures [bytes[0]] + (bytes[1..] + more) == bytes + more
  {
  }

  lemma SpelledRest(text: string, bytes: Bytes, rest: string)
    requires Spelled(text, bytes) && (rest == [] || Space(rest[0]))
    ensures text + rest == [] || Space((text + rest)[0])
  {
    if text == [] { assert text + rest == rest; }
    if bytes != [] {
      var n :| ByteAt(text, n, bytes[0]) && Spelled(text[n + 2..], bytes[1..]);
      assert text[..n][0] == text[0];
    }
  }

  lemma SpelledStep(text: string, n: nat, b: uint8, rest: string)
    requires ByteAt(text, n, b) && (text[n + 2..] + rest == [] || Space((text[n + 2..] + rest)[0]))
    ensures |Fields(text + rest)| == 1 + |Fields(text[n + 2..] + rest)|
    ensures LeadingHex(Fields(text + rest)) == [b] + LeadingHex(Fields(text[n + 2..] + rest))
  {
    var gap, word, more := text[..n], text[n..n + 2], text[n + 2..] + rest;
    assert text + rest == gap + (word + more);
    FirstWord(word, more, b);
    WordAfterGap(gap, word, more);
    LeadingFirst(word, Fields(more), b);
  }

  lemma WordAfterGap(gap: string, word: string, more: string)
    requires AllSpace(gap) && |word| == 2 && !IsSpace(word[0]) && !IsSpace(word[1])
    requires more == [] || Space(more[0])
    ensures Fields(gap + (word + more)) == [word] + Fields(more)
  {
    if more != [] { SpaceExactly(more[0]); }
    FieldsTrimLeft(gap, word + more);
    OneWord(word, more);
  }

  lemma HexLetterExactly(word: string)
    requires |word| == 2
    ensures HexPair(word).Some? <==> HexLetter(word[0]) && HexLetter(word[1])
  {
  }

  /** The first field, and what stands around it. */
  lemma {:induction false} FirstField(s: string) returns (gap: string, word: string, tail: string)
    requires Fields(s) != []
    ensures s == gap + (word + tail) && AllSpace(gap) && word == Fields(s)[0] && (tail == [] || Space(tail[0]))
  {
    SpaceExactly(s[0]);
    if IsSpace(s[0]) {
      gap, word, tail := FirstField(s[1..]);
      assert s == [s[0]] + s[1..];
      gap := [s[0]] + gap;
    } else {
      var n := WordEnd(s);
      gap, word, tail := [], s[..n], s[n..];
      WordStops(s);
      if tail != [] { SpaceExactly(tail[0]); }
      assert s == [] + (word + tail);
    }
  }

  lemma {:induction false} WordStops(s: string)
    ensures WordEnd(s) < |s| ==> IsSpace(s[WordEnd(s)])
  {
    if s != [] && !IsSpace(s[0]) { WordStops(s[1..]); }
  }

  lemma PairFirstExactly(rest: string)
    ensures PairFirst(rest) <==> LeadingHex(Fields(rest)) != []
  {
    if PairFirst(rest) {
      var gap, word, tail :| PairFirstAs(rest, gap, word, tail);
      HexLetterExactly(word);
      HexIsWord(word);
      WordAfterGap(gap, word, tail);
    }
    if LeadingHex(Fields(rest)) != [] {
      var gap, word, tail := FirstField(rest);
      HexIsWord(word);
      HexLetterExactly(word);
      assert PairFirstAs(rest, gap, word, tail);
    }
  }

  lemma FirstWord(word: string, more: string, b: uint8)
    requires |word| == 2 && HexFor(word[0], b / 16) && HexFor(word[1], b % 16)
    ensures HexPair(word) == Some(b) && !IsSpace(word[0]) && !IsSpace(word[1])
  {
    PairExactly(word, b);
    HexIsWord(word);
  }

  lemma LeadingFirst(word: string, fields: seq<string>, b: uint8)
    requires HexPair(word) == Some(b)
    ensures LeadingHex([word] + fields) == [b] + LeadingHex(fields)
  {
    assert ([word] + fields)[1..] == fields;
  }

  lemma {:induction false} FieldsOfSpace(post: string)
    requires AllSpace(post)
    ensures Fields(post) == []
  {
    if post != [] {
      SpaceExactly(post[0]);
      FieldsOfSpace(post[1..]);
    }
  }

  /** White space at the end makes no field. */
  lemma {:induction false} FieldsTrimRight(s: string, post: string)
    requires AllSpace(post)
    ensures Fields(s + post) == Fields(s)
    decreases |s|
  {
    if s == [] {
      assert s + post == post;
      FieldsOfSpace(post);
    } else if IsSpace(s[0]) {
      assert (s + post)[1..] == s[1..] + post;
      FieldsTrimRight(s[1..], post);
    } else {
      var n := WordEnd(s);
      WordEndKept(s, post);
      assert (s + post)[..n] == s[..n] && (s + post)[n..] == s[n..] + post;
      FieldsTrimRight(s[n..], post);
    }
  }

  lemma {:induction false} WordEndKept(s: string, post: string)
    requires AllSpace(post)
    ensures WordEnd(s + post) == WordEnd(s)
  {
    if s == [] {
      assert s + post == post;
      if post != [] { SpaceExactly(post[0]); }
    } else if !IsSpace(s[0]) {
      assert (s + post)[1..] == s[1..] + post;
      WordEndKept(s[1..], post);
    }
  }

  lemma {:induction false} FieldsTrimLeft(pre: string, s: string)
    requires AllSpace(pre)
    ensures Fields(pre + s) == Fields(s)
  {
    if pre == [] {
      assert pre + s == s;
    } else {
      SpaceExactly(pre[0]);
      assert (pre + s)[1..] == pre[1..] + s;
      FieldsTrimLeft(pre[1..], s);
    }
  }

  lemma FieldsTrim(s: string)
    ensures Fields(TrimSpace(s)) == Fields(s)
  {
    var pre, post := TrimParts(s);
    assert s == pre + (TrimSpace(s) + post);
    FieldsTrimLeft(pre, TrimSpace(s) + post);
    FieldsTrimRight(TrimSpace(s), post);
  }

  /** What counts the bytes of a line: white space and decimal digits. */
  predicate Counter(p: string) {
    forall i :: 0 <= i < |p| ==> Space(p[i]) || p[i] in "0123456789"
  }

  lemma {:induction false} AfterCounter(p: string, t: string)
    requires Counter(p)
    ensures After(p + (">" + t), ">") == Some(t)
  {
    var s := p + (">" + t);
    if p == [] {
      assert s == ">" + t;
    } else {
      assert s[0] == p[0] && s[1..] == p[1..] + (">" + t);
      FirstChar(">", s);
      AfterCounter(p[1..], t);
    }
  }

  lemma CounterTail(p: string) returns (pre: string)
    requires Counter(p)
    ensures p == pre + TrimLeft(p) && AllSpace(pre) && Counter(TrimLeft(p))
    ensures TrimLeft(p) != [] ==> !Space(TrimLeft(p)[0])
  {
    pre := TrimLeftParts(p);
    var q := TrimLeft(p);
    forall i | 0 <= i < |q| ensures Space(q[i]) || q[i] in "0123456789" { assert q[i] == p[|pre| + i]; }
  }

  lemma TrimTight(q: string, t: string)
    requires q != [] ==> !Space(q[0])
    ensures q + (">" + t) != [] && !Space((q + (">" + t))[0])
    ensures TrimRight(q + (">" + t)) == q + (">" + TrimRight(t))
  {
    var line := q + (">" + t);
    assert line[0] == if q == [] then '>' else q[0];
    assert line == (q + ">") + t;
    TrimRightKeeps(q + ">", t);
    assert (q + ">") + TrimRight(t) == q + (">" + TrimRight(t));
  }

  /** Trimming a counted line leaves a counter, the arrow, and what follows, trimmed at the end. */
  lemma TrimCounted(p: string, t: string) returns (q: string)
    requires Counter(p)
    ensures Counter(q) && TrimSpace(p + (">" + t)) == q + (">" + TrimRight(t))
  {
    var pre := CounterTail(p);
    q := TrimLeft(p);
    TrimTight(q, t);
    assert p + (">" + t) == pre + (q + (">" + t));
    TrimLeftOf(pre, q + (">" + t));
  }

  /**
   A counter, an arrow, bytes, and a rest set apart from them: the line is data and starts
   with these bytes. It is meant to be exactly these, the rest being an ASCII column. It is
   exactly when the first word of the rest is not a pair of hex digits.
   */
  lemma DataLineExactly(p: string, text: string, bytes: Bytes, rest: string)
    requires Counter(p) && Spelled(text, bytes) && bytes != [] && (rest == [] || Space(rest[0]))
    ensures var line := Classify(p + (">" + (text + rest)));
            line.Data? && bytes <= line.bytes && (line.bytes == bytes <==> !PairFirst(rest))
  {
    var line, t := p + (">" + (text + rest)), text + rest;
    var q := TrimCounted(p, t);
    var kept := TrimRight(t);
    var post := TrimRightParts(t);
    AfterCounter(q, kept);
    FieldsTrim(kept);
    FieldsTrimRight(kept, post);
    SpelledFields(text, bytes, rest);
    PairFirstExactly(rest);
    HexLineFields(TrimSpace(line), kept, Fields(t));
    SpelledRest(text, bytes, rest);
    CounterNoMark(q, kept, t);
  }

  lemma HexLineFields(trimmed: string, after: string, fields: seq<string>)
    requires After(trimmed, ">") == Some(after) && Fields(TrimSpace(after)) == fields && LeadingHex(fields) != []
    ensures IsHexDataLine(trimmed) && HexLine(trimmed) == LeadingHex(fields)
  {
    assert HexPair(fields[0]).Some?;
  }

  lemma CounterNoMark(q: string, kept: string, t: string)
    requires Counter(q) && kept <= t && |t| > 0 && Space(t[0])
    ensures !(SENT <= q + (">" + kept)) && !(RECEIVED <= q + (">" + kept))
  {
    var s := q + (">" + kept);
    FirstChar(SENT, s);
    FirstChar(RECEIVED, s);
    SecondChar(SENT, s);
    assert s[0] == if q == [] then '>' else q[0];
    assert q == [] && |s| >= 2 ==> s[1] == kept[0] == t[0];
  }

  lemma SecondChar(p: string, s: string)
    requires |p| >= 2
    ensures p <= s ==> |s| >= 2 && s[1] == p[1]
  {
  }

  // ---------- the split, on the text ----------

  ghost predicate EndsLogin(text: seq<string>, i: int) {
    0 <= i < |text| && Header(text[i], SENT, 0x0065)
  }

  ghost predicate EndsChar(text: seq<string>, i: int, j: int) {
    EndsLogin(text, i) && i < j < |text| && Header(text[j], SENT, 0x0436)
  }

  /** Login until a sent 0x0065, char until a later sent 0x0436, then map. */
  lemma PhaseOfText(text: seq<string>)
    ensures Phase(Lines(text)) >= 1 <==> exists i :: EndsLogin(text, i)
    ensures Phase(Lines(text)) == 2 <==> exists i, j :: EndsChar(text, i, j)
  {
    var lines := Lines(text);
    PhaseMeans(lines);
    forall i | 0 <= i < |text|
      ensures lines[i] == CH_ENTER <==> Header(text[i], SENT, 0x0065)
      ensures lines[i] == CZ_ENTER <==> Header(text[i], SENT, 0x0436)
    {
      SentExactly(text[i], 0x0065);
      SentExactly(text[i], 0x0436);
    }
    if CH_ENTER in lines {
      var i :| 0 <= i < |lines| && lines[i] == CH_ENTER;
      assert EndsLogin(text, i);
    }
    if i :| EndsLogin(text, i) { assert lines[i] == CH_ENTER; }
    if Crossed(lines) {
      var i, j :| CrossedAt(lines, i, j);
      assert EndsChar(text, i, j);
    }
    if i, j :| EndsChar(text, i, j) { assert CrossedAt(lines, i, j); }
  }

  ghost predicate NoHeader(line: string) {
    !Marked(line, SENT) && !Marked(line, RECEIVED)
  }

  /** Line `h` starts a received packet, and no header follows before `j`. */
  ghost predicate OpenFrom(text: seq<string>, h: int, j: int)
    requires j <= |text|
  {
    && 0 <= h < j && (exists id: uint16 :: Header(text[h], RECEIVED, id))
    && forall i :: h < i < j ==> NoHeader(text[i])
  }

  lemma OpenNext(text: seq<string>, n: nat, h: int)
    requires n < |text|
    ensures OpenFrom(text, h, n + 1) <==>
            if h == n then exists id: uint16 :: Header(text[n], RECEIVED, id)
            else OpenFrom(text, h, n) && NoHeader(text[n])
  {
  }

  lemma ReceivingNext(text: seq<string>, n: nat)
    requires n < |text|
    ensures Receiving(Lines(text)[..n + 1]) <==>
            || (exists id: uint16 :: Header(text[n], RECEIVED, id))
            || (NoHeader(text[n]) && Receiving(Lines(text)[..n]))
  {
    var front, last := Lines(text)[..n], Classify(text[n]);
    assert Lines(text)[..n + 1] == front + [last];
    ReceivingLast(front, last);
    ReceivedExactly(text[n]);
    HeaderExactly(text[n]);
  }

  lemma ReceivingLast(front: seq<Line>, last: Line)
    ensures Receiving(front + [last]) <==>
            last == Received(true) || (!last.Sent? && !last.Received? && Receiving(front))
  {
    assert (front + [last])[..|front + [last]| - 1] == front;
  }

  lemma {:induction false} ReceivingExactly(text: seq<string>, j: nat)
    requires j <= |text|
    ensures Receiving(Lines(text)[..j]) <==> exists h :: OpenFrom(text, h, j)
  {
    if j > 0 {
      var n := j - 1;
      ReceivingExactly(text, n);
      ReceivingNext(text, n);
      forall h ensures OpenFrom(text, h, j) <==>
          if h == n then exists id: uint16 :: Header(text[n], RECEIVED, id)
          else OpenFrom(text, h, n) && NoHeader(text[n])
      {
        OpenNext(text, n, h);
      }
      OpenFromNone(text, n);
    }
  }

  lemma OpenFromNone(text: seq<string>, n: nat)
    requires n <= |text|
    ensures !OpenFrom(text, n, n)
  {
  }

  /**
   Where the bytes of a line go: into the phase that holds at the header of the received
   packet it belongs to, and nowhere if it belongs to none. Other lines add nothing.
   */
  lemma LineGoesTo(text: seq<string>, j: nat, k: nat)
    requires j < |text|
    ensures forall h :: OpenFrom(text, h, j) && NoHeader(text[j]) ==>
              PhaseBytes(Lines(text[..j + 1]), k) == PhaseBytes(Lines(text[..j]), k) +
                if Phase(Lines(text[..h])) == k && Classify(text[j]).Data? then Classify(text[j]).bytes else []
    ensures (forall h :: !OpenFrom(text, h, j)) || !NoHeader(text[j]) ==>
              PhaseBytes(Lines(text[..j + 1]), k) == PhaseBytes(Lines(text[..j]), k)
  {
    LineAdds(text, j, k);
    ReceivingExactly(text, j);
    HeaderExactly(text[j]);
    LinesOfPrefix(text, j);
    forall h | OpenFrom(text, h, j) ensures Phase(Lines(text[..j])) == Phase(Lines(text[..h])) {
      OpenKeepsPhase(text, h, j);
      LinesOfPrefix(text, h);
    }
  }

  lemma LineAdds(text: seq<string>, j: nat, k: nat)
    requires j < |text|
    ensures PhaseBytes(Lines(text[..j + 1]), k) == PhaseBytes(Lines(text[..j]), k) +
              if Classify(text[j]).Data? && Receiving(Lines(text[..j])) && Phase(Lines(text[..j])) == k
              then Classify(text[j]).bytes else []
  {
    var lines := Lines(text[..j + 1]);
    assert lines[..j] == Lines(text[..j]) && lines[j] == Classify(text[j]);
  }

  lemma LinesOfPrefix(text: seq<string>, n: nat)
    requires n <= |text|
    ensures Lines(text[..n]) == Lines(text)[..n]
  {
  }

  lemma OpenKeepsPhase(text: seq<string>, h: nat, j: nat)
    requires j <= |text| && OpenFrom(text, h, j)
    ensures Phase(Lines(text)[..j]) == Phase(Lines(text)[..h])
  {
    var lines := Lines(text);
    ReceivedExactly(text[h]);
    forall i | h < i < j ensures !DumpSplitter.Header(lines[i]) { HeaderExactly(text[i]); }
    BlockGoesWhole(lines, h, j);
  }
}
