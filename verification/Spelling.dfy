/** White space, hex digits and numbers as text, said apart from the functions that read them. */
module Spelling {
  import opened Words
  import opened Strings

  // ---------- white space ----------

  /** Blank, tab, line feed, vertical tab, form feed and carriage return. */
  predicate Space(c: char) {
    c in [' ', '\t', '\n', 11 as char, 12 as char, '\r']
  }

  predicate AllSpace(s: string) {
    forall i :: 0 <= i < |s| ==> Space(s[i])
  }

  /** Nonempty, and neither begins nor ends with white space. */
  predicate Tight(s: string) {
    s != [] && !Space(s[0]) && !Space(s[|s| - 1])
  }

  lemma SpaceExactly(c: char)
    ensures IsSpace(c) <==> Space(c)
  {
  }

  lemma {:induction false} TrimLeftParts(s: string) returns (pre: string)
    ensures s == pre + TrimLeft(s) && AllSpace(pre) && (TrimLeft(s) != [] ==> !Space(TrimLeft(s)[0]))
  {
    if s != [] && IsSpace(s[0]) {
      SpaceExactly(s[0]);
      var rest := TrimLeftParts(s[1..]);
      pre := [s[0]] + rest;
    } else {
      pre := [];
      if s != [] { SpaceExactly(s[0]); }
    }
  }

  lemma {:induction false} TrimRightParts(s: string) returns (post: string)
    ensures s == TrimRight(s) + post && AllSpace(post)
    ensures TrimRight(s) != [] ==> !Space(TrimRight(s)[|TrimRight(s)| - 1])
  {
    if s != [] && IsSpace(s[|s| - 1]) {
      SpaceExactly(s[|s| - 1]);
      var rest := TrimRightParts(s[..|s| - 1]);
      post := rest + [s[|s| - 1]];
    } else {
      post := [];
      if s != [] { SpaceExactly(s[|s| - 1]); }
    }
  }

  /** Trimming takes white space off both ends, and no more of it is left there. */
  lemma TrimParts(s: string) returns (pre: string, post: string)
    ensures s == pre + TrimSpace(s) + post && AllSpace(pre) && AllSpace(post)
    ensures TrimSpace(s) != [] ==> Tight(TrimSpace(s))
  {
    pre := TrimLeftParts(s);
    post := TrimRightParts(TrimLeft(s));
    assert TrimSpace(s) != [] ==> TrimSpace(s)[0] == TrimLeft(s)[0];
  }

  lemma {:induction false} TrimLeftOf(pre: string, s: string)
    requires AllSpace(pre) && (s != [] ==> !Space(s[0]))
    ensures TrimLeft(pre + s) == s
  {
    if pre == [] {
      assert pre + s == s;
      if s != [] { SpaceExactly(s[0]); }
    } else {
      SpaceExactly(pre[0]);
      assert (pre + s)[1..] == pre[1..] + s;
      TrimLeftOf(pre[1..], s);
    }
  }

  lemma {:induction false} TrimRightOf(s: string, post: string)
    requires AllSpace(post) && (s != [] ==> !Space(s[|s| - 1]))
    ensures TrimRight(s + post) == s
  {
    if post == [] {
      assert s + post == s;
      if s != [] { SpaceExactly(s[|s| - 1]); }
    } else {
      var n := |post| - 1;
      SpaceExactly(post[n]);
      assert (s + post)[..|s + post| - 1] == s + post[..n];
      TrimRightOf(s, post[..n]);
    }
  }

  lemma TrimOf(pre: string, s: string, post: string)
    requires AllSpace(pre) && AllSpace(post) && (s == [] || Tight(s))
    ensures TrimSpace(pre + s + post) == s
  {
    if s == [] {
      assert pre + s + post == (pre + post) + [];
      TrimLeftOf(pre + post, []);
    } else {
      assert pre + s + post == pre + (s + post);
      TrimLeftOf(pre, s + post);
      TrimRightOf(s, post);
    }
  }

  /** Only white space trims to nothing. */
  lemma TrimToNothing(s: string)
    ensures TrimSpace(s) == "" <==> AllSpace(s)
  {
    var pre, post := TrimParts(s);
    if AllSpace(s) { TrimOf(s, "", ""); assert s + "" + "" == s; }
  }

  // ---------- hex digits ----------

  function HexChar(d: nat, upper: bool): char
    requires d < 16
  {
    if upper then "0123456789ABCDEF"[d] else "0123456789abcdef"[d]
  }

  /** The character is the hex digit of this value, in either case. */
  predicate HexFor(c: char, d: nat) {
    d < 16 && (c == HexChar(d, true) || c == HexChar(d, false))
  }

  lemma HexCharReads(c: char, d: nat)
    ensures HexFor(c, d) <==> HexDigit(c) == Some(d)
  {
    if 0 <= d < 10 { assert "0123456789ABCDEF"[d] as int == '0' as int + d == "0123456789abcdef"[d] as int; }
    if 10 <= d < 16 {
      assert "0123456789ABCDEF"[d] as int == 'A' as int + d - 10;
      assert "0123456789abcdef"[d] as int == 'a' as int + d - 10;
    }
  }

  lemma HexBelow16(c: char)
    ensures HexDigit(c).Some? ==> HexDigit(c).value < 16
  {
  }

  /** Four hex digits, most significant first, in any case. */
  ghost predicate FourDigits(s: string, id: uint16) {
    && |s| == 4 && HexFor(s[0], id / 0x1000) && HexFor(s[1], id / 0x100 % 0x10)
    && HexFor(s[2], id / 0x10 % 0x10) && HexFor(s[3], id % 0x10)
  }
}
