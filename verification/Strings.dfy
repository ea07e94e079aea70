/** The string functions the sources use, on ASCII text. */
module Strings {
  import opened Words

  predicate IsSpace(c: char) {
    c == ' ' || '\t' <= c <= '\r'
  }

  function TrimLeft(s: string): string {
    if s != [] && IsSpace(s[0]) then TrimLeft(s[1..]) else s
  }

  function TrimRight(s: string): string {
    if s != [] && IsSpace(s[|s| - 1]) then TrimRight(s[..|s| - 1]) else s
  }

  function TrimSpace(s: string): string {
    TrimRight(TrimLeft(s))
  }

  /** What follows the first occurrence of `sub`, if there is one. */
  function After(s: string, sub: string): Option<string> {
    if sub <= s then Some(s[|sub|..])
    else if s == [] then None
    else After(s[1..], sub)
  }

  function HexDigit(c: char): Option<uint8> {
    if '0' <= c <= '9' then Some(c as int - '0' as int)
    else if 'a' <= c <= 'f' then Some(c as int - 'a' as int + 10)
    else if 'A' <= c <= 'F' then Some(c as int - 'A' as int + 10)
    else None
  }

  // ---------- case ----------

  function Lower(c: char): char {
    if 'A' <= c <= 'Z' then c + 32 as char else c
  }

  function Upper(c: char): char {
    if 'a' <= c <= 'z' then c - 32 as char else c
  }

  function ToLower(s: string): (r: string)
    ensures |r| == |s| && forall i :: 0 <= i < |s| ==> r[i] == Lower(s[i])
  {
    seq(|s|, i requires 0 <= i < |s| => Lower(s[i]))
  }

  function ToUpper(s: string): (r: string)
    ensures |r| == |s| && forall i :: 0 <= i < |s| ==> r[i] == Upper(s[i])
  {
    seq(|s|, i requires 0 <= i < |s| => Upper(s[i]))
  }

  // ---------- decimal integers ----------

  function Digits(n: nat): (s: string)
    ensures s != []
  {
    if n < 10 then [n as char + '0'] else Digits(n / 10) + [(n % 10) as char + '0']
  }

  /** `fmt.Sprintf("%d", n)`. */
  function FormatInt(n: int): string {
    if n < 0 then "-" + Digits(-n) else Digits(n)
  }

  predicate IsDigit(c: char) {
    '0' <= c <= '9'
  }

  /** The value of the digits at the front of `s`, continuing from `n`. */
  function ScanDigits(s: string, n: nat): nat {
    if s == [] || !IsDigit(s[0]) then n else ScanDigits(s[1..], 10 * n + (s[0] as int - '0' as int))
  }

  /** `fmt.Sscanf(s, "%d", &n)`: an optional sign, then the digits at the front. */
  function ScanInt(s: string): Option<int> {
    var signed := s != [] && (s[0] == '-' || s[0] == '+');
    var digits := if signed then s[1..] else s;
    if digits == [] || !IsDigit(digits[0]) then None
    else if signed && s[0] == '-' then Some(-(ScanDigits(digits, 0) as int))
    else Some(ScanDigits(digits, 0))
  }

  function Pow10(k: nat): nat {
    if k == 0 then 1 else 10 * Pow10(k - 1)
  }

  lemma {:induction false} ScanAppend(s: string, c: char, n: nat)
    requires IsDigit(c) && forall i :: 0 <= i < |s| ==> IsDigit(s[i])
    ensures ScanDigits(s + [c], n) == 10 * ScanDigits(s, n) + (c as int - '0' as int)
  {
    if s == [] {
      assert ([c])[1..] == [];
    } else {
      assert (s + [c])[1..] == s[1..] + [c];
      ScanAppend(s[1..], c, 10 * n + (s[0] as int - '0' as int));
    }
  }

  lemma {:induction false} DigitsScan(n: nat)
    ensures (forall i :: 0 <= i < |Digits(n)| ==> IsDigit(Digits(n)[i])) && ScanDigits(Digits(n), 0) == n
  {
    if n < 10 {
      assert Digits(n)[1..] == [];
    } else {
      DigitsScan(n / 10);
      ScanAppend(Digits(n / 10), (n % 10) as char + '0', 0);
    }
  }

  predicate Unspaced(s: string) {
    s != [] ==> !IsSpace(s[0]) && !IsSpace(s[|s| - 1])
  }

  lemma TrimUnspaced(s: string)
    requires Unspaced(s)
    ensures TrimSpace(s) == s
  {
  }

  /** Printing an integer and scanning it back returns it. */
  lemma FormatThenScan(n: int)
    ensures ScanInt(TrimSpace(FormatInt(n))) == Some(n)
  {
    if n < 0 { ScanNegative(-n); } else { ScanPositive(n); }
  }

  lemma ScanPositive(n: nat)
    ensures ScanInt(TrimSpace(Digits(n))) == Some(n)
  {
    DigitsScan(n);
    TrimUnspaced(Digits(n));
  }

  lemma ScanNegative(n: nat)
    ensures ScanInt(TrimSpace("-" + Digits(n))) == Some(-(n as int))
  {
    var s := "-" + Digits(n);
    DigitsScan(n);
    assert s[0] == '-' && s[1..] == Digits(n) && s[|s| - 1] == Digits(n)[|Digits(n)| - 1];
    TrimUnspaced(s);
  }

  // ---------- the order of sort.Strings ----------

  predicate Before(s: string, t: string) {
    if t == [] then false
    else if s == [] then true
    else if s[0] != t[0] then s[0] < t[0]
    else Before(s[1..], t[1..])
  }

  lemma {:induction false} BeforeTotal(s: string, t: string)
    ensures s == t || Before(s, t) || Before(t, s)
  {
    if s != [] && t != [] {
      BeforeTotal(s[1..], t[1..]);
      assert s == [s[0]] + s[1..] && t == [t[0]] + t[1..];
    }
  }

  lemma {:induction false} BeforeTransitive(s: string, t: string, u: string)
    requires Before(s, t) && Before(t, u)
    ensures Before(s, u)
  {
    if s != [] && s[0] == t[0] && t[0] == u[0] {
      BeforeTransitive(s[1..], t[1..], u[1..]);
    }
  }

  ghost predicate IsFirst(s: string, names: set<string>) {
    s in names && forall t :: t in names && t != s ==> Before(s, t)
  }

  lemma {:induction false} FirstExists(names: set<string>) returns (s: string)
    requires names != {}
    ensures IsFirst(s, names)
    decreases |names|
  {
    s :| s in names;
    var rest := names - {s};
    if rest != {} {
      var t := FirstExists(rest);
      BeforeTotal(s, t);
      if Before(t, s) {
        s := t;
      } else {
        forall u | u in names && u != s ensures Before(s, u) {
          if u != t { BeforeTransitive(s, t, u); }
        }
      }
    }
  }

  ghost predicate InOrder(names: seq<string>) {
    forall i, j :: 0 <= i < j < |names| ==> Before(names[i], names[j])
  }

  /** Collecting the keys of a map and sorting them. */
  method SortedNames(names: set<string>) returns (sorted: seq<string>)
    ensures InOrder(sorted) && |sorted| == |names|
    ensures forall s :: s in sorted <==> s in names
  {
    sorted := [];
    var rest := names;
    while rest != {}
      invariant rest <= names && InOrder(sorted) && |sorted| + |rest| == |names|
      invariant forall s :: s in sorted <==> s in names - rest
      invariant forall i, t :: 0 <= i < |sorted| && t in rest ==> Before(sorted[i], t)
      decreases rest
    {
      ghost var first := FirstExists(rest);
      assert first in rest && forall t :: t in rest && t != first ==> Before(first, t);
      var s :| s in rest && forall t :: t in rest && t != s ==> Before(s, t);
      assert |rest - {s}| == |rest| - 1;
      sorted, rest := sorted + [s], rest - {s};
    }
  }

  /** Every finite set of names can be listed in order. */
  lemma {:induction false} Listing(names: set<string>) returns (sorted: seq<string>)
    ensures InOrder(sorted) && forall s :: s in sorted <==> s in names
  {
    if names == {} {
      sorted := [];
    } else {
      var first := FirstExists(names);
      var rest := Listing(names - {first});
      sorted := [first] + rest;
    }
  }
}
