/** Little-endian reads and writes, and cutting a buffer into fixed-size entries. */
module Wire {
  import opened Words

  type Bytes = seq<uint8>

  // ---------- reads (pkg/decode/helpers.go) ----------

  function LeU16(b: Bytes, off: nat): uint16
    requires off + 2 <= |b|
  {
    b[off] as int + 0x100 * b[off + 1] as int
  }

  function LeU32(b: Bytes, off: nat): uint32
    requires off + 4 <= |b|
  {
    LeU16(b, off) as int + 0x1_0000 * LeU16(b, off + 2) as int
  }

  function LeI16(b: Bytes, off: nat): int16
    requires off + 2 <= |b|
  {
    ToInt16(LeU16(b, off))
  }

  function LeI32(b: Bytes, off: nat): int32
    requires off + 4 <= |b|
  {
    var n := LeU32(b, off);
    if n < 0x8000_0000 then n else n - 0x1_0000_0000
  }

  /** The prefix of a fixed-length field before its first zero byte. */
  function UpToZero(b: Bytes): Bytes {
    if b == [] || b[0] == 0 then [] else [b[0]] + UpToZero(b[1..])
  }

  lemma {:induction false} UpToZeroIs(b: Bytes, n: nat)
    requires n <= |b| && (forall i :: 0 <= i < n ==> b[i] != 0) && (n < |b| ==> b[n] == 0)
    ensures UpToZero(b) == b[..n]
  {
    if n > 0 {
      UpToZeroIs(b[1..], n - 1);
      assert b[..n] == [b[0]] + b[1..][..n - 1];
    }
  }

  /** It is the text of the field: no zero byte in it, and one right after it if there is room. */
  ghost predicate IsText(s: Bytes, b: Bytes) {
    |s| <= |b| && s == b[..|s|] && 0 !in s && (|s| < |b| ==> b[|s|] == 0)
  }

  lemma {:induction false} UpToZeroText(b: Bytes)
    ensures IsText(UpToZero(b), b)
  {
    if b != [] && b[0] != 0 {
      UpToZeroText(b[1..]);
      var n := |UpToZero(b)|;
      assert b[..n] == [b[0]] + b[1..][..n - 1];
    }
  }

  method NullTermString(b: Bytes) returns (s: Bytes)
    ensures s == UpToZero(b) && IsText(s, b)
  {
    UpToZeroText(b);
    var n := |b|;
    for i := 0 to |b|
      invariant n == |b| && forall j :: 0 <= j < i ==> b[j] != 0
    {
      if b[i] == 0 {
        n := i;
        break;
      }
    }
    UpToZeroIs(b, n);
    s := b[..n];
  }

  // ---------- writes, the specification side ----------

  function U16(n: uint16): Bytes {
    [n % 0x100, n / 0x100]
  }

  function U32(n: uint32): Bytes {
    U16(n % 0x1_0000) + U16(n / 0x1_0000)
  }

  function I16(n: int16): Bytes {
    U16(n % 0x1_0000)
  }

  function I32(n: int32): Bytes {
    U32(n % 0x1_0000_0000)
  }

  /** A field that is 16 bits wide on older versions and 32 on newer ones. */
  function Wide(n: uint32, wide: bool): Bytes {
    if wide then U32(n) else U16(n % 0x1_0000)
  }

  lemma SliceU16(b: Bytes, off: nat)
    requires off + 2 <= |b|
    ensures b[..off + 2] == b[..off] + U16(LeU16(b, off))
  {
  }

  lemma SliceU32(b: Bytes, off: nat)
    requires off + 4 <= |b|
    ensures b[..off + 4] == b[..off] + U32(LeU32(b, off))
  {
    SliceU16(b, off);
    SliceU16(b, off + 2);
    var lo: int, hi: int := LeU16(b, off), LeU16(b, off + 2);
    assert (lo + 0x1_0000 * hi) % 0x1_0000 == lo && (lo + 0x1_0000 * hi) / 0x1_0000 == hi;
  }

  lemma SliceI16(b: Bytes, off: nat)
    requires off + 2 <= |b|
    ensures b[..off + 2] == b[..off] + I16(LeI16(b, off))
  {
    SliceU16(b, off);
  }

  lemma SliceI32(b: Bytes, off: nat)
    requires off + 4 <= |b|
    ensures b[..off + 4] == b[..off] + I32(LeI32(b, off))
  {
    SliceU32(b, off);
    var n: int := LeU32(b, off);
    assert (n - 0x1_0000_0000) % 0x1_0000_0000 == n % 0x1_0000_0000 == n;
  }

  lemma SliceU8(b: Bytes, off: nat)
    requires off < |b|
    ensures b[..off + 1] == b[..off] + [b[off]]
  {
  }

  lemma U16Injective(m: uint16, n: uint16)
    ensures U16(m) == U16(n) ==> m == n
  {
    assert U16(m)[0] == m % 0x100 && U16(m)[1] == m / 0x100;
    assert U16(n)[0] == n % 0x100 && U16(n)[1] == n / 0x100;
  }

  /** Equal concatenations of equal-length tails agree part by part. */
  lemma SplitTail(a: Bytes, x: Bytes, b: Bytes, y: Bytes)
    requires a + x == b + y && |x| == |y|
    ensures a == b && x == y
  {
    assert |a| == |b|;
    assert a == (a + x)[..|a|] && b == (b + y)[..|b|];
    assert x == (a + x)[|a|..] && y == (b + y)[|b|..];
  }

  lemma U32Injective(m: uint32, n: uint32)
    ensures U32(m) == U32(n) ==> m == n
  {
    if U32(m) == U32(n) {
      SplitTail(U16(m % 0x1_0000), U16(m / 0x1_0000), U16(n % 0x1_0000), U16(n / 0x1_0000));
      U16Injective(m % 0x1_0000, n % 0x1_0000);
      U16Injective(m / 0x1_0000, n / 0x1_0000);
    }
  }

  lemma WideInjective(m: uint32, n: uint32, wide: bool)
    requires wide || (m < 0x1_0000 && n < 0x1_0000)
    ensures Wide(m, wide) == Wide(n, wide) ==> m == n
  {
    if wide { U32Injective(m, n); } else { U16Injective(m, n); }
  }

  lemma I16Injective(m: int16, n: int16)
    ensures I16(m) == I16(n) ==> m == n
  {
    U16Injective(m % 0x1_0000, n % 0x1_0000);
  }

  lemma I32Injective(m: int32, n: int32)
    ensures I32(m) == I32(n) ==> m == n
  {
    U32Injective(m % 0x1_0000_0000, n % 0x1_0000_0000);
  }

  // ---------- fixed-size entries ----------

  lemma EntryInside(len: nat, sz: nat, i: nat)
    requires 0 < sz && i < len / sz
    ensures i * sz + sz <= len
  {
    var n := len / sz;
    assert len == n * sz + len % sz;
    assert n * sz == i * sz + (n - i) * sz;
    Multiple(n - i, sz);
  }

  /** The bytes of entry `i`. */
  function Entry(body: Bytes, sz: nat, i: nat): Bytes
    requires 0 < sz && i < |body| / sz
  {
    EntryInside(|body|, sz, i);
    body[i * sz..i * sz + sz]
  }

  /** `body[i*sz:]`, whose first `sz` bytes are entry `i`. */
  function From(body: Bytes, sz: nat, i: nat): (b: Bytes)
    requires 0 < sz && i < |body| / sz
    ensures sz <= |b| && b[..sz] == Entry(body, sz, i)
  {
    EntryInside(|body|, sz, i);
    body[i * sz..]
  }

  /** A body made of whole entries followed by less than one. */
  function Joined(entries: seq<Bytes>): Bytes {
    if entries == [] then [] else Joined(entries[..|entries| - 1]) + entries[|entries| - 1]
  }

  lemma {:induction false} JoinedLength(entries: seq<Bytes>, sz: nat)
    requires forall i :: 0 <= i < |entries| ==> |entries[i]| == sz
    ensures |Joined(entries)| == |entries| * sz
  {
    if entries != [] {
      JoinedLength(entries[..|entries| - 1], sz);
      assert (|entries| - 1) * sz + sz == |entries| * sz;
    }
  }

  lemma {:induction false} JoinedSlice(entries: seq<Bytes>, sz: nat, i: nat)
    requires i < |entries| && forall k :: 0 <= k < |entries| ==> |entries[k]| == sz
    ensures 0 <= i * sz <= i * sz + sz <= |Joined(entries)|
    ensures Joined(entries)[i * sz..i * sz + sz] == entries[i]
  {
    var n, off := |entries| - 1, i * sz;
    var front := Joined(entries[..n]);
    Multiple(i, sz);
    JoinedLength(entries[..n], sz);
    if i < n {
      JoinedSlice(entries[..n], sz, i);
      assert (front + entries[n])[off..off + sz] == front[off..off + sz];
    } else {
      assert |front| == off;
    }
  }

  lemma JoinedEntries(entries: seq<Bytes>, sz: nat, tail: Bytes)
    requires 0 < sz && |tail| < sz
    requires forall i :: 0 <= i < |entries| ==> |entries[i]| == sz
    ensures |Joined(entries) + tail| / sz == |entries|
    ensures forall i :: 0 <= i < |entries| ==> Entry(Joined(entries) + tail, sz, i) == entries[i]
  {
    JoinedLength(entries, sz);
    DivideRemainder(|entries|, sz, |tail|);
    forall i | 0 <= i < |entries| ensures Entry(Joined(entries) + tail, sz, i) == entries[i] {
      JoinedSlice(entries, sz, i);
    }
  }

  lemma Multiple(d: int, sz: nat)
    ensures 0 <= d ==> 0 <= d * sz
    ensures 1 <= d ==> sz <= d * sz
    ensures d <= -1 ==> d * sz + sz <= 0
  {
    assert d * sz == (d - 1) * sz + sz == (d + 1) * sz - sz;
  }

  lemma DivideRemainder(n: nat, sz: nat, r: nat)
    requires r < sz
    ensures (n * sz + r) / sz == n
  {
    var a := n * sz + r;
    var q := a / sz;
    assert a == q * sz + a % sz;
    assert (q - n) * sz == q * sz - n * sz;
    Multiple(q - n, sz);
  }

  /** Cutting at an entry boundary cuts the entries there. */
  lemma EntryCountOfConcat(a: nat, b: nat, sz: nat)
    requires 0 < sz && a % sz == 0
    ensures (a + b) / sz == a / sz + b / sz && a == a / sz * sz
  {
    var k, l := a / sz, b / sz;
    assert a == k * sz && b == l * sz + b % sz;
    assert (k + l) * sz == k * sz + l * sz;
    DivideRemainder(k + l, sz, b % sz);
  }

  lemma EntriesOfConcat(a: Bytes, b: Bytes, sz: nat, i: nat)
    requires 0 < sz && |a| % sz == 0 && i < |a + b| / sz
    ensures |a + b| / sz == |a| / sz + |b| / sz
    ensures Entry(a + b, sz, i) == if i < |a| / sz then Entry(a, sz, i) else Entry(b, sz, i - |a| / sz)
  {
    EntryCountOfConcat(|a|, |b|, sz);
    var k := |a| / sz;
    if i < k { FirstEntries(a, b, sz, i); } else { LaterEntries(a, b, sz, k, i); }
  }

  lemma FirstEntries(a: Bytes, b: Bytes, sz: nat, i: nat)
    requires 0 < sz && i < |a| / sz && i < |a + b| / sz
    ensures Entry(a + b, sz, i) == Entry(a, sz, i)
  {
    EntryInside(|a|, sz, i);
    var off := i * sz;
    assert (a + b)[off..off + sz] == a[off..off + sz];
  }

  lemma LaterEntries(a: Bytes, b: Bytes, sz: nat, k: nat, i: nat)
    requires 0 < sz && |a| == k * sz && k <= i && i < |a + b| / sz && i - k < |b| / sz
    ensures Entry(a + b, sz, i) == Entry(b, sz, i - k)
  {
    EntryInside(|b|, sz, i - k);
    var off := (i - k) * sz;
    assert i * sz == |a| + off;
    assert (a + b)[|a| + off..|a| + off + sz] == b[off..off + sz];
  }
}
