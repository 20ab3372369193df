/** Bytes of a message and the big-endian integers stored in it. */
module Wire {
  import opened Bits

  type byte = x: int | 0 <= x < 256

  type ushort = x: int | 0 <= x < 0x1_0000

  type ulong = x: int | 0 <= x < 0x1_0000_0000

  const DOT: byte := 46        // '.'
  const BACKSLASH: byte := 92  // '\\'
  const INDIR_MASK: byte := 0xc0
  const MAXLABEL := 63

  /** A null pointer, where pointers are places in a buffer. */
  const NULL := -1

  /** A character of a C string: the string's bytes, then the terminating NUL. */
  function CharAt(s: seq<byte>, i: nat): (c: byte)
    requires i <= |s|
    ensures 0 !in s ==> (c == 0 <==> i == |s|)
  {
    if i < |s| then s[i] else 0
  }

  function ShortAt(m: seq<byte>, p: nat): (r: ushort)
    requires p + 2 <= |m|
  {
    var hi: int := m[p];
    hi * 0x100 + m[p + 1]
  }

  function LongAt(m: seq<byte>, p: nat): (r: ulong)
    requires p + 4 <= |m|
  {
    ShortAt(m, p) * 0x1_0000 + ShortAt(m, p + 2)
  }

  function ShortBytes(s: ushort): (r: seq<byte>)
    ensures |r| == 2
  {
    [s / 0x100, s % 0x100]
  }

  function LongBytes(l: ulong): (r: seq<byte>)
    ensures |r| == 4
  {
    ShortBytes(l / 0x1_0000) + ShortBytes(l % 0x1_0000)
  }

  /** What is put as a short is got as the same short, and stands there with the high byte first. */
  lemma ShortRoundTrip(s: ushort, m: seq<byte>, p: nat)
    requires p + 2 <= |m| && m[p..p + 2] == ShortBytes(s)
    ensures ShortAt(m, p) == s == 256 * m[p] as int + m[p + 1] as int
  {
    assert m[p] == m[p..p + 2][0] && m[p + 1] == m[p..p + 2][1];
  }

  lemma LongRoundTrip(l: ulong, m: seq<byte>, p: nat)
    requires p + 4 <= |m| && m[p..p + 4] == LongBytes(l)
    ensures LongAt(m, p) == l
    ensures l == 0x100_0000 * m[p] as int + 0x1_0000 * m[p + 1] as int + 256 * m[p + 2] as int + m[p + 3] as int
  {
    assert m[p..p + 2] == m[p..p + 4][..2];
    assert m[p + 2..p + 4] == m[p..p + 4][2..];
    ShortRoundTrip(l / 0x1_0000, m, p);
    ShortRoundTrip(l % 0x1_0000, m, p + 2);
  }

  method GetShort(buf: array<byte>, p: nat) returns (u: nat)
    requires p + 2 <= buf.Length
    ensures u == ShortAt(buf[..], p)
  {
    OrShort(buf[p], buf[p + 1]);
    u := buf[p];
    u := u * 0x100;
    u := Or(u, buf[p + 1]);
  }

  method GetLong(buf: array<byte>, p: nat) returns (u: nat)
    requires p + 4 <= buf.Length
    ensures u == LongAt(buf[..], p)
  {
    u := buf[p];
    u := u * 0x100;
    OrShort(buf[p], buf[p + 1]);
    u := Or(u, buf[p + 1]);
    OrShort(u, buf[p + 2]);
    u := u * 0x100;
    u := Or(u, buf[p + 2]);
    OrShort(u, buf[p + 3]);
    u := u * 0x100;
    u := Or(u, buf[p + 3]);
  }

  method PutShort(s: ushort, buf: array<byte>, p: nat)
    requires p + 2 <= buf.Length
    modifies buf
    ensures buf[..] == Stored(old(buf[..]), p, ShortBytes(s))
  {
    buf[p + 1] := s % 0x100;
    buf[p] := s / 0x100;
  }

  method PutLong(l: ulong, buf: array<byte>, p: nat)
    requires p + 4 <= buf.Length
    modifies buf
    ensures buf[..] == Stored(old(buf[..]), p, LongBytes(l))
  {
    buf[p + 3] := l % 0x1_0000 % 0x100;
    buf[p + 2] := l % 0x1_0000 / 0x100;
    buf[p + 1] := l / 0x1_0000 % 0x100;
    buf[p] := l / 0x1_0000 / 0x100;
  }

  function Zeros(n: nat): (r: seq<byte>)
    ensures |r| == n
  {
    seq(n, _ => 0)
  }

  // ----- writing into a buffer

  /** The buffer with `bytes` stored at `at` and the rest left alone. */
  function Stored(before: seq<byte>, at: nat, bytes: seq<byte>): seq<byte>
    requires at + |bytes| <= |before|
  {
    before[..at] + bytes + before[at + |bytes|..]
  }

  lemma StoreNext(before: seq<byte>, at: nat, bytes: seq<byte>, c: byte)
    requires at + |bytes| < |before|
    ensures Stored(before, at, bytes)[at + |bytes| := c] == Stored(before, at, bytes + [c])
  {
  }

  lemma StoreNothing(before: seq<byte>, at: nat)
    requires at <= |before|
    ensures Stored(before, at, []) == before
  {
  }

  lemma StoreMore(before: seq<byte>, at: nat, a: seq<byte>, b: seq<byte>)
    requires at + |a| + |b| <= |before|
    ensures Stored(Stored(before, at, a), at + |a|, b) == Stored(before, at, a + b)
  {
  }

  lemma StoredPrefix(before: seq<byte>, comp: nat, written: seq<byte>)
    requires comp + |written| <= |before|
    ensures |Stored(before, comp, written)| == |before|
    ensures Stored(before, comp, written)[..comp] == before[..comp]
    ensures forall i :: 0 <= i < |before| && (i < comp || i >= comp + |written|) ==>
              Stored(before, comp, written)[i] == before[i]
  {
  }

  lemma StoreOne(before: seq<byte>, at: nat, b: byte)
    requires at < |before|
    ensures before[at := b] == Stored(before, at, [b])
  {
  }
}
