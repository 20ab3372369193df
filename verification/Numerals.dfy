/** Addresses in hexadecimal and octal: printers of their own, which `inet_aton` undoes; and which
    characters end a number. */
module Numerals {
  import opened Wrappers
  import opened Wire
  import opened InetAton

  /** The digits of `n`, most significant first; `table[d]` is the character of the digit `d`. */
  function Digits(n: nat, table: seq<byte>): (r: seq<byte>)
    requires |table| >= 2
    ensures r != []
  {
    if n < |table| then [table[n]] else Digits(n / |table|, table) + [table[n % |table|]]
  }

  /** "0123456789abcdef", "0123456789ABCDEF", "01234567" */
  predicate IsTable(table: seq<byte>)
  {
    || table == [48, 49, 50, 51, 52, 53, 54, 55, 56, 57, 97, 98, 99, 100, 101, 102]
    || table == [48, 49, 50, 51, 52, 53, 54, 55, 56, 57, 65, 66, 67, 68, 69, 70]
    || table == [48, 49, 50, 51, 52, 53, 54, 55]
  }

  /** "0x", "0X", "0" */
  predicate Announces(prefix: seq<byte>, base: nat)
  {
    if base == 16 then prefix == [48, 120] || prefix == [48, 88] else base == 8 && prefix == [48]
  }

  /** A character of a table continues a number of that base and is worth its place. */
  lemma TableValues(table: seq<byte>, d: nat)
    requires IsTable(table) && d < |table|
    ensures Continues(table[d], |table|) && DigitValue(table[d]) == d && table[d] != 120 && table[d] != 88
  {
  }

  lemma TableSize(table: seq<byte>)
    requires IsTable(table)
    ensures |table| == 16 || |table| == 8
  {
  }

  lemma {:induction false} DigitsRead(n: nat, table: seq<byte>)
    requires IsTable(table)
    ensures |table| >= 2
    ensures var ds := Digits(n, table);
            && (forall k :: 0 <= k < |ds| ==> Continues(ds[k], |table|) && ds[k] != 120 && ds[k] != 88)
            && Positional(ds, |table|) == n
    decreases n
  {
    hide IsTable, Continues, DigitValue, IsDigit, IsHexLetter;
    TableSize(table);
    var ds := Digits(n, table);
    if n >= |table| {
      DigitsRead(n / |table|, table);
      TableValues(table, n % |table|);
      assert ds[..|ds| - 1] == Digits(n / |table|, table);
    } else {
      TableValues(table, n);
      assert ds[..0] == [];
      assert Positional(ds[..0], |table|) == 0;
    }
  }

  /** A number in hexadecimal, in lower or upper case, or in octal. */
  function Text(n: nat, prefix: seq<byte>, table: seq<byte>): seq<byte>
    requires |table| >= 2
  {
    prefix + Digits(n, table)
  }

  lemma BaseOfText(prefix: seq<byte>, ds: seq<byte>, base: nat)
    requires Announces(prefix, base) && ds != [] && ds[0] != 120 && ds[0] != 88
    ensures Base(prefix + ds) == (base, |prefix|) && (prefix + ds)[|prefix|..] == ds
  {
    assert (prefix + ds)[|prefix|] == ds[0];
  }

  lemma AnnouncedNumeral(prefix: seq<byte>, ds: seq<byte>, base: nat)
    requires Announces(prefix, base) && ds != [] && ds[0] != 120 && ds[0] != 88
    requires forall k :: 0 <= k < |ds| ==> Continues(ds[k], base)
    ensures IsNumeral(prefix + ds) && Value(prefix + ds) == Positional(ds, base) % 0x1_0000_0000
  {
    hide Base, Announces, Continues, Positional;
    BaseOfText(prefix, ds, base);
    var u := prefix + ds;
    forall k | |prefix| <= k < |u| ensures Continues(u[k], base) {
      assert u[k] == ds[k - |prefix|];
    }
  }

  lemma TextIsNumeral(n: nat, prefix: seq<byte>, table: seq<byte>)
    requires IsTable(table) && Announces(prefix, |table|)
    ensures |table| >= 2
    ensures IsNumeral(Text(n, prefix, table)) && Value(Text(n, prefix, table)) == n % 0x1_0000_0000
  {
    hide *;
    DigitsRead(n, table);
    TextIs(n, prefix, table);
    AnnouncedNumeral(prefix, Digits(n, table), |table|);
  }

  lemma TextIs(n: nat, prefix: seq<byte>, table: seq<byte>)
    requires |table| >= 2
    ensures Text(n, prefix, table) == prefix + Digits(n, table)
  {
  }

  /** `inet_aton` undoes the printing of every 32-bit number in each of these ways. */
  lemma TextParses(v: ulong, prefix: seq<byte>, table: seq<byte>)
    requires IsTable(table) && Announces(prefix, |table|)
    ensures |table| >= 2 && Aton(Text(v, prefix, table)) == Some(v)
  {
    hide *;
    TextIsNumeral(v, prefix, table);
    var u := Text(v, prefix, table);
    LoneNumeral(u);
    TextIsRead(u, [], u, []);
    LoneAddress(Value(u));
  }

  lemma LoneNumeral(u: seq<byte>)
    requires IsNumeral(u)
    ensures AddressText(u, [], u, []) && Small([]) && Bytes([]) == []
  {
    assert [] + (u + []) == u;
  }

  lemma LoneAddress(v: ulong)
    ensures Address([], v) == Some(v)
  {
  }

  /** "0x7f.1" is 127.0.0.1. */
  lemma HexLoopback()
    ensures Aton([48, 120, 55, 102, 46, 49]) == Some(0x7f00_0001)
    ensures LongBytes(0x7f00_0001) == [127, 0, 0, 1]
  {
    hide *;
    var u := HexByte();
    var w: seq<byte>, s: seq<byte> := [49], [48, 120, 55, 102, 46, 49];
    DecimalIsNumeral(1);
    DecimalOne();
    DottedIs([]);
    SmallMore(u, []);
    assert [u] + [] == [u] && [127 as byte] + [] == [127];
    Dot();
    assert s == (u + ([DOT] + [])) + w;
    IsAddressText(s, [u], w);
    TextIsRead(s, [u], w, []);
    LoopbackAddress();
  }

  lemma Dot()
    ensures DOT == 46
  {
  }

  lemma DecimalOne()
    ensures Decimal(1) == [49]
  {
  }

  lemma LoopbackAddress()
    ensures Address([127], 1) == Some(0x7f00_0001) && LongBytes(0x7f00_0001) == [127, 0, 0, 1]
  {
  }

  lemma HexByte() returns (u: seq<byte>)
    ensures u == [48, 120, 55, 102] && IsNumeral(u) && Value(u) == 127
  {
    var table: seq<byte> := [48, 49, 50, 51, 52, 53, 54, 55, 56, 57, 97, 98, 99, 100, 101, 102];
    u := Text(0x7f, [48, 120], table);
    TextIsNumeral(0x7f, [48, 120], table);
    TwoDigits(0x7f, table);
    assert u == [48, 120] + ([55] + [102]);
  }

  lemma TwoDigits(n: nat, table: seq<byte>)
    requires |table| >= 2 && |table| <= n < |table| * |table|
    ensures n / |table| < |table|
    ensures Digits(n, table) == [table[n / |table|]] + [table[n % |table|]]
  {
    assert n / |table| < |table|;
  }

  // ----- what may follow a number

  /** White space, by number. */
  predicate Blank(x: byte) { x == 9 || x == 10 || x == 11 || x == 12 || x == 13 || x == 32 }

  /** A digit of the base, by number; the digits 8 and 9 are taken in octal, too. */
  predicate DigitOf(x: byte, base: nat)
  {
    48 <= x <= 57 || (base == 16 && (65 <= x <= 70 || 97 <= x <= 102))
  }

  lemma Classes(x: byte, base: nat)
    ensures Continues(x, base) <==> DigitOf(x, base)
    ensures IsSpace(x) <==> Blank(x)
    ensures DOT == 46
  {
  }

  lemma NumeralStops(s: seq<byte>, u: seq<byte>, x: byte, rest: seq<byte>)
    requires s == u + ([x] + rest) && IsNumeral(u) && Base(s) == Base(u) && !Continues(x, Base(u).0)
    ensures Number(s, 0) == (Value(u), |u|) && |s| > |u| && s[|u|] == x
  {
    var b := Base(u);
    assert s[0..] == s;
    assert forall k :: 0 <= k < |u| ==> s[k] == u[k];
    DigitsEndAt(s, b.1, |u|, b.0);
    assert s[b.1..|u|] == u[b.1..];
  }

  /** A number ends where a character is no digit of its base, and then only white space, or a dot,
      may come. */
  lemma NumeralEnds(s: seq<byte>, u: seq<byte>, x: byte, rest: seq<byte>, base: nat)
    requires s == u + ([x] + rest) && IsNumeral(u) && Base(s) == Base(u) && Base(u).0 == base
    requires x != 46 && !DigitOf(x, base)
    ensures Aton(s) == if Blank(x) then Some(Value(u)) else None
  {
    hide *;
    Classes(x, base);
    NumeralStops(s, u, x, rest);
    PartsIs(s, 0, 3);
    AtonIs(s);
    LoneAddress(Value(u));
  }

  /** So it is behind every number in octal or hexadecimal, and behind every decimal but 0. */
  lemma TextEnds(v: ulong, prefix: seq<byte>, table: seq<byte>, x: byte, rest: seq<byte>)
    requires IsTable(table) && Announces(prefix, |table|) && x != 46 && !DigitOf(x, |table|)
    ensures |table| >= 2
    ensures Aton(Text(v, prefix, table) + ([x] + rest)) == if Blank(x) then Some(v) else None
  {
    hide *;
    TableSize(table);
    var ds, u := Digits(v, table), Text(v, prefix, table);
    var s := u + ([x] + rest);
    DigitsRead(v, table);
    TextIs(v, prefix, table);
    TextIsNumeral(v, prefix, table);
    assert s == prefix + (ds + ([x] + rest));
    BaseOfText(prefix, ds, |table|);
    BaseOfText(prefix, ds + ([x] + rest), |table|);
    NumeralEnds(s, u, x, rest, |table|);
  }

  lemma DecimalEnds(v: byte, x: byte, rest: seq<byte>)
    requires v > 0 && x != 46 && !DigitOf(x, 10)
    ensures Aton(Decimal(v) + ([x] + rest)) == if Blank(x) then Some(v as ulong) else None
  {
    DecimalReads(v);
    DecimalIsNumeral(v);
    var u := Decimal(v);
    assert (u + ([x] + rest))[0] == u[0];
    NumeralEnds(u + ([x] + rest), u, x, rest, 10);
  }

  /** What is accepted for want of digits, or with a digit too large for its base. */
  lemma OddTexts()
    ensures Aton([]) == Some(0) && Aton([48, 120]) == Some(0) && Aton([48, 57]) == Some(9)
  {
    var hex: seq<byte>, nine: seq<byte> := [48, 120], [48, 57];
    assert Base([]) == (10, 0) && Base(hex) == (16, 2) && Base(nine) == (8, 1);
    assert nine[1..] == [57] && [57][..0] == [];
    assert Positional(hex[2..], 16) == 0;
    assert Positional([57][..0], 8) == 0;
    assert Positional(nine[1..], 8) == 9;
    LoneNumeral([]);
    LoneNumeral(hex);
    LoneNumeral(nine);
    TextIsRead([], [], [], []);
    TextIsRead(hex, [], hex, []);
    TextIsRead(nine, [], nine, []);
  }
}
