/** `inet_aton`: the text of an IPv4 address in its four forms, each number in one of three bases;
    and the printer opposite it, the reverse name of `rgethostbyaddr`. */
module InetAton {
  import opened Wrappers
  import opened Bits
  import opened Wire

  const TWO32 := 0x1_0000_0000
  const ZERO: byte := 48

  predicate IsDigit(c: byte) { 48 <= c <= 57 }

  /** 'a' to 'f' and 'A' to 'F' */
  predicate IsHexLetter(c: byte) { 97 <= c <= 102 || 65 <= c <= 70 }

  predicate IsSpace(c: byte) { c == 32 || 9 <= c <= 13 }

  /** A character that continues a number. Digits are taken in any base, octal included. */
  predicate Continues(c: byte, base: nat)
  {
    IsDigit(c) || (base == 16 && IsHexLetter(c))
  }

  function DigitValue(c: byte): nat
    requires IsDigit(c) || IsHexLetter(c)
  {
    if IsDigit(c) then c - 48 else if c >= 97 then c - 87 else c - 55
  }

  /** The base a number announces, and the length of the announcement. */
  function Base(t: seq<byte>): (r: (nat, nat))
    ensures r.1 <= |t|
  {
    if t == [] || t[0] != ZERO then (10, 0)
    else if |t| > 1 && (t[1] == 120 || t[1] == 88) then (16, 2)
    else (8, 1)
  }

  /** How many characters from `i` on continue a number. */
  function DigitsEnd(s: seq<byte>, i: nat, base: nat): (e: nat)
    requires i <= |s|
    ensures i <= e <= |s|
    ensures forall k :: i <= k < e ==> Continues(s[k], base)
    ensures e < |s| ==> !Continues(s[e], base)
    decreases |s| - i
  {
    if i < |s| && Continues(s[i], base) then DigitsEnd(s, i + 1, base) else i
  }

  /** The positional value of a string of digits, without any bound. */
  function Positional(ds: seq<byte>, base: nat): nat
    requires forall k :: 0 <= k < |ds| ==> Continues(ds[k], base)
  {
    if ds == [] then 0
    else
      assert Continues(ds[|ds| - 1], base);
      Positional(ds[..|ds| - 1], base) * base + DigitValue(ds[|ds| - 1])
  }

  /** The number at `i`: its value in 32 bits, and where it ends. */
  function Number(s: seq<byte>, i: nat): (r: (ulong, nat))
    requires i <= |s|
    ensures i <= r.1 <= |s|
  {
    var b := Base(s[i..]);
    var e := DigitsEnd(s, i + b.1, b.0);
    (Positional(s[i + b.1..e], b.0) % TWO32, e)
  }

  /** The numbers of an address from `i` on: those ended by a dot, which must fit a byte, at most
      `room` of them, and the last one; and where it ends. */
  function Parts(s: seq<byte>, i: nat, room: nat): (r: Option<(seq<byte>, ulong, nat)>)
    requires i <= |s|
    ensures r.Some? ==> |r.value.0| <= room && r.value.2 <= |s|
    decreases |s| - i
  {
    var n := Number(s, i);
    if n.1 == |s| || s[n.1] != DOT then Some(([], n.0, n.1))
    else if room == 0 || n.0 > 0xff then None
    else
      match Parts(s, n.1 + 1, room - 1)
      case None => None
      case Some(p) => Some(([n.0 as byte] + p.0, p.1, p.2))
  }

  /** The address: the leading bytes in front, the last number in the bits that are left, where it
      must fit. */
  function Address(lead: seq<byte>, last: ulong): (r: Option<ulong>)
    requires |lead| <= 3
  {
    if |lead| == 0 then Some(last)
    else if |lead| == 1 then
      if last > 0xff_ffff then None else Some(lead[0] * 0x100_0000 + last)
    else if |lead| == 2 then
      if last > 0xffff then None else Some(lead[0] * 0x100_0000 + lead[1] * 0x1_0000 + last)
    else
      if last > 0xff then None
      else Some(lead[0] * 0x100_0000 + lead[1] * 0x1_0000 + lead[2] * 0x100 + last)
  }

  /** The layout of an address: the leading bytes come out in front, and the last number fills the
      bytes that are left, most significant first. */
  lemma AddressLayout(lead: seq<byte>, last: ulong)
    requires |lead| <= 3
    ensures Address(lead, last).Some? ==>
              LongBytes(Address(lead, last).value) == lead + LongBytes(last)[|lead|..]
    ensures Address(lead, last).Some? <==> LongBytes(last)[..|lead|] == Zeros(|lead|)
  {
    hide LongBytes;
    BytesOf(last);
    var b := LongBytes(last);
    if |lead| == 0 {
      assert b[..0] == Zeros(0);
    } else if |lead| == 1 {
      BytesMake(lead[0], b[1], b[2], b[3]);
      assert b[..1] == Zeros(1) <==> b[0] == 0;
    } else if |lead| == 2 {
      BytesMake(lead[0], lead[1], b[2], b[3]);
      assert b[..2] == Zeros(2) <==> b[0] == 0 && b[1] == 0;
    } else {
      BytesMake(lead[0], lead[1], lead[2], b[3]);
      assert b[..3] == Zeros(3) <==> b[0] == 0 && b[1] == 0 && b[2] == 0;
    }
  }

  lemma BytesMake(a: byte, b: byte, c: byte, d: byte)
    ensures LongBytes(a as int * 0x100_0000 + b as int * 0x1_0000 + c as int * 0x100 + d) == [a, b, c, d]
  {
    var v := a as int * 0x100_0000 + b as int * 0x1_0000 + c as int * 0x100 + d;
    assert v / 0x1_0000 == a as int * 0x100 + b;
    assert v % 0x1_0000 == c as int * 0x100 + d;
  }

  lemma BytesOf(l: ulong)
    ensures var b := LongBytes(l);
            |b| == 4 && l == b[0] as int * 0x100_0000 + b[1] as int * 0x1_0000 + b[2] as int * 0x100 + b[3] as int
  {
  }

  /** What `inet_aton` accepts, and the value it stores: behind the last number the text must end or
      go on with white space. */
  function Aton(s: seq<byte>): Option<ulong>
  {
    match Parts(s, 0, 3)
    case None => None
    case Some(p) =>
      if p.2 < |s| && !IsSpace(s[p.2]) then None else Address(p.0, p.1)
  }

  // ----- one number

  lemma ModStep(v: nat, base: nat, d: nat)
    ensures (v % TWO32 * base + d) % TWO32 == (v * base + d) % TWO32
  {
    var q := v / TWO32;
    assert v == TWO32 * q + v % TWO32;
    assert v * base + d == TWO32 * (q * base) + (v % TWO32 * base + d);
    ModShift(q * base, v % TWO32 * base + d);
  }

  lemma ModShift(q: nat, r: nat)
    ensures (TWO32 * q + r) % TWO32 == r % TWO32
  {
  }

  lemma PositionalNext(s: seq<byte>, i: nat, e: nat, base: nat)
    requires i <= e < |s| && forall k :: i <= k <= e ==> Continues(s[k], base)
    ensures Continues(s[e], base)
    ensures Positional(s[i..e + 1], base) == Positional(s[i..e], base) * base + DigitValue(s[e])
  {
    assert s[i..e + 1][..e - i] == s[i..e];
  }

  /** In the middle of a number: `val` is the value so far, in 32 bits. */
  ghost predicate Reading(s: seq<byte>, start: nat, cp: nat, base: nat, val: ulong)
  {
    && start <= cp <= |s|
    && (forall k :: start <= k < cp ==> Continues(s[k], base))
    && val == Positional(s[start..cp], base) % TWO32
    && DigitsEnd(s, start, base) == DigitsEnd(s, cp, base)
  }

  lemma ReadingNothing(s: seq<byte>, start: nat, base: nat)
    requires start <= |s|
    ensures Reading(s, start, start, base, 0)
  {
  }

  lemma ReadingNext(s: seq<byte>, start: nat, cp: nat, base: nat, val: ulong)
    requires Reading(s, start, cp, base, val) && cp < |s| && Continues(s[cp], base)
    ensures Reading(s, start, cp + 1, base, (val * base + DigitValue(s[cp])) % TWO32)
  {
    PositionalNext(s, start, cp, base);
    ModStep(Positional(s[start..cp], base), base, DigitValue(s[cp]));
  }

  lemma ReadingDone(s: seq<byte>, i: nat, start: nat, cp: nat, base: nat, val: ulong)
    requires i <= |s| && Reading(s, start, cp, base, val) && (base, start - i) == Base(s[i..])
    requires cp == |s| || !Continues(s[cp], base)
    ensures (val, cp) == Number(s, i)
  {
  }

  lemma BaseAt(s: seq<byte>, i: nat)
    requires i <= |s| && 0 !in s
    ensures Base(s[i..]) ==
            if CharAt(s, i) != ZERO then (10, 0)
            else if CharAt(s, i + 1) == 120 || CharAt(s, i + 1) == 88 then (16, 2)
            else (8, 1)
  {
  }

  /** Reads the number at `i`; the arithmetic is that of 32 bits. */
  method ReadNumber(s: seq<byte>, i: nat) returns (val: ulong, cp: nat)
    requires i <= |s| && 0 !in s
    ensures (val, cp) == Number(s, i)
  {
    hide Number, Base, Reading, DigitsEnd, Positional;
    var base: nat;
    BaseAt(s, i);
    cp := i;
    val, base := 0, 10;
    if CharAt(s, cp) == ZERO {
      cp := cp + 1;
      if CharAt(s, cp) == 120 || CharAt(s, cp) == 88 {
        base, cp := 16, cp + 1;
      } else {
        base := 8;
      }
    }
    ghost var start := cp;
    ReadingNothing(s, start, base);
    while CharAt(s, cp) != 0
      invariant cp <= |s| && Reading(s, start, cp, base, val)
      decreases |s| - cp
    {
      var c: int := s[cp];
      if IsDigit(s[cp]) {
        ReadingNext(s, start, cp, base, val);
        val := (val * base + (c - 48)) % TWO32;
        cp := cp + 1;
        continue;
      }
      if base == 16 && IsHexLetter(s[cp]) {
        ReadingNext(s, start, cp, base, val);
        val := (val * 16 + (c + 10 - if c >= 97 then 97 else 65)) % TWO32;
        cp := cp + 1;
        continue;
      }
      break;
    }
    ReadingDone(s, i, start, cp, base, val);
  }

  // ----- the whole address

  /** The ORs of shifted bytes carry nothing. */
  lemma OrOne(last: nat, a: byte)
    requires last < 0x100_0000
    ensures Or(last, a as int * 0x100_0000) == a as int * 0x100_0000 + last
  {
    Pow2Values();
    OrPacks(last, a, 24);
  }

  lemma OrTwo(last: nat, a: byte, b: byte)
    requires last < 0x1_0000
    ensures Or(last, Or(a as int * 0x100_0000, b as int * 0x1_0000)) ==
            a as int * 0x100_0000 + b as int * 0x1_0000 + last
  {
    Pow2Values();
    OrPacks(b as int * 0x1_0000, a, 24);
    OrPacks(last, a as int * 0x100 + b, 16);
  }

  lemma OrThree(last: nat, a: byte, b: byte, c: byte)
    requires last < 0x100
    ensures Or(last, Or(Or(a as int * 0x100_0000, b as int * 0x1_0000), c as int * 0x100)) ==
            a as int * 0x100_0000 + b as int * 0x1_0000 + c as int * 0x100 + last
  {
    Pow2Values();
    OrPacks(b as int * 0x1_0000, a, 24);
    OrPacks(c as int * 0x100, a as int * 0x100 + b, 16);
    OrPacks(last, a as int * 0x1_0000 + b as int * 0x100 + c, 8);
  }

  /** What is read in all when the numbers in `lead` are behind and `rest` is still to read. */
  function Ahead(lead: seq<byte>, rest: Option<(seq<byte>, ulong, nat)>): Option<(seq<byte>, ulong, nat)>
  {
    match rest
    case None => None
    case Some(p) => Some((lead + p.0, p.1, p.2))
  }

  lemma AheadNothing(rest: Option<(seq<byte>, ulong, nat)>)
    ensures Ahead([], rest) == rest
  {
    assert rest.Some? ==> [] + rest.value.0 == rest.value.0;
  }

  lemma PartsIs(s: seq<byte>, i: nat, room: nat)
    requires i <= |s|
    ensures var n := Number(s, i);
            Parts(s, i, room) ==
            if n.1 == |s| || s[n.1] != DOT then Some(([], n.0, n.1))
            else if room == 0 || n.0 > 0xff then None
            else
              match Parts(s, n.1 + 1, room - 1)
              case None => None
              case Some(p) => Some(([n.0 as byte] + p.0, p.1, p.2))
  {
  }

  lemma AheadNext(s: seq<byte>, cp: nat, lead: seq<byte>)
    requires cp <= |s| && |lead| <= 3
    ensures var n := Number(s, cp);
            Ahead(lead, Parts(s, cp, 3 - |lead|)) ==
            if n.1 == |s| || s[n.1] != DOT then Some((lead, n.0, n.1))
            else if |lead| >= 3 || n.0 > 0xff then None
            else Ahead(lead + [n.0 as byte], Parts(s, n.1 + 1, 3 - |lead| - 1))
  {
    hide *;
    PartsIs(s, cp, 3 - |lead|);
    var n := Number(s, cp);
    if n.1 == |s| || s[n.1] != DOT {
      AheadSome(lead, [], n.0, n.1);
      assert lead + [] == lead;
    } else if |lead| < 3 && n.0 <= 0xff {
      AheadMore(lead, n.0, Parts(s, n.1 + 1, 3 - |lead| - 1));
    } else {
      AheadNone(lead);
    }
  }

  lemma AheadNone(lead: seq<byte>)
    ensures Ahead(lead, None).None?
  {
  }

  lemma AheadSome(lead: seq<byte>, more: seq<byte>, last: ulong, end: nat)
    ensures Ahead(lead, Some((more, last, end))) == Some((lead + more, last, end))
  {
  }

  lemma AheadMore(lead: seq<byte>, b: byte, rest: Option<(seq<byte>, ulong, nat)>)
    ensures Ahead(lead + [b], rest) ==
            Ahead(lead, match rest
                        case None => None
                        case Some(p) => Some(([b] + p.0, p.1, p.2)))
  {
    if rest.Some? {
      assert lead + ([b] + rest.value.0) == lead + [b] + rest.value.0;
    }
  }

  lemma AtonIs(s: seq<byte>)
    ensures Aton(s) == match Parts(s, 0, 3)
                       case None => None
                       case Some(p) => if p.2 < |s| && !IsSpace(s[p.2]) then None else Address(p.0, p.1)
  {
  }

  /** The switch on the number of parts: the last number must fit in the bits that are left. */
  method Pack(parts: seq<byte>, last: ulong) returns (ok: bool, val: ulong)
    requires |parts| <= 3
    ensures ok <==> Address(parts, last).Some?
    ensures ok ==> val == Address(parts, last).value
  {
    hide Or;
    val := last;
    var n := |parts| + 1;
    if n == 2 {
      if val > 0xff_ffff {
        return false, val;
      }
      OrOne(val, parts[0]);
      val := Or(val, parts[0] as int * 0x100_0000);
    } else if n == 3 {
      if val > 0xffff {
        return false, val;
      }
      OrTwo(val, parts[0], parts[1]);
      val := Or(val, Or(parts[0] as int * 0x100_0000, parts[1] as int * 0x1_0000));
    } else if n == 4 {
      if val > 0xff {
        return false, val;
      }
      OrThree(val, parts[0], parts[1], parts[2]);
      val := Or(val, Or(Or(parts[0] as int * 0x100_0000, parts[1] as int * 0x1_0000), parts[2] as int * 0x100));
    }
    ok := true;
  }

  /** Returns 1 and the four bytes of the address, most significant first, or 0. */
  method InetAton(s: seq<byte>) returns (r: nat, addr: seq<byte>)
    requires 0 !in s
    ensures match Aton(s)
            case None => r == 0
            case Some(a) => r == 1 && addr == LongBytes(a)
  {
    hide *;
    addr := [];
    var parts: array<byte> := new byte[4](_ => 0);
    var pp: nat, cp: nat, val: ulong := 0, 0, 0;
    AtonIs(s);
    AheadNothing(Parts(s, 0, 3));
    while true
      invariant pp <= 3 && cp <= |s|
      invariant Parts(s, 0, 3) == Ahead(parts[..pp], Parts(s, cp, 3 - pp))
      decreases |s| - cp
    {
      AheadNext(s, cp, parts[..pp]);
      val, cp := ReadNumber(s, cp);
      if cp < |s| && s[cp] == DOT {
        if pp >= 3 || val > 0xff {
          return 0, [];
        }
        parts[pp] := val;
        pp, cp := pp + 1, cp + 1;
        assert parts[..pp] == parts[..pp - 1] + [val as byte];
      } else {
        break;
      }
    }
    if cp < |s| && !IsSpace(s[cp]) {
      return 0, [];
    }
    var ok, v := Pack(parts[..pp], val);
    if !ok {
      return 0, [];
    }
    addr := LongBytes(v);
    r := 1;
  }

  // ----- which texts are accepted

  /** A number as text: the announcement of its base, and digits of that base, maybe none. */
  predicate IsNumeral(u: seq<byte>)
  {
    forall k :: Base(u).1 <= k < |u| ==> Continues(u[k], Base(u).0)
  }

  function Value(u: seq<byte>): ulong
    requires IsNumeral(u)
  {
    Positional(u[Base(u).1..], Base(u).0) % TWO32
  }

  predicate Small(us: seq<seq<byte>>)
  {
    forall k :: 0 <= k < |us| ==> IsNumeral(us[k]) && Value(us[k]) <= 0xff
  }

  function Bytes(us: seq<seq<byte>>): (r: seq<byte>)
    requires Small(us)
    ensures |r| == |us|
  {
    if us == [] then [] else [Value(us[0]) as byte] + Bytes(us[1..])
  }

  /** The numbers, each with a dot behind it. */
  function Dotted(us: seq<seq<byte>>): seq<byte>
  {
    if us == [] then [] else us[0] + ([DOT] + Dotted(us[1..]))
  }

  /** At most three numbers that fit a byte, each with a dot behind it, then one more number, and then
      nothing or white space and anything. */
  predicate AddressText(s: seq<byte>, lead: seq<seq<byte>>, last: seq<byte>, tail: seq<byte>)
  {
    && |lead| <= 3 && Small(lead) && IsNumeral(last)
    && (tail == [] || IsSpace(tail[0])) && s == Dotted(lead) + (last + tail)
  }

  /** What can follow a number. */
  predicate Stops(rest: seq<byte>)
  {
    rest == [] || rest[0] == DOT || IsSpace(rest[0])
  }

  lemma {:induction false} DigitsEndAt(s: seq<byte>, i: nat, e: nat, base: nat)
    requires i <= e <= |s| && (forall k :: i <= k < e ==> Continues(s[k], base))
    requires e == |s| || !Continues(s[e], base)
    ensures DigitsEnd(s, i, base) == e
    decreases e - i
  {
    if i < e {
      DigitsEndAt(s, i + 1, e, base);
    }
  }

  /** A number where it can end is read as its value. */
  lemma NumberReads(s: seq<byte>, i: nat, u: seq<byte>, rest: seq<byte>)
    requires i <= |s| && s[i..] == u + rest && IsNumeral(u) && Stops(rest)
    ensures Number(s, i) == (Value(u), i + |u|)
    ensures i + |u| <= |s| && s[i + |u|..] == rest
  {
    var e, b := i + |u|, Base(u);
    assert Base(s[i..]) == b;
    forall k | i <= k < e ensures s[k] == u[k - i] {
      assert s[k] == s[i..][k - i];
    }
    assert s[e..] == s[i..][|u|..] == rest;
    assert e < |s| ==> s[e] == rest[0];
    DigitsEndAt(s, i + b.1, e, b.0);
    assert s[i + b.1..e] == u[b.1..];
  }

  /** And what is read as a number is one. */
  lemma NumberIsNumeral(s: seq<byte>, i: nat)
    requires i <= |s|
    ensures var n := Number(s, i);
            IsNumeral(s[i..n.1]) && Value(s[i..n.1]) == n.0
  {
    var n, b := Number(s, i), Base(s[i..]);
    var u := s[i..n.1];
    assert Base(u) == b by {
      assert |u| > 0 ==> u[0] == s[i..][0];
      assert |u| > 1 ==> u[1] == s[i..][1];
    }
    assert u[b.1..] == s[i + b.1..n.1];
    assert forall k :: b.1 <= k < |u| ==> u[k] == s[i + k];
  }

  lemma {:induction false} PartsOfText(s: seq<byte>, i: nat, lead: seq<seq<byte>>, last: seq<byte>,
                                       tail: seq<byte>, room: nat)
    requires i <= |s| && s[i..] == Dotted(lead) + (last + tail) && |lead| <= room
    requires Small(lead) && IsNumeral(last) && (tail == [] || IsSpace(tail[0]))
    ensures |tail| <= |s| && s[|s| - |tail|..] == tail
    ensures Parts(s, i, room) == Some((Bytes(lead), Value(last), |s| - |tail|))
    decreases lead
  {
    hide *;
    PartsIs(s, i, room);
    DottedIs(lead);
    if lead == [] {
      SpaceStops(tail);
      assert s[i..] == last + tail;
      NumberReads(s, i, last, tail);
    } else {
      NumberAndDot(s, i, lead, last + tail);
      PartsOfText(s, i + |lead[0]| + 1, lead[1..], last, tail, room - 1);
    }
  }

  lemma NumberAndDot(s: seq<byte>, i: nat, lead: seq<seq<byte>>, rest: seq<byte>)
    requires i <= |s| && lead != [] && IsNumeral(lead[0]) && s[i..] == Dotted(lead) + rest
    ensures var e := i + |lead[0]|;
            && e < |s| && s[e] == DOT && Number(s, i) == (Value(lead[0]), e)
            && s[e + 1..] == Dotted(lead[1..]) + rest
  {
    hide *;
    DottedIs(lead);
    var more := Dotted(lead[1..]) + rest;
    assert s[i..] == lead[0] + ([DOT] + more);
    DotStops(more);
    NumberReads(s, i, lead[0], [DOT] + more);
    var e := i + |lead[0]|;
    assert s[e] == s[e..][0] && s[e + 1..] == s[e..][1..];
  }

  lemma DottedIs(us: seq<seq<byte>>)
    ensures us == [] ==> Dotted(us) == [] && Small(us) && Bytes(us) == []
    ensures us != [] ==> Dotted(us) == us[0] + ([DOT] + Dotted(us[1..]))
    ensures us != [] && Small(us) ==>
              IsNumeral(us[0]) && Value(us[0]) <= 0xff && Small(us[1..]) &&
              Bytes(us) == [Value(us[0]) as byte] + Bytes(us[1..])
  {
  }

  lemma DotStops(rest: seq<byte>)
    ensures Stops([DOT] + rest)
  {
  }

  lemma SpaceStops(tail: seq<byte>)
    requires tail == [] || IsSpace(tail[0])
    ensures Stops(tail) && (tail != [] ==> tail[0] != DOT)
  {
  }

  lemma SmallMore(u: seq<byte>, us: seq<seq<byte>>)
    requires IsNumeral(u) && Value(u) <= 0xff && Small(us)
    ensures Small([u] + us) && Bytes([u] + us) == [Value(u) as byte] + Bytes(us)
    ensures Dotted([u] + us) == u + ([DOT] + Dotted(us))
  {
    assert ([u] + us)[1..] == us;
  }

  lemma {:induction false} TextOfParts(s: seq<byte>, i: nat, room: nat) returns (lead: seq<seq<byte>>, last: seq<byte>)
    requires i <= |s| && Parts(s, i, room).Some?
    ensures Small(lead) && IsNumeral(last) && |lead| <= room
    ensures var p := Parts(s, i, room).value;
            p.0 == Bytes(lead) && p.1 == Value(last) && s[i..] == Dotted(lead) + (last + s[p.2..])
    decreases |s| - i
  {
    hide *;
    PartsIs(s, i, room);
    NumberIsNumeral(s, i);
    var n := Number(s, i);
    var u := s[i..n.1];
    if n.1 == |s| || s[n.1] != DOT {
      lead, last := [], u;
      DottedIs([]);
      assert s[i..] == u + s[n.1..];
    } else {
      var more;
      more, last := TextOfParts(s, n.1 + 1, room - 1);
      lead := [u] + more;
      SmallMore(u, more);
      var p := Parts(s, n.1 + 1, room - 1).value;
      assert s[i..] == u + ([DOT] + s[n.1 + 1..]);
      assert u + ([DOT] + (Dotted(more) + (last + s[p.2..]))) == (u + ([DOT] + Dotted(more))) + (last + s[p.2..]);
    }
  }

  lemma TextIsRead(s: seq<byte>, lead: seq<seq<byte>>, last: seq<byte>, tail: seq<byte>)
    requires AddressText(s, lead, last, tail)
    ensures Aton(s) == Address(Bytes(lead), Value(last))
  {
    assert s[0..] == s;
    PartsOfText(s, 0, lead, last, tail, 3);
    assert tail != [] ==> s[|s| - |tail|] == s[|s| - |tail|..][0];
  }

  /** Exactly these texts are accepted, each as the address that its numbers give: all four forms, and
      every mixture of decimal, octal and hexadecimal numbers. */
  lemma AcceptsExactly(s: seq<byte>, v: ulong)
    ensures Aton(s) == Some(v) <==>
            exists lead, last, tail ::
              AddressText(s, lead, last, tail) && Address(Bytes(lead), Value(last)) == Some(v)
  {
    if Aton(s) == Some(v) {
      var lead, last := TextOfParts(s, 0, 3);
      var tail := s[Parts(s, 0, 3).value.2..];
      assert s[0..] == s;
      assert AddressText(s, lead, last, tail);
    }
    if lead, last, tail :| AddressText(s, lead, last, tail) && Address(Bytes(lead), Value(last)) == Some(v) {
      TextIsRead(s, lead, last, tail);
    }
  }

  // ----- the printer

  /** "%u" */
  function Decimal(n: nat): (r: seq<byte>)
    ensures r != []
  {
    if n < 10 then [48 + n] else Decimal(n / 10) + [48 + n % 10]
  }

  function Quad(a: byte, b: byte, c: byte, d: byte): seq<byte>
  {
    Decimal(a) + ([DOT] + (Decimal(b) + ([DOT] + (Decimal(c) + ([DOT] + Decimal(d))))))
  }

  /** ".in-addr.arpa" */
  const IN_ADDR_ARPA: seq<byte> := [46, 105, 110, 45, 97, 100, 100, 114, 46, 97, 114, 112, 97]

  /** The name `rgethostbyaddr` asks for (section 3.5 of RFC 1035). */
  function ReverseName(addr: seq<byte>): seq<byte>
    requires |addr| == 4
  {
    Quad(addr[3], addr[2], addr[1], addr[0]) + IN_ADDR_ARPA
  }

  lemma {:induction false} DecimalReads(n: nat)
    ensures var ds := Decimal(n);
            && (forall k :: 0 <= k < |ds| ==> IsDigit(ds[k]) && Continues(ds[k], 10))
            && Positional(ds, 10) == n
            && (n > 0 ==> ds[0] != ZERO)
            && (n == 0 ==> ds == [ZERO])
  {
    var ds := Decimal(n);
    if n >= 10 {
      DecimalReads(n / 10);
      assert ds[..|ds| - 1] == Decimal(n / 10);
    } else {
      assert ds[..0] == [];
      assert Positional(ds[..0], 10) == 0;
    }
  }

  lemma DecimalIsNumeral(n: byte)
    ensures IsNumeral(Decimal(n)) && Value(Decimal(n)) == n
  {
    DecimalReads(n);
    var ds := Decimal(n);
    assert ds[0..] == ds;
    if n == 0 {
      assert ds[1..] == [];
    }
  }

  lemma AddressOfBytes(a: byte, b: byte, c: byte, d: byte)
    ensures var v := a as int * 0x100_0000 + b as int * 0x1_0000 + c as int * 0x100 + d;
            Address([a, b, c], d as int) == Some(v) && LongBytes(v) == [a, b, c, d]
  {
    BytesMake(a, b, c, d);
  }

  lemma QuadIsDotted(a: byte, b: byte, c: byte, d: byte)
    ensures var lead := [Decimal(a), Decimal(b), Decimal(c)];
            && AddressText(Quad(a, b, c, d), lead, Decimal(d), []) && Small(lead) && Bytes(lead) == [a, b, c]
  {
    hide *;
    DecimalIsNumeral(a);
    DecimalIsNumeral(b);
    DecimalIsNumeral(c);
    DecimalIsNumeral(d);
    var x, y, z, w := Decimal(a), Decimal(b), Decimal(c), Decimal(d);
    DottedIs([]);
    SmallMore(z, []);
    SmallMore(y, [z]);
    SmallMore(x, [y, z]);
    assert [z] + [] == [z] && [y] + [z] == [y, z] && [x] + [y, z] == [x, y, z];
    assert [c] + [] == [c] && [b] + [c] == [b, c] && [a] + [b, c] == [a, b, c];
    QuadIs(a, b, c, d);
    FourDotted(x, y, z, w);
    IsAddressText(Quad(a, b, c, d), [x, y, z], w);
  }

  lemma FourDotted(x: seq<byte>, y: seq<byte>, z: seq<byte>, w: seq<byte>)
    ensures x + ([DOT] + (y + ([DOT] + (z + ([DOT] + []))))) + w == x + ([DOT] + (y + ([DOT] + (z + ([DOT] + w)))))
  {
    var r, q := z + ([DOT] + w), z + ([DOT] + []);
    assert q + w == r;
    assert y + ([DOT] + q) + w == y + ([DOT] + r);
    assert x + ([DOT] + (y + ([DOT] + q))) + w == x + ([DOT] + (y + ([DOT] + q) + w));
  }

  lemma IsAddressText(s: seq<byte>, lead: seq<seq<byte>>, last: seq<byte>)
    requires |lead| <= 3 && Small(lead) && IsNumeral(last) && s == Dotted(lead) + last
    ensures AddressText(s, lead, last, [])
  {
    assert last + [] == last;
  }

  lemma QuadIs(a: byte, b: byte, c: byte, d: byte)
    ensures Quad(a, b, c, d) ==
            Decimal(a) + ([DOT] + (Decimal(b) + ([DOT] + (Decimal(c) + ([DOT] + Decimal(d))))))
  {
  }

  /** `inet_aton` undoes the printing of a quad, for every address. */
  lemma QuadParses(a: byte, b: byte, c: byte, d: byte)
    ensures var v := a as int * 0x100_0000 + b as int * 0x1_0000 + c as int * 0x100 + d;
            Aton(Quad(a, b, c, d)) == Some(v) && LongBytes(v) == [a, b, c, d]
  {
    hide *;
    QuadIsDotted(a, b, c, d);
    DecimalIsNumeral(d);
    AddressOfBytes(a, b, c, d);
    TextIsRead(Quad(a, b, c, d), [Decimal(a), Decimal(b), Decimal(c)], Decimal(d), []);
  }

  /** So the quad in front of a reverse name parses to the bytes of the address in reverse. */
  lemma ReverseNameParses(addr: seq<byte>)
    requires |addr| == 4
    ensures var name := ReverseName(addr);
            var quad := name[..|name| - |IN_ADDR_ARPA|];
            Aton(quad).Some? && LongBytes(Aton(quad).value) == [addr[3], addr[2], addr[1], addr[0]]
  {
    QuadParses(addr[3], addr[2], addr[1], addr[0]);
    var name := ReverseName(addr);
    assert name[..|name| - |IN_ADDR_ARPA|] == Quad(addr[3], addr[2], addr[1], addr[0]);
  }
}
