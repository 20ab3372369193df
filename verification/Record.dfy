/** `build_rr`: one resource record (section 4.1.3 of RFC 1035). */
module Record {
  import opened Wire
  import opened Qnames

  const TYPE_A: ushort := 1
  const TYPE_SOA: ushort := 6
  const TYPE_NULL: ushort := 10
  const TYPE_WKS: ushort := 11
  const TYPE_PTR: ushort := 12
  const TYPE_SRV: ushort := 33
  const TYPE_AAAA: ushort := 28

  /** NS, MD, MF, CNAME, MB, MG, MR, PTR */
  const ONE_NAME_TYPES: set<ushort> := {2, 3, 4, 5, 7, 8, 9, 12}
  /** TEXT, HINFO, ISDN, X25 */
  const STRING_TYPES: set<ushort> := {16, 13, 20, 19}
  /** MX, AFSDB, RT */
  const PREFERENCE_TYPES: set<ushort> := {15, 18, 21}
  /** MINFO, RP */
  const MAILBOX_TYPES: set<ushort> := {14, 17}

  datatype Section = Question | Answer | Authority | Additional

  /** The data of a record, the way the record list delivers it, and as `build_rr` reads it for the
      record's type. Addresses are in network order. */
  datatype Data =
    | Address(addr: seq<byte>)
    | OneName(host: seq<byte>)
    | Strings(strings: seq<seq<byte>>)
    | Service(priority: ushort, weight: ushort, port: ushort, target: seq<byte>)
    | Preference(preference: ushort, exchange: seq<byte>)
    | StartOfAuthority(primary: seq<byte>, administrator: seq<byte>, serial: ulong, refresh: ulong,
                       retry: ulong, expire: ulong, minimum: ulong)
    | Anything(bytes: seq<byte>)
    | WellKnown(ip: seq<byte>, protocol: byte, mask: byte)
    | Mailboxes(mailbox: seq<byte>, errors: seq<byte>)
    | NoCase

  datatype Rr = Rr(name: seq<byte>, rtype: ushort, ttl: ulong, section: Section, data: Data)

  /** The member of the union that `build_rr` reads is the one that was delivered; strings have a
      length that a signed byte holds. */
  predicate WellTyped(r: Rr)
  {
    0 !in r.name &&
    match r.data
    case Address(a) => (r.rtype == TYPE_A && |a| == 4) || (r.rtype == TYPE_AAAA && |a| == 16)
    case OneName(h) => r.rtype in ONE_NAME_TYPES && 0 !in h
    case Strings(ss) => r.rtype in STRING_TYPES && forall s :: s in ss ==> |s| <= 127 && 0 !in s
    case Service(_, _, _, t) => r.rtype == TYPE_SRV && 0 !in t
    case Preference(_, e) => r.rtype in PREFERENCE_TYPES && 0 !in e
    case StartOfAuthority(p, a, _, _, _, _, _) => r.rtype == TYPE_SOA && 0 !in p && 0 !in a
    case Anything(_) => r.rtype == TYPE_NULL
    case WellKnown(ip, _, _) => r.rtype == TYPE_WKS && |ip| == 4
    case Mailboxes(b, e) => r.rtype in MAILBOX_TYPES && 0 !in b && 0 !in e
    case NoCase =>
      r.rtype !in ONE_NAME_TYPES + STRING_TYPES + PREFERENCE_TYPES + MAILBOX_TYPES +
                  {TYPE_A, TYPE_AAAA, TYPE_SRV, TYPE_SOA, TYPE_NULL, TYPE_WKS}
  }

  /** The cases of the switch, by type number. */
  lemma CasesByNumber(r: Rr)
    requires WellTyped(r)
    ensures r.rtype == 1 || r.rtype == 28 <==> r.data.Address?
    ensures r.data.Address? ==> |r.data.addr| == if r.rtype == 1 then 4 else 16
    ensures 2 <= r.rtype <= 5 || 7 <= r.rtype <= 9 || r.rtype == 12 <==> r.data.OneName?
    ensures r.rtype == 13 || r.rtype == 16 || r.rtype == 19 || r.rtype == 20 <==> r.data.Strings?
    ensures r.rtype == 33 <==> r.data.Service?
    ensures r.rtype == 15 || r.rtype == 18 || r.rtype == 21 <==> r.data.Preference?
    ensures r.rtype == 6 <==> r.data.StartOfAuthority?
    ensures r.rtype == 10 <==> r.data.Anything?
    ensures r.rtype == 11 <==> r.data.WellKnown?
    ensures r.rtype == 14 || r.rtype == 17 <==> r.data.Mailboxes?
  {
  }

  /** The bytes that strings should take, each behind its length. */
  function StringsSize(ss: seq<seq<byte>>): (n: nat)
  {
    if ss == [] then 0 else 1 + |ss[0]| + StringsSize(ss[1..])
  }

  /** What the loop over strings leaves in the buffer `b`: each string is written, with its length in
      front and its NUL behind, only one place further than the one before. */
  function Overlaid(b: seq<byte>, ss: seq<seq<byte>>): (r: seq<byte>)
    requires |b| > StringsSize(ss)
    ensures |r| == |b|
    decreases |ss|
  {
    if ss == [] then b
    else [|ss[0]| % 256] + Overlaid(Stored(b[1..], 0, ss[0] + [0]), ss[1..])
  }

  /** The data of strings: as many bytes of that as the cursor moves on. */
  function StringsData(ss: seq<seq<byte>>): (r: seq<byte>)
    ensures |r| == StringsSize(ss)
  {
    Overlaid(Zeros(StringsSize(ss) + 1), ss)[..StringsSize(ss)]
  }

  /** The data as it is written into a buffer of zeros. */
  function RData(d: Data): seq<byte>
  {
    match d
    case Address(a) => a
    case OneName(h) => Qname(h)
    case Strings(ss) => StringsData(ss)
    case Service(p, w, o, t) => ShortBytes(p) + (ShortBytes(w) + (ShortBytes(o) + Qname(t)))
    case Preference(p, e) => ShortBytes(p) + Qname(e)
    case StartOfAuthority(p, a, s, f, y, x, m) =>
      Qname(p) + (Qname(a) + (Zeros(|Qname(p)|) +
      (LongBytes(s) + (LongBytes(f) + (LongBytes(y) + (LongBytes(x) + LongBytes(m)))))))
    case Anything(b) => b
    case WellKnown(ip, p, k) => ip + ([p] + ([k] + Zeros(5)))
    case Mailboxes(b, _) => Qname(b) + (Qname(b) + Zeros(|Qname(b)|))
    case NoCase => []
  }

  /** How far the cursor of `build_rr` runs past the data: for three kinds of records it adds a
      running total where it should add the last part, and leaves a gap. */
  function Overrun(d: Data): nat
  {
    match d
    case StartOfAuthority(p, _, _, _, _, _, _) => |Qname(p)|
    case WellKnown(_, _, _) => 5
    case Mailboxes(b, _) => |Qname(b)|
    case _ => 0
  }

  /** RDLENGTH, cut to 16 bits, and the data; a type without a case has neither. */
  function RrTail(d: Data): seq<byte>
  {
    if d.NoCase? then [] else ShortBytes((|RData(d)| - Overrun(d)) % 0x1_0000) + RData(d)
  }

  /** The bytes `build_rr` puts into a buffer of zeros, and steps over. */
  function RrBytes(r: Rr, qclass: ushort): seq<byte>
  {
    Qname(r.name) + (ShortBytes(r.rtype) + (ShortBytes(qclass) + (LongBytes(r.ttl) + RrTail(r.data))))
  }

  // ----- build_rr

  predicate ZeroFrom(b: seq<byte>, at: nat)
  {
    forall k :: at <= k < |b| ==> b[k] == 0
  }

  lemma ZeroAfter(b: seq<byte>, at: nat, x: seq<byte>)
    requires at + |x| <= |b| && ZeroFrom(b, at)
    ensures ZeroFrom(Stored(b, at, x), at + |x|)
  {
  }

  /** What comes before may be stored after what comes behind. */
  lemma StoreBehind(b: seq<byte>, at: nat, x: seq<byte>, y: seq<byte>)
    requires at + |x| + |y| <= |b|
    ensures Stored(Stored(b, at + |x|, y), at, x) == Stored(b, at, x + y)
  {
  }

  lemma StoredSize(b: seq<byte>, at: nat, x: seq<byte>)
    requires at + |x| <= |b|
    ensures |Stored(b, at, x)| == |b|
  {
  }

  /** Types with one name: the place of RDLENGTH is kept, then filled in. */
  method PutOneName(buf: array<byte>, at: nat, host: seq<byte>) returns (i: nat)
    requires 0 !in host && at + |RrTail(OneName(host))| <= buf.Length
    modifies buf
    ensures buf[..] == Stored(old(buf[..]), at, RrTail(OneName(host))) && i == |RrTail(OneName(host))|
  {
    var temp := at;
    i := 2;
    var n := PutQname(buf, at + i, host);
    i := i + n;
    PutShort(n % 0x1_0000, buf, temp);
    StoreBehind(old(buf[..]), at, ShortBytes(n % 0x1_0000), Qname(host));
  }

  method PutPreference(buf: array<byte>, at: nat, d: Data) returns (i: nat)
    requires d.Preference? && 0 !in d.exchange && at + |RrTail(d)| <= buf.Length
    modifies buf
    ensures buf[..] == Stored(old(buf[..]), at, RrTail(d)) && i == |RrTail(d)|
  {
    hide *;
    PreferenceTail(d);
    ghost var b := buf[..];
    var temp := at;
    i := 2;
    PutShort(d.preference, buf, at + i);
    i := i + 2;
    var n := PutQname(buf, at + i, d.exchange);
    i := i + n;
    StoreMore(b, at + 2, ShortBytes(d.preference), Qname(d.exchange));
    PutShort((n + 2) % 0x1_0000, buf, temp);
    StoreBehind(b, at, ShortBytes((n + 2) % 0x1_0000), ShortBytes(d.preference) + Qname(d.exchange));
  }

  lemma PreferenceTail(d: Data)
    requires d.Preference?
    ensures RrTail(d) == ShortBytes((|Qname(d.exchange)| + 2) % 0x1_0000)
                         + (ShortBytes(d.preference) + Qname(d.exchange))
  {
  }

  method PutService(buf: array<byte>, at: nat, d: Data) returns (i: nat)
    requires d.Service? && 0 !in d.target && at + |RrTail(d)| <= buf.Length
    modifies buf
    ensures buf[..] == Stored(old(buf[..]), at, RrTail(d)) && i == |RrTail(d)|
  {
    hide *;
    ServiceTail(d);
    ghost var b := buf[..];
    ghost var p, w, o, t := ShortBytes(d.priority), ShortBytes(d.weight), ShortBytes(d.port), Qname(d.target);
    var temp := at;
    i := 2;
    PutShort(d.priority, buf, at + i);
    i := i + 2;
    PutShort(d.weight, buf, at + i);
    StoreMore(b, at + 2, p, w);
    i := i + 2;
    PutShort(d.port, buf, at + i);
    StoreMore(b, at + 2, p + w, o);
    i := i + 2;
    var n := PutQname(buf, at + i, d.target);
    StoreMore(b, at + 2, p + w + o, t);
    i := i + n;
    PutShort((n + 6) % 0x1_0000, buf, temp);
    StoreBehind(b, at, ShortBytes((n + 6) % 0x1_0000), p + w + o + t);
    assert p + w + o + t == p + (w + (o + t));
  }

  lemma ServiceTail(d: Data)
    requires d.Service?
    ensures RrTail(d) == ShortBytes((|Qname(d.target)| + 6) % 0x1_0000)
                         + (ShortBytes(d.priority) + (ShortBytes(d.weight) + (ShortBytes(d.port) + Qname(d.target))))
  {
  }

  /** In the middle of the loop over strings: `k` of them are written into the space `w`, the others
      will go over what is there from `k` on, and the cursor moves on by `n` so far. */
  ghost predicate Midway(w: seq<byte>, ss: seq<seq<byte>>, k: nat, n: nat)
  {
    var size := StringsSize(ss);
    && k <= |ss| && k <= n && n + StringsSize(ss[k..]) == size && |w| == size + 1
    && w[..k] + Overlaid(w[k..], ss[k..]) == Overlaid(Zeros(size + 1), ss)
  }

  lemma MidwayFirst(ss: seq<seq<byte>>)
    ensures Midway(Zeros(StringsSize(ss) + 1), ss, 0, 0)
  {
    var w := Zeros(StringsSize(ss) + 1);
    assert ss[0..] == ss && w[0..] == w && w[..0] == [];
  }

  lemma MidwayRoom(w: seq<byte>, ss: seq<seq<byte>>, k: nat, n: nat)
    requires Midway(w, ss, k, n) && k < |ss|
    ensures k + |ss[k]| + 2 <= |w|
  {
  }

  lemma MidwayNext(w: seq<byte>, ss: seq<seq<byte>>, k: nat, n: nat)
    requires Midway(w, ss, k, n) && k < |ss| && |ss[k]| < 256 && k + |ss[k]| + 2 <= |w|
    ensures Midway(Stored(w, k, [|ss[k]|] + (ss[k] + [0])), ss, k + 1, n + 1 + |ss[k]|)
  {
    hide *;
    var s := ss[k];
    var w' := Stored(w, k, [|s|] + (s + [0]));
    MidwaySizes(w, ss, k, n);
    MidwayIs(w, ss, k, n);
    StoreSplits(w, k, s);
    StringsAre(ss[k..]);
    assert ss[k..][1..] == ss[k + 1..] && ss[k..][0] == s;
    OverlaidIs(w[k..], ss[k..]);
    assert w[..k] + ([|s|] + Overlaid(w'[k + 1..], ss[k + 1..])) ==
           (w[..k] + [|s|]) + Overlaid(w'[k + 1..], ss[k + 1..]);
    MidwayIs(w', ss, k + 1, n + 1 + |s|);
  }

  lemma MidwayIs(w: seq<byte>, ss: seq<seq<byte>>, k: nat, n: nat)
    requires k <= |ss| && k <= n && n + StringsSize(ss[k..]) == StringsSize(ss) && |w| == StringsSize(ss) + 1
    ensures |w[k..]| > StringsSize(ss[k..]) && |Zeros(StringsSize(ss) + 1)| > StringsSize(ss)
    ensures Midway(w, ss, k, n) <==>
            w[..k] + Overlaid(w[k..], ss[k..]) == Overlaid(Zeros(StringsSize(ss) + 1), ss)
  {
  }

  lemma MidwaySizes(w: seq<byte>, ss: seq<seq<byte>>, k: nat, n: nat)
    requires Midway(w, ss, k, n)
    ensures k <= |ss| && k <= n && n + StringsSize(ss[k..]) == StringsSize(ss) && |w| == StringsSize(ss) + 1
  {
  }

  lemma StringsAre(ss: seq<seq<byte>>)
    ensures ss != [] ==> StringsSize(ss) == 1 + |ss[0]| + StringsSize(ss[1..])
  {
  }

  lemma OverlaidIs(b: seq<byte>, ss: seq<seq<byte>>)
    requires |b| > StringsSize(ss) && ss != []
    ensures |b| > |ss[0]| + 1 && |Stored(b[1..], 0, ss[0] + [0])| > StringsSize(ss[1..])
    ensures Overlaid(b, ss) == [|ss[0]| % 256] + Overlaid(Stored(b[1..], 0, ss[0] + [0]), ss[1..])
  {
  }

  lemma StoreSplits(w: seq<byte>, k: nat, s: seq<byte>)
    requires k + |s| + 2 <= |w| && |s| < 256
    ensures var w' := Stored(w, k, [|s|] + (s + [0]));
            && |w'| == |w| && w'[..k + 1] == w[..k] + [|s|]
            && w'[k + 1..] == Stored(w[k..][1..], 0, s + [0])
  {
  }

  lemma MidwayLast(w: seq<byte>, ss: seq<seq<byte>>, n: nat)
    requires Midway(w, ss, |ss|, n)
    ensures |w| == n + 1 == StringsSize(ss) + 1 && w[..n] == StringsData(ss) && w[n] == 0
  {
    hide *;
    MidwaySizes(w, ss, |ss|, n);
    assert ss[|ss|..] == [] && w[..|ss|] + w[|ss|..] == w;
    OverlaidNothing(w[|ss|..]);
    MidwayIs(w, ss, |ss|, n);
    ZeroLast(n);
    OverlaidEnd(Zeros(n + 1), ss);
    StringsDataAre(ss);
  }

  lemma OverlaidNothing(b: seq<byte>)
    requires b != []
    ensures StringsSize([]) == 0 && Overlaid(b, []) == b
  {
  }

  lemma ZeroLast(n: nat)
    ensures Zeros(n + 1)[n] == 0
  {
  }

  lemma StringsDataAre(ss: seq<seq<byte>>)
    ensures StringsData(ss) == Overlaid(Zeros(StringsSize(ss) + 1), ss)[..StringsSize(ss)]
  {
  }

  /** A buffer with that space in it, from `at` on. */
  ghost predicate Overlaying(now: seq<byte>, before: seq<byte>, at: nat, ss: seq<seq<byte>>, k: nat, n: nat)
  {
    && at + StringsSize(ss) + 1 <= |before| == |now|
    && var w := now[at..at + StringsSize(ss) + 1];
    && now == Stored(before, at, w) && Midway(w, ss, k, n)
  }

  lemma OverlayFirst(before: seq<byte>, at: nat, ss: seq<seq<byte>>)
    requires at + StringsSize(ss) + 1 <= |before| && ZeroFrom(before, at)
    ensures Overlaying(before, before, at, ss, 0, 0)
  {
    MidwayFirst(ss);
    assert before[at..at + StringsSize(ss) + 1] == Zeros(StringsSize(ss) + 1);
  }

  lemma OverlayNext(now: seq<byte>, before: seq<byte>, at: nat, ss: seq<seq<byte>>, k: nat, n: nat)
    requires Overlaying(now, before, at, ss, k, n) && k < |ss| && |ss[k]| < 256
    ensures at + k + |ss[k]| + 2 <= |now|
    ensures Overlaying(Stored(now, at + k, [|ss[k]|] + (ss[k] + [0])), before, at, ss, k + 1, n + 1 + |ss[k]|)
  {
    var w := OverlayWindow(now, before, at, ss, k, n);
    hide *;
    var x: seq<byte> := [|ss[k]|] + (ss[k] + [0]);
    MidwayRoom(w, ss, k, n);
    MidwayNext(w, ss, k, n);
    StoreInside(before, at, w, k, x);
    WindowOverlays(before, at, Stored(w, k, x), ss, k + 1, n + 1 + |ss[k]|);
  }

  lemma OverlayWindow(now: seq<byte>, before: seq<byte>, at: nat, ss: seq<seq<byte>>, k: nat, n: nat)
    returns (w: seq<byte>)
    requires Overlaying(now, before, at, ss, k, n)
    ensures at + |w| <= |before| == |now| && now == Stored(before, at, w) && Midway(w, ss, k, n)
  {
    w := now[at..at + StringsSize(ss) + 1];
  }

  lemma WindowOverlays(before: seq<byte>, at: nat, w: seq<byte>, ss: seq<seq<byte>>, k: nat, n: nat)
    requires at + |w| <= |before| && Midway(w, ss, k, n)
    ensures Overlaying(Stored(before, at, w), before, at, ss, k, n)
  {
    var now := Stored(before, at, w);
    assert now[at..at + StringsSize(ss) + 1] == w;
  }

  lemma StoreInside(before: seq<byte>, at: nat, w: seq<byte>, k: nat, x: seq<byte>)
    requires at + |w| <= |before| && k + |x| <= |w|
    ensures |Stored(before, at, w)| == |before| && |Stored(w, k, x)| == |w|
    ensures Stored(Stored(before, at, w), at + k, x) == Stored(before, at, Stored(w, k, x))
  {
  }

  /** The last cell is zero, whether or not a NUL was put there. */
  lemma {:induction false} OverlaidEnd(b: seq<byte>, ss: seq<seq<byte>>)
    requires |b| > StringsSize(ss) && b[|b| - 1] == 0
    ensures Overlaid(b, ss)[|b| - 1] == 0
    decreases |ss|
  {
    if ss != [] {
      OverlaidEnd(Stored(b[1..], 0, ss[0] + [0]), ss[1..]);
    }
  }

  lemma OverlayLast(now: seq<byte>, before: seq<byte>, at: nat, ss: seq<seq<byte>>, n: nat)
    requires Overlaying(now, before, at, ss, |ss|, n) && ZeroFrom(before, at)
    ensures n == |StringsData(ss)| && at + n <= |before| && now == Stored(before, at, StringsData(ss))
  {
    var w := OverlayWindow(now, before, at, ss, |ss|, n);
    MidwayLast(w, ss, n);
    hide *;
    assert w == w[..n] + [0];
    ZeroAt(before, at, n);
    StoreZero(before, at, w[..n]);
  }

  lemma ZeroAt(b: seq<byte>, at: nat, n: nat)
    requires ZeroFrom(b, at) && at + n < |b|
    ensures b[at + n] == 0
  {
  }

  lemma StoreZero(b: seq<byte>, at: nat, x: seq<byte>)
    requires at + |x| < |b| && b[at + |x|] == 0
    ensures Stored(b, at, x + [0]) == Stored(b, at, x)
  {
  }

  /** TEXT and its like: the cursor inside the data steps over the length of each string, not over the
      string, so the next is written over it. The NUL that is copied along with the last falls on a
      cell that is zero anyway. */
  method PutStrings(buf: array<byte>, at: nat, strings: seq<seq<byte>>) returns (i: nat)
    requires forall s :: s in strings ==> |s| <= 127
    requires at + |RrTail(Strings(strings))| + 1 <= buf.Length && ZeroFrom(buf[..], at)
    modifies buf
    ensures buf[..] == Stored(old(buf[..]), at, RrTail(Strings(strings))) && i == |RrTail(Strings(strings))|
  {
    hide *;
    StringsTail(strings);
    ghost var b := buf[..];
    var temp := at;
    i := 2;
    var cp: nat, n: nat := at + i, 0;
    ZeroLater(b, at, at + 2);
    OverlayFirst(b, at + 2, strings);
    for index := 0 to |strings|
      invariant cp == at + 2 + index
      invariant Overlaying(buf[..], b, at + 2, strings, index, n)
    {
      ghost var now := buf[..];
      assert strings[index] in strings;
      OverlayNext(now, b, at + 2, strings, index, n);
      StoreOne(now, cp, |strings[index]|);
      buf[cp] := |strings[index]|;
      n := n + buf[cp];
      n := n + 1;
      cp := cp + 1;
      CopyBytes(strings[index] + [0], buf, cp);
      StoreMore(now, at + 2 + index, [|strings[index]|], strings[index] + [0]);
    }
    OverlayLast(buf[..], b, at + 2, strings, n);
    i := i + n;
    PutShort(n % 0x1_0000, buf, temp);
    StoreBehind(b, at, ShortBytes(n % 0x1_0000), StringsData(strings));
  }

  lemma ZeroLater(b: seq<byte>, at: nat, at': nat)
    requires ZeroFrom(b, at) && at <= at'
    ensures ZeroFrom(b, at')
  {
  }

  lemma StringsTail(strings: seq<seq<byte>>)
    ensures RrTail(Strings(strings)) == ShortBytes(|StringsData(strings)| % 0x1_0000) + StringsData(strings)
    ensures |StringsData(strings)| == StringsSize(strings)
  {
  }

  /** Raw data behind its length: addresses, and the NULL type. */
  method PutRaw(buf: array<byte>, at: nat, d: Data, raw: seq<byte>) returns (i: nat)
    requires (d == Address(raw) || d == Anything(raw)) && at + |RrTail(d)| <= buf.Length
    modifies buf
    ensures buf[..] == Stored(old(buf[..]), at, RrTail(d)) && i == |RrTail(d)|
  {
    hide *;
    RawTail(d, raw);
    ghost var b := buf[..];
    PutShort(|raw| % 0x1_0000, buf, at);
    i := 2;
    CopyBytes(raw, buf, at + i);
    StoreMore(b, at, ShortBytes(|raw| % 0x1_0000), raw);
    i := i + |raw|;
  }

  lemma RawTail(d: Data, raw: seq<byte>)
    requires d == Address(raw) || d == Anything(raw)
    ensures RrTail(d) == ShortBytes(|raw| % 0x1_0000) + raw
  {
  }

  /** The cursor skips a gap of zeros. */
  lemma StoreGap(b: seq<byte>, at: nat, x: seq<byte>, n: nat)
    requires at + |x| + n <= |b| && ZeroFrom(b, at)
    ensures Stored(b, at, x) == Stored(b, at, x + Zeros(n))
  {
    var M, N := Stored(b, at, x), Stored(b, at, x + Zeros(n));
    assert |M| == |N|;
    assert forall k :: 0 <= k < |M| ==> M[k] == N[k];
  }

  /** SOA: after the second name the cursor advances by both names, not by the second. */
  method PutAuthority(buf: array<byte>, at: nat, d: Data) returns (i: nat)
    requires d.StartOfAuthority? && 0 !in d.primary && 0 !in d.administrator
    requires at + |RrTail(d)| <= buf.Length && ZeroFrom(buf[..], at)
    modifies buf
    ensures buf[..] == Stored(old(buf[..]), at, RrTail(d)) && i == |RrTail(d)|
  {
    hide *;
    AuthorityTail(d);
    ghost var b := buf[..];
    ZeroLater(b, at, at + 2);
    ghost var p, a := Qname(d.primary), Qname(d.administrator);
    ghost var fixed := LongBytes(d.serial) + LongBytes(d.refresh) + LongBytes(d.retry) + LongBytes(d.expire)
                       + LongBytes(d.minimum);
    var temp := at;
    i := 2;
    var n := PutQname(buf, at + i, d.primary);
    i := i + n;
    var more := PutQname(buf, at + i, d.administrator);
    StoreMore(b, at + 2, p, a);
    n := n + more;
    i := i + n;
    StoreGap(b, at + 2, p + a, |p|);
    ghost var now := buf[..];
    PutFiveLongs(buf, at + i, d.serial, d.refresh, d.retry, d.expire, d.minimum);
    n := n + 20;
    i := i + 20;
    StoreMore(b, at + 2, p + a + Zeros(|p|), fixed);
    PutShort(n % 0x1_0000, buf, temp);
    StoreBehind(b, at, ShortBytes(n % 0x1_0000), p + a + Zeros(|p|) + fixed);
  }

  method PutFiveLongs(buf: array<byte>, at: nat, v: ulong, w: ulong, x: ulong, y: ulong, z: ulong)
    requires at + 20 <= buf.Length
    modifies buf
    ensures buf[..] == Stored(old(buf[..]), at,
                              LongBytes(v) + LongBytes(w) + LongBytes(x) + LongBytes(y) + LongBytes(z))
  {
    hide *;
    ghost var b := buf[..];
    PutLong(v, buf, at);
    PutLong(w, buf, at + 4);
    StoreMore(b, at, LongBytes(v), LongBytes(w));
    PutLong(x, buf, at + 8);
    StoreMore(b, at, LongBytes(v) + LongBytes(w), LongBytes(x));
    PutLong(y, buf, at + 12);
    StoreMore(b, at, LongBytes(v) + LongBytes(w) + LongBytes(x), LongBytes(y));
    PutLong(z, buf, at + 16);
    StoreMore(b, at, LongBytes(v) + LongBytes(w) + LongBytes(x) + LongBytes(y), LongBytes(z));
  }

  lemma AuthorityTail(d: Data)
    requires d.StartOfAuthority?
    ensures var p, a := Qname(d.primary), Qname(d.administrator);
            var fixed := LongBytes(d.serial) + LongBytes(d.refresh) + LongBytes(d.retry)
                         + LongBytes(d.expire) + LongBytes(d.minimum);
            RrTail(d) == ShortBytes((|p| + |a| + 20) % 0x1_0000) + (p + a + Zeros(|p|) + fixed)
  {
    FlattenEight(Qname(d.primary), Qname(d.administrator), Zeros(|Qname(d.primary)|), LongBytes(d.serial),
                 LongBytes(d.refresh), LongBytes(d.retry), LongBytes(d.expire), LongBytes(d.minimum));
  }

  lemma FlattenEight(p: seq<byte>, a: seq<byte>, g: seq<byte>, v: seq<byte>, w: seq<byte>, x: seq<byte>,
                     y: seq<byte>, z: seq<byte>)
    ensures p + (a + (g + (v + (w + (x + (y + z)))))) == p + a + g + (v + w + x + y + z)
  {
    assert v + (w + (x + (y + z))) == v + w + x + y + z;
    var f := v + w + x + y + z;
    assert p + (a + (g + f)) == p + a + g + f;
  }

  /** WKS: after the bit mask the cursor advances by all the data, not by the mask. */
  method PutWellKnown(buf: array<byte>, at: nat, d: Data) returns (i: nat)
    requires d.WellKnown? && |d.ip| == 4
    requires at + |RrTail(d)| <= buf.Length && ZeroFrom(buf[..], at)
    modifies buf
    ensures buf[..] == Stored(old(buf[..]), at, RrTail(d)) && i == |RrTail(d)|
  {
    hide *;
    WellKnownTail(d);
    ghost var b := buf[..];
    ZeroLater(b, at, at + 2);
    var temp := at;
    i := 2;
    CopyBytes(d.ip, buf, at + i);
    var n := 4;
    i := i + 4;
    StoreOne(buf[..], at + i, d.protocol);
    StoreMore(b, at + 2, d.ip, [d.protocol]);
    buf[at + i] := d.protocol;
    i := i + 1;
    n := n + 1;
    StoreOne(buf[..], at + i, d.mask);
    StoreMore(b, at + 2, d.ip + [d.protocol], [d.mask]);
    buf[at + i] := d.mask;
    n := n + 1;
    i := i + n;
    StoreGap(b, at + 2, d.ip + [d.protocol] + [d.mask], 5);
    PutShort(n % 0x1_0000, buf, temp);
    StoreBehind(b, at, ShortBytes(n % 0x1_0000), d.ip + [d.protocol] + [d.mask] + Zeros(5));
  }

  lemma WellKnownTail(d: Data)
    requires d.WellKnown? && |d.ip| == 4
    ensures RrTail(d) == ShortBytes(6 % 0x1_0000) + (d.ip + [d.protocol] + [d.mask] + Zeros(5))
  {
    assert d.ip + ([d.protocol] + ([d.mask] + Zeros(5))) == d.ip + [d.protocol] + [d.mask] + Zeros(5);
  }

  /** MINFO and RP: the first mailbox is written twice, and the cursor advances by three. */
  method PutMailboxes(buf: array<byte>, at: nat, d: Data) returns (i: nat)
    requires d.Mailboxes? && 0 !in d.mailbox
    requires at + |RrTail(d)| <= buf.Length && ZeroFrom(buf[..], at)
    modifies buf
    ensures buf[..] == Stored(old(buf[..]), at, RrTail(d)) && i == |RrTail(d)|
  {
    hide *;
    MailboxesTail(d);
    ghost var b := buf[..];
    ZeroLater(b, at, at + 2);
    ghost var q := Qname(d.mailbox);
    var temp := at;
    i := 2;
    var n := PutQname(buf, at + i, d.mailbox);
    i := i + n;
    var more := PutQname(buf, at + i, d.mailbox);
    StoreMore(b, at + 2, q, q);
    n := n + more;
    i := i + n;
    StoreGap(b, at + 2, q + q, |q|);
    PutShort(n % 0x1_0000, buf, temp);
    StoreBehind(b, at, ShortBytes(n % 0x1_0000), q + q + Zeros(|q|));
  }

  lemma MailboxesTail(d: Data)
    requires d.Mailboxes?
    ensures var q := Qname(d.mailbox);
            RrTail(d) == ShortBytes((|q| + |q|) % 0x1_0000) + (q + q + Zeros(|q|))
  {
    var q := Qname(d.mailbox);
    assert q + (q + Zeros(|q|)) == q + q + Zeros(|q|);
  }

  /** The room a record needs: its bytes, and a cell for the NUL that a string brings along. */
  function RrRoom(r: Rr, qclass: ushort): nat
  {
    |RrBytes(r, qclass)| + if r.data.Strings? then 1 else 0
  }

  lemma RoomOfTail(r: Rr, qclass: ushort)
    ensures |RrBytes(r, qclass)| == |Qname(r.name)| + 8 + |RrTail(r.data)|
    ensures RrRoom(r, qclass) == |RrBytes(r, qclass)| + if r.data.Strings? then 1 else 0
    ensures RrBytes(r, qclass) == Qname(r.name) + ShortBytes(r.rtype) + ShortBytes(qclass) + LongBytes(r.ttl)
                                  + RrTail(r.data)
  {
    var a, b, c, d, e := Qname(r.name), ShortBytes(r.rtype), ShortBytes(qclass), LongBytes(r.ttl), RrTail(r.data);
    assert a + (b + (c + (d + e))) == a + b + c + d + e;
  }

  /** The switch on the record type. */
  method PutTail(buf: array<byte>, at: nat, r: Rr) returns (i: nat)
    requires WellTyped(r) && ZeroFrom(buf[..], at)
    requires at + |RrTail(r.data)| + (if r.data.Strings? then 1 else 0) <= buf.Length
    modifies buf
    ensures buf[..] == Stored(old(buf[..]), at, RrTail(r.data)) && i == |RrTail(r.data)|
  {
    match r.data
    case Address(a) => i := PutRaw(buf, at, r.data, a);
    case OneName(h) => i := PutOneName(buf, at, h);
    case Strings(ss) => i := PutStrings(buf, at, ss);
    case Service(_, _, _, _) => i := PutService(buf, at, r.data);
    case Preference(_, _) => i := PutPreference(buf, at, r.data);
    case StartOfAuthority(_, _, _, _, _, _, _) => i := PutAuthority(buf, at, r.data);
    case Anything(b) => i := PutRaw(buf, at, r.data, b);
    case WellKnown(_, _, _) => i := PutWellKnown(buf, at, r.data);
    case Mailboxes(_, _) => i := PutMailboxes(buf, at, r.data);
    case NoCase =>
      i := 0;
      StoreNothing(buf[..], at);
  }

  /** Writes one record at `p` and returns how far to step. */
  method BuildRr(buf: array<byte>, p: nat, r: Rr, qclass: ushort) returns (i: nat)
    requires WellTyped(r) && p + RrRoom(r, qclass) <= buf.Length && ZeroFrom(buf[..], p)
    modifies buf
    ensures buf[..] == Stored(old(buf[..]), p, RrBytes(r, qclass)) && i == |RrBytes(r, qclass)|
    ensures ZeroFrom(buf[..], p + i)
  {
    hide *;
    RoomOfTail(r, qclass);
    NameHasNoNul(r);
    ghost var b := buf[..];
    ghost var a, c, d, e := Qname(r.name), ShortBytes(r.rtype), ShortBytes(qclass), LongBytes(r.ttl);
    i := PutQname(buf, p, r.name);
    PutShort(r.rtype, buf, p + i);
    StoreMore(b, p, a, c);
    i := i + 2;
    PutShort(qclass, buf, p + i);
    StoreMore(b, p, a + c, d);
    i := i + 2;
    PutLong(r.ttl, buf, p + i);
    StoreMore(b, p, a + c + d, e);
    ZeroAfter(b, p, a + c + d + e);
    i := i + 4;
    var n := PutTail(buf, p + i, r);
    StoreMore(b, p, a + c + d + e, RrTail(r.data));
    i := i + n;
    ZeroAfter(b, p, RrBytes(r, qclass));
  }

  lemma NameHasNoNul(r: Rr)
    requires WellTyped(r)
    ensures 0 !in r.name
  {
  }
}
