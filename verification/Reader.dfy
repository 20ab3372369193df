/** A reader of messages, made of `__dn_skipname`, `_getshort` and RDLENGTH; and when it finds in
    the bytes of `build_rr` what was put there. */
module Reader {
  import opened Wrappers
  import opened Wire
  import opened NameText
  import opened Expand
  import opened SkipName
  import opened Qnames
  import opened Record

  /** The fixed part of a record, and where its data lies. */
  datatype Fields = Fields(rtype: ushort, rclass: ushort, ttl: ulong, data: nat, length: ushort)

  /** The record at `at`: skip the owner name, then read the fields. None where the message ends. */
  function ReadFields(M: seq<byte>, eom: nat, at: nat): (r: Option<Fields>)
    requires eom < |M|
    ensures r.Some? ==> at < r.value.data && r.value.data + r.value.length <= eom
  {
    match Skip(M, eom, at)
    case None => None
    case Some(n) =>
      var q := at + n;
      if n > 0 && q + 10 <= eom && q + 10 + ShortAt(M, q + 8) <= eom then
        Some(Fields(ShortAt(M, q), ShortAt(M, q + 2), LongAt(M, q + 4), q + 10, ShortAt(M, q + 8)))
      else None
  }

  /** Where the next record starts. */
  function NextRecord(f: Fields): nat
  {
    f.data + f.length
  }

  /** A reader steps over the record to where `build_rr` stopped. */
  predicate Framed(d: Data)
  {
    Overrun(d) == 0 && !d.NoCase?
  }

  /** `x` stands in the message at `at`. */
  predicate At(M: seq<byte>, at: nat, x: seq<byte>)
  {
    at + |x| <= |M| && M[at..at + |x|] == x
  }

  lemma Apart(M: seq<byte>, at: nat, x: seq<byte>, y: seq<byte>)
    requires At(M, at, x + y)
    ensures At(M, at, x) && At(M, at + |x|, y)
  {
    assert M[at..at + |x|] == M[at..at + |x + y|][..|x|];
    assert M[at + |x|..at + |x| + |y|] == M[at..at + |x + y|][|x|..];
  }

  lemma ShortIsAt(M: seq<byte>, at: nat, s: ushort)
    requires At(M, at, ShortBytes(s))
    ensures at + 2 <= |M| && ShortAt(M, at) == s
  {
    ShortRoundTrip(s, M, at);
  }

  lemma LongIsAt(M: seq<byte>, at: nat, l: ulong)
    requires At(M, at, LongBytes(l))
    ensures at + 4 <= |M| && LongAt(M, at) == l
  {
    LongRoundTrip(l, M, at);
  }

  /** A plain name in the message is read as its labels, and skipped. */
  lemma NameIsAt(M: seq<byte>, eom: nat, at: nat, t: seq<byte>)
    requires PlainName(t) && at + |Qname(t)| <= eom < |M| && At(M, at, Qname(t))
    ensures Decode(M, eom, at, 0) == Some(Name(Parse(t).value, |Qname(t)|))
    ensures Skip(M, eom, at) == Some(|Qname(t)|)
  {
    QnameReads(M, eom, at, t);
  }

  lemma RrBytesAre(r: Rr, qclass: ushort)
    ensures RrBytes(r, qclass) ==
            Qname(r.name) + (ShortBytes(r.rtype) + (ShortBytes(qclass) + (LongBytes(r.ttl) + RrTail(r.data))))
  {
  }

  lemma RrTailIs(d: Data)
    ensures RrTail(d) ==
            if d.NoCase? then [] else ShortBytes((|RData(d)| - Overrun(d)) % 0x1_0000) + RData(d)
  {
  }

  lemma RrParts(M: seq<byte>, at: nat, r: Rr, qclass: ushort)
    requires At(M, at, RrBytes(r, qclass))
    ensures var q := at + |Qname(r.name)|;
            && At(M, at, Qname(r.name)) && At(M, q, ShortBytes(r.rtype)) && At(M, q + 2, ShortBytes(qclass))
            && At(M, q + 4, LongBytes(r.ttl)) && At(M, q + 8, RrTail(r.data))
            && |RrBytes(r, qclass)| == |Qname(r.name)| + 8 + |RrTail(r.data)|
  {
    hide *;
    var a, b, c, d, e := Qname(r.name), ShortBytes(r.rtype), ShortBytes(qclass), LongBytes(r.ttl), RrTail(r.data);
    RrBytesAre(r, qclass);
    Apart(M, at, a, b + (c + (d + e)));
    Apart(M, at + |a|, b, c + (d + e));
    Apart(M, at + |a| + 2, c, d + e);
    Apart(M, at + |a| + 4, d, e);
  }

  lemma TailParts(M: seq<byte>, at: nat, d: Data)
    requires At(M, at, RrTail(d)) && !d.NoCase? && |RData(d)| < 0x1_0000
    ensures At(M, at, ShortBytes(|RData(d)| - Overrun(d))) && At(M, at + 2, RData(d))
    ensures |RrTail(d)| == 2 + |RData(d)|
  {
    hide *;
    OverrunFits(d);
    RrTailIs(d);
    Apart(M, at, ShortBytes((|RData(d)| - Overrun(d)) % 0x1_0000), RData(d));
  }

  lemma OverrunFits(d: Data)
    ensures Overrun(d) <= |RData(d)|
    ensures !Framed(d) && !d.NoCase? ==> Overrun(d) > 0
    ensures d.NoCase? ==> RData(d) == [] && RrTail(d) == []
  {
    match d
    case StartOfAuthority(p, a, s, f, y, x, m) =>
      var rest := Qname(a) + (Zeros(|Qname(p)|) +
        (LongBytes(s) + (LongBytes(f) + (LongBytes(y) + (LongBytes(x) + LongBytes(m))))));
      assert RData(d) == Qname(p) + rest;
    case _ =>
  }

  /** Record framing: type, class, TTL, RDLENGTH and data read back, and the reader goes on exactly
      where `build_rr` stopped, if the type is one of those that keep the frame. */
  lemma RrReads(M: seq<byte>, eom: nat, at: nat, r: Rr, qclass: ushort)
    requires PlainName(r.name) && Framed(r.data) && |RData(r.data)| < 0x1_0000
    requires at + |RrBytes(r, qclass)| <= eom < |M| && At(M, at, RrBytes(r, qclass))
    ensures var f := ReadFields(M, eom, at);
            && f.Some?
            && f.value.rtype == r.rtype && f.value.rclass == qclass && f.value.ttl == r.ttl
            && f.value.length == |RData(r.data)| && At(M, f.value.data, RData(r.data))
            && NextRecord(f.value) == at + |RrBytes(r, qclass)|
    ensures Decode(M, eom, at, 0) == Some(Name(Parse(r.name).value, |Qname(r.name)|))
  {
    hide *;
    RrParts(M, at, r, qclass);
    FieldsAre(M, eom, at, r, qclass);
    FramedIs(r.data);
    TailParts(M, at + |Qname(r.name)| + 8, r.data);
    var q := at + |Qname(r.name)|;
    ShortIsAt(M, q + 8, |RData(r.data)| - Overrun(r.data));
    var f := ReadFields(M, eom, at);
    NextIs(f.value);
  }

  lemma FramedIs(d: Data)
    ensures Framed(d) <==> Overrun(d) == 0 && !d.NoCase?
  {
  }

  lemma NextIs(f: Fields)
    ensures NextRecord(f) == f.data + f.length
  {
  }

  lemma NameSkips(M: seq<byte>, eom: nat, at: nat, n: nat)
    requires eom < |M| && n > 0 && at + n + 8 <= eom
    ensures Skip(M, eom, at) == Some(n) ==>
            ReadFields(M, eom, at) ==
              (if at + n + 10 <= eom && at + n + 10 + ShortAt(M, at + n + 8) <= eom then
                 Some(Fields(ShortAt(M, at + n), ShortAt(M, at + n + 2), LongAt(M, at + n + 4),
                             at + n + 10, ShortAt(M, at + n + 8)))
               else None)
  {
  }

  lemma FieldsAre(M: seq<byte>, eom: nat, at: nat, r: Rr, qclass: ushort)
    requires PlainName(r.name) && at + |RrBytes(r, qclass)| <= eom < |M| && At(M, at, RrBytes(r, qclass))
    ensures var q := at + |Qname(r.name)|;
            && q + 8 <= eom
            && ReadFields(M, eom, at) ==
               (if q + 10 <= eom && q + 10 + ShortAt(M, q + 8) <= eom then
                  Some(Fields(r.rtype, qclass, r.ttl, q + 10, ShortAt(M, q + 8)))
                else None)
    ensures Decode(M, eom, at, 0) == Some(Name(Parse(r.name).value, |Qname(r.name)|))
  {
    hide *;
    var q := at + |Qname(r.name)|;
    RrParts(M, at, r, qclass);
    NameSkips(M, eom, at, |Qname(r.name)|);
    NameIsAt(M, eom, at, r.name);
    ShortIsAt(M, q, r.rtype);
    ShortIsAt(M, q + 2, qclass);
    LongIsAt(M, q + 4, r.ttl);
  }

  /** And only those: after any other record the reader loses its place. SOA, WKS, MINFO and RP step
      too far; a type without a case has no RDLENGTH to read. */
  lemma FramedExactly(M: seq<byte>, eom: nat, at: nat, r: Rr, qclass: ushort)
    requires WellTyped(r) && PlainName(r.name) && |RData(r.data)| < 0x1_0000
    requires at + |RrBytes(r, qclass)| <= eom < |M| && At(M, at, RrBytes(r, qclass))
    ensures Framed(r.data) <==>
            ReadFields(M, eom, at).Some? &&
            NextRecord(ReadFields(M, eom, at).value) == at + |RrBytes(r, qclass)|
  {
    hide *;
    if Framed(r.data) {
      RrReads(M, eom, at, r, qclass);
    } else {
      FramedIs(r.data);
      if ReadFields(M, eom, at).Some? {
        NextIs(ReadFields(M, eom, at).value);
      }
      RrParts(M, at, r, qclass);
      FieldsAre(M, eom, at, r, qclass);
      OverrunFits(r.data);
      if !r.data.NoCase? {
        TailParts(M, at + |Qname(r.name)| + 8, r.data);
        ShortIsAt(M, at + |Qname(r.name)| + 8, |RData(r.data)| - Overrun(r.data));
      }
    }
  }

  /** The failing case: after an RP record with root names the reader stands one byte short. */
  lemma MailboxLosesFrame()
    ensures var r := Rr([], 17, 0, Answer, Mailboxes([], []));
            var M := RrBytes(r, 1);
            && WellTyped(r) && M == [0, 0, 17, 0, 1, 0, 0, 0, 0, 0, 2, 0, 0, 0]
            && ReadFields(M + [0], |M|, 0).Some?
            && NextRecord(ReadFields(M + [0], |M|, 0).value) == |M| - 1
  {
    var r := Rr([], 17, 0, Answer, Mailboxes([], []));
    var M := RrBytes(r, 1);
    assert Qname([]) == [0];
    MailboxesTail(r.data);
    assert RrTail(r.data) == [0, 2, 0, 0, 0];
    assert M == [0, 0, 17, 0, 1, 0, 0, 0, 0, 0, 2, 0, 0, 0];
    assert Skip(M + [0], |M|, 0) == Some(1);
  }

  /** The names and numbers inside the data read back too. */
  lemma DataReads(M: seq<byte>, eom: nat, at: nat, d: Data)
    requires at + |RData(d)| <= eom < |M| && At(M, at, RData(d))
    ensures d.OneName? && PlainName(d.host) ==>
              Decode(M, eom, at, 0) == Some(Name(Parse(d.host).value, |RData(d)|))
    ensures d.Preference? && PlainName(d.exchange) ==>
              && at + 2 <= |M| && ShortAt(M, at) == d.preference
              && Decode(M, eom, at + 2, 0) == Some(Name(Parse(d.exchange).value, |RData(d)| - 2))
    ensures d.Service? && PlainName(d.target) ==>
              && at + 6 <= |M| && ShortAt(M, at) == d.priority && ShortAt(M, at + 2) == d.weight
              && ShortAt(M, at + 4) == d.port
              && Decode(M, eom, at + 6, 0) == Some(Name(Parse(d.target).value, |RData(d)| - 6))
  {
    if d.OneName? && PlainName(d.host) {
      NameIsAt(M, eom, at, d.host);
    } else if d.Preference? && PlainName(d.exchange) {
      Apart(M, at, ShortBytes(d.preference), Qname(d.exchange));
      ShortIsAt(M, at, d.preference);
      NameIsAt(M, eom, at + 2, d.exchange);
    } else if d.Service? && PlainName(d.target) {
      Apart(M, at, ShortBytes(d.priority), ShortBytes(d.weight) + (ShortBytes(d.port) + Qname(d.target)));
      Apart(M, at + 2, ShortBytes(d.weight), ShortBytes(d.port) + Qname(d.target));
      Apart(M, at + 4, ShortBytes(d.port), Qname(d.target));
      ShortIsAt(M, at, d.priority);
      ShortIsAt(M, at + 2, d.weight);
      ShortIsAt(M, at + 4, d.port);
      NameIsAt(M, eom, at + 6, d.target);
    }
  }

  /** So do the bytes of an address and of a NULL record. */
  lemma RawReads(M: seq<byte>, at: nat, d: Data)
    requires At(M, at, RData(d))
    ensures d.Address? ==> at + |d.addr| <= |M| && M[at..at + |d.addr|] == d.addr
    ensures d.Anything? ==> at + |d.bytes| <= |M| && M[at..at + |d.bytes|] == d.bytes
  {
  }

  /** Three parts, the last of which may be more. */
  lemma ApartThree(M: seq<byte>, at: nat, x: seq<byte>, y: seq<byte>, z: seq<byte>)
    requires At(M, at, x + (y + z))
    ensures At(M, at, x) && At(M, at + |x|, y) && At(M, at + |x| + |y|, z)
  {
    hide *;
    Apart(M, at, x, y + z);
    Apart(M, at + |x|, y, z);
  }

  lemma FiveLongsRead(M: seq<byte>, at: nat, v: ulong, w: ulong, x: ulong, y: ulong, z: ulong)
    requires At(M, at, LongBytes(v) + (LongBytes(w) + (LongBytes(x) + (LongBytes(y) + LongBytes(z)))))
    ensures at + 20 <= |M|
    ensures LongAt(M, at) == v && LongAt(M, at + 4) == w && LongAt(M, at + 8) == x
    ensures LongAt(M, at + 12) == y && LongAt(M, at + 16) == z
  {
    hide *;
    ApartThree(M, at, LongBytes(v), LongBytes(w), LongBytes(x) + (LongBytes(y) + LongBytes(z)));
    ApartThree(M, at + 8, LongBytes(x), LongBytes(y), LongBytes(z));
    LongIsAt(M, at, v);
    LongIsAt(M, at + 4, w);
    LongIsAt(M, at + 8, x);
    LongIsAt(M, at + 12, y);
    LongIsAt(M, at + 16, z);
  }

  /** What the records that do not keep the frame hold. `at` is the place of RDLENGTH. An SOA record has
      both names, a gap as long as the first, and five numbers; RDLENGTH does not count the gap. */
  lemma AuthorityReads(M: seq<byte>, eom: nat, at: nat, d: Data)
    requires d.StartOfAuthority? && PlainName(d.primary) && PlainName(d.administrator)
    requires |RData(d)| < 0x1_0000 && at + |RrTail(d)| <= eom < |M| && At(M, at, RrTail(d))
    ensures var p, a := |Qname(d.primary)|, |Qname(d.administrator)|;
            var n := at + 2 + p + a + p;
            && |RrTail(d)| == 2 + p + a + p + 20 && n + 20 <= |M|
            && ShortAt(M, at) == p + a + 20
            && Decode(M, eom, at + 2, 0) == Some(Name(Parse(d.primary).value, p))
            && Decode(M, eom, at + 2 + p, 0) == Some(Name(Parse(d.administrator).value, a))
            && At(M, n - p, Zeros(p))
            && LongAt(M, n) == d.serial && LongAt(M, n + 4) == d.refresh && LongAt(M, n + 8) == d.retry
            && LongAt(M, n + 12) == d.expire && LongAt(M, n + 16) == d.minimum
  {
    hide *;
    AuthorityLaid(M, at, d);
    NameIsAt(M, eom, at + 2, d.primary);
    NameIsAt(M, eom, at + 2 + |Qname(d.primary)|, d.administrator);
  }

  lemma AuthorityLaid(M: seq<byte>, at: nat, d: Data)
    requires d.StartOfAuthority? && |RData(d)| < 0x1_0000 && At(M, at, RrTail(d))
    ensures var p, a := |Qname(d.primary)|, |Qname(d.administrator)|;
            var n := at + 2 + p + a + p;
            && |RrTail(d)| == 2 + p + a + p + 20 && n + 20 <= |M|
            && ShortAt(M, at) == p + a + 20
            && At(M, at + 2, Qname(d.primary)) && At(M, at + 2 + p, Qname(d.administrator))
            && At(M, n - p, Zeros(p))
            && LongAt(M, n) == d.serial && LongAt(M, n + 4) == d.refresh && LongAt(M, n + 8) == d.retry
            && LongAt(M, n + 12) == d.expire && LongAt(M, n + 16) == d.minimum
  {
    hide *;
    HasCase(d);
    TailParts(M, at, d);
    AuthorityParted(M, at + 2, d);
    ShortIsAt(M, at, |RData(d)| - Overrun(d));
  }

  lemma HasCase(d: Data)
    requires d.StartOfAuthority? || d.Mailboxes?
    ensures !d.NoCase?
  {
  }

  lemma AuthorityParted(M: seq<byte>, at: nat, d: Data)
    requires d.StartOfAuthority? && At(M, at, RData(d))
    ensures var p, a := |Qname(d.primary)|, |Qname(d.administrator)|;
            var n := at + p + a + p;
            && Overrun(d) == p && |RData(d)| == p + a + p + 20 && n + 20 <= |M|
            && At(M, at, Qname(d.primary)) && At(M, at + p, Qname(d.administrator)) && At(M, n - p, Zeros(p))
            && LongAt(M, n) == d.serial && LongAt(M, n + 4) == d.refresh && LongAt(M, n + 8) == d.retry
            && LongAt(M, n + 12) == d.expire && LongAt(M, n + 16) == d.minimum
  {
    hide *;
    AuthoritySizes(d);
    AuthorityPlaces(M, at, d, Qname(d.primary), Qname(d.administrator));
  }

  lemma AuthoritySizes(d: Data)
    requires d.StartOfAuthority?
    ensures Overrun(d) == |Qname(d.primary)|
    ensures |RData(d)| == |Qname(d.primary)| + |Qname(d.administrator)| + |Qname(d.primary)| + 20
  {
    AuthorityParts(d);
  }

  lemma AuthorityPlaces(M: seq<byte>, at: nat, d: Data, P: seq<byte>, A: seq<byte>)
    requires d.StartOfAuthority? && At(M, at, RData(d)) && P == Qname(d.primary) && A == Qname(d.administrator)
    ensures var n := at + |P| + |A| + |P|;
            && n + 20 <= |M|
            && At(M, at, P) && At(M, at + |P|, A) && At(M, n - |P|, Zeros(|P|))
            && LongAt(M, n) == d.serial && LongAt(M, n + 4) == d.refresh && LongAt(M, n + 8) == d.retry
            && LongAt(M, n + 12) == d.expire && LongAt(M, n + 16) == d.minimum
  {
    AuthorityParts(d);
    hide *;
    AuthorityAt(M, at, P, A, d.serial, d.refresh, d.retry, d.expire, d.minimum);
  }

  lemma AuthorityAt(M: seq<byte>, at: nat, P: seq<byte>, A: seq<byte>,
                    v: ulong, w: ulong, x: ulong, y: ulong, z: ulong)
    requires At(M, at, P + (A + (Zeros(|P|) +
                       (LongBytes(v) + (LongBytes(w) + (LongBytes(x) + (LongBytes(y) + LongBytes(z))))))))
    ensures var n := at + |P| + |A| + |P|;
            && n + 20 <= |M|
            && At(M, at, P) && At(M, at + |P|, A) && At(M, n - |P|, Zeros(|P|))
            && LongAt(M, n) == v && LongAt(M, n + 4) == w && LongAt(M, n + 8) == x
            && LongAt(M, n + 12) == y && LongAt(M, n + 16) == z
  {
    hide *;
    var longs := LongBytes(v) + (LongBytes(w) + (LongBytes(x) + (LongBytes(y) + LongBytes(z))));
    ApartThree(M, at, P, A, Zeros(|P|) + longs);
    Apart(M, at + |P| + |A|, Zeros(|P|), longs);
    FiveLongsRead(M, at + |P| + |A| + |P|, v, w, x, y, z);
  }

  lemma AuthorityParts(d: Data)
    requires d.StartOfAuthority?
    ensures RData(d) == Qname(d.primary) + (Qname(d.administrator) + (Zeros(|Qname(d.primary)|) +
              (LongBytes(d.serial) + (LongBytes(d.refresh) + (LongBytes(d.retry) +
              (LongBytes(d.expire) + LongBytes(d.minimum)))))))
    ensures Overrun(d) == |Qname(d.primary)| && !d.NoCase?
    ensures |RData(d)| == |Qname(d.primary)| + |Qname(d.administrator)| + |Qname(d.primary)| + 20
  {
  }

  /** A WKS record has six bytes of data and a gap of five; RDLENGTH is 6. */
  lemma WellKnownReads(M: seq<byte>, at: nat, d: Data)
    requires d.WellKnown? && |d.ip| == 4 && At(M, at, RrTail(d))
    ensures |RrTail(d)| == 13 && at + 13 <= |M| && ShortAt(M, at) == 6
    ensures At(M, at + 2, d.ip) && At(M, at + 6, [d.protocol]) && At(M, at + 7, [d.mask])
    ensures At(M, at + 8, [0, 0, 0, 0, 0])
  {
    WellKnownTail(d);
    assert Zeros(5) == [0, 0, 0, 0, 0];
    hide *;
    var z := Zeros(5);
    var x := [d.protocol] + ([d.mask] + z);
    assert d.ip + [d.protocol] + [d.mask] + z == d.ip + x;
    Apart(M, at, ShortBytes(6), d.ip + x);
    Apart(M, at + 2, d.ip, x);
    ApartThree(M, at + 6, [d.protocol], [d.mask], z);
    ShortIsAt(M, at, 6);
    AtFits(M, at, RrTail(d));
  }

  lemma AtFits(M: seq<byte>, at: nat, x: seq<byte>)
    requires At(M, at, x)
    ensures at + |x| <= |M|
  {
  }

  /** A MINFO or RP record has the first mailbox twice, never the other one, and a gap. */
  lemma MailboxesRead(M: seq<byte>, eom: nat, at: nat, d: Data)
    requires d.Mailboxes? && PlainName(d.mailbox)
    requires |RData(d)| < 0x1_0000 && at + |RrTail(d)| <= eom < |M| && At(M, at, RrTail(d))
    ensures var n := |Qname(d.mailbox)|;
            && |RrTail(d)| == 2 + n + n + n && ShortAt(M, at) == n + n
            && Decode(M, eom, at + 2, 0) == Some(Name(Parse(d.mailbox).value, n))
            && Decode(M, eom, at + 2 + n, 0) == Some(Name(Parse(d.mailbox).value, n))
            && At(M, at + 2 + n + n, Zeros(n))
  {
    hide *;
    MailboxesLaid(M, at, d);
    NameIsAt(M, eom, at + 2, d.mailbox);
    NameIsAt(M, eom, at + 2 + |Qname(d.mailbox)|, d.mailbox);
  }

  lemma MailboxesLaid(M: seq<byte>, at: nat, d: Data)
    requires d.Mailboxes? && |RData(d)| < 0x1_0000 && At(M, at, RrTail(d))
    ensures var n := |Qname(d.mailbox)|;
            && |RrTail(d)| == 2 + n + n + n && at + |RrTail(d)| <= |M| && ShortAt(M, at) == n + n
            && At(M, at + 2, Qname(d.mailbox)) && At(M, at + 2 + n, Qname(d.mailbox))
            && At(M, at + 2 + n + n, Zeros(n))
  {
    hide *;
    HasCase(d);
    TailParts(M, at, d);
    MailboxesParted(M, at + 2, d);
    ShortIsAt(M, at, |RData(d)| - Overrun(d));
    AtFits(M, at, RrTail(d));
  }

  lemma MailboxesParted(M: seq<byte>, at: nat, d: Data)
    requires d.Mailboxes? && At(M, at, RData(d))
    ensures var n := |Qname(d.mailbox)|;
            && Overrun(d) == n && |RData(d)| == n + n + n
            && At(M, at, Qname(d.mailbox)) && At(M, at + n, Qname(d.mailbox)) && At(M, at + n + n, Zeros(n))
  {
    MailboxesParts(d);
    hide *;
    ApartThree(M, at, Qname(d.mailbox), Qname(d.mailbox), Zeros(|Qname(d.mailbox)|));
  }

  lemma MailboxesParts(d: Data)
    requires d.Mailboxes?
    ensures RData(d) == Qname(d.mailbox) + (Qname(d.mailbox) + Zeros(|Qname(d.mailbox)|))
    ensures Overrun(d) == |Qname(d.mailbox)| && !d.NoCase?
    ensures |RData(d)| == |Qname(d.mailbox)| + |Qname(d.mailbox)| + |Qname(d.mailbox)|
  {
  }
}
