/** The name that `rgethostbyaddr` asks for, as the DNS reads it (section 3.5 of RFC 1035). */
module ReverseNames {
  import opened Wrappers
  import opened Wire
  import opened NameText
  import opened Spelling
  import opened Qnames
  import opened InetAton

  /** A byte is printed in one to three decimal digits. */
  lemma DecimalPlain(n: byte)
    ensures Plain(Decimal(n)) && |Decimal(n)| <= 3
  {
    DecimalReads(n);
    assert n >= 10 ==> |Decimal(n)| == 1 + |Decimal(n / 10)|;
    assert n >= 100 ==> |Decimal(n / 10)| == 1 + |Decimal(n / 10 / 10)|;
  }

  lemma SixJoined(a: Label, b: Label, c: Label, d: Label, e: Label, f: Label)
    ensures Joined([a, b, c, d, e, f]) ==
            a + ([46] + (b + ([46] + (c + ([46] + (d + ([46] + (e + ([46] + f)))))))))
  {
    hide *;
    JoinedIs(f, []);
    JoinedIs(e, [f]);
    JoinedIs(d, [e, f]);
    JoinedIs(c, [d, e, f]);
    JoinedIs(b, [c, d, e, f]);
    JoinedIs(a, [b, c, d, e, f]);
    assert [e] + [f] == [e, f] && [d] + [e, f] == [d, e, f] && [c] + [d, e, f] == [c, d, e, f];
    assert [b] + [c, d, e, f] == [b, c, d, e, f] && [a] + [b, c, d, e, f] == [a, b, c, d, e, f];
  }

  lemma QuadBefore(x: seq<byte>, y: seq<byte>, z: seq<byte>, w: seq<byte>, t: seq<byte>)
    ensures x + ([46] + (y + ([46] + (z + ([46] + w))))) + t == x + ([46] + (y + ([46] + (z + ([46] + (w + t))))))
  {
    var r := z + ([46] + w);
    assert r + t == z + ([46] + (w + t));
    assert y + ([46] + r) + t == y + ([46] + (r + t));
    assert x + ([46] + (y + ([46] + r))) + t == x + ([46] + (y + ([46] + r) + t));
  }

  lemma ReverseNameIs(addr: seq<byte>)
    requires |addr| == 4
    ensures var e: Label, f: Label := [105, 110, 45, 97, 100, 100, 114], [97, 114, 112, 97];
            ReverseName(addr) ==
            Joined([Decimal(addr[3]), Decimal(addr[2]), Decimal(addr[1]), Decimal(addr[0]), e, f])
  {
    var e: Label, f: Label := [105, 110, 45, 97, 100, 100, 114], [97, 114, 112, 97];
    var x, y, z, w := Decimal(addr[3]), Decimal(addr[2]), Decimal(addr[1]), Decimal(addr[0]);
    assert IN_ADDR_ARPA == [46] + (e + ([46] + f));
    ReverseNameParts(addr);
    hide *;
    SixJoined(x, y, z, w, e, f);
    QuadBefore(x, y, z, w, [46] + (e + ([46] + f)));
  }

  lemma ReverseNameParts(addr: seq<byte>)
    requires |addr| == 4
    ensures ReverseName(addr) ==
            Decimal(addr[3]) + ([46] + (Decimal(addr[2]) + ([46] + (Decimal(addr[1]) + ([46] + Decimal(addr[0]))))))
            + IN_ADDR_ARPA
  {
  }

  /** A label that spells itself. */
  predicate Plain(l: Label)
  {
    1 <= |l| <= 63 && 46 !in l && 92 !in l
  }

  lemma PlainIs(l: Label)
    requires Plain(l)
    ensures l != [] && 46 !in l && |l| % 256 == |l|
  {
  }

  lemma {:induction false} PlainParses(ls: seq<Label>)
    requires forall i :: 0 <= i < |ls| ==> Plain(ls[i])
    ensures Parse(Joined(ls)) == Some(ls)
  {
    forall i | 0 <= i < |ls| ensures Spells(ls[i], ls[i]) && 1 <= |ls[i]| <= 63 {
      assert Plain(ls[i]);
      PlainSpells(ls[i]);
    }
    SpelledIsParsed(ls, ls, []);
    assert Joined(ls) + [] == Joined(ls);
  }

  /** The labels of a reverse name: the four bytes of the address in decimal, last first, then
      "in-addr" and "arpa". */
  lemma ReverseNameReads(addr: seq<byte>)
    requires |addr| == 4
    ensures Parse(ReverseName(addr)) ==
            Some([Decimal(addr[3]), Decimal(addr[2]), Decimal(addr[1]), Decimal(addr[0]),
                  [105, 110, 45, 97, 100, 100, 114], [97, 114, 112, 97]])
  {
    hide *;
    var e: Label, f: Label := [105, 110, 45, 97, 100, 100, 114], [97, 114, 112, 97];
    ReverseNameIs(addr);
    DecimalPlain(addr[0]);
    DecimalPlain(addr[1]);
    DecimalPlain(addr[2]);
    DecimalPlain(addr[3]);
    ZonePlain();
    PlainParses([Decimal(addr[3]), Decimal(addr[2]), Decimal(addr[1]), Decimal(addr[0]), e, f]);
  }

  lemma ZonePlain()
    ensures Plain([105, 110, 45, 97, 100, 100, 114]) && Plain([97, 114, 112, 97])
  {
  }

  lemma SixSent(a: Label, b: Label, c: Label, d: Label, e: Label, f: Label)
    requires Plain(a) && Plain(b) && Plain(c) && Plain(d) && Plain(e) && Plain(f)
    ensures |a| < 256 && |b| < 256 && |c| < 256 && |d| < 256 && |e| < 256 && |f| < 256
    ensures Qname(Joined([a, b, c, d, e, f])) ==
            [|a|] + a + ([|b|] + b + ([|c|] + c + ([|d|] + d + ([|e|] + e + ([|f|] + f + [0])))))
  {
    SixJoined(a, b, c, d, e, f);
    PlainIs(a);
    PlainIs(b);
    PlainIs(c);
    PlainIs(d);
    PlainIs(e);
    PlainIs(f);
    hide *;
    var t5 := e + ([46] + f);
    var t4 := d + ([46] + t5);
    var t3 := c + ([46] + t4);
    var t2 := b + ([46] + t3);
    QnameExactly(f, []);
    QnameExactly(e, f);
    QnameExactly(d, t5);
    QnameExactly(c, t4);
    QnameExactly(b, t3);
    QnameExactly(a, t2);
  }

  /** And so what `put_qname` sends for it. */
  lemma ReverseNameIsSent(addr: seq<byte>)
    requires |addr| == 4
    ensures var a, b, c, d := Decimal(addr[3]), Decimal(addr[2]), Decimal(addr[1]), Decimal(addr[0]);
            && |a| <= 3 && |b| <= 3 && |c| <= 3 && |d| <= 3
            && Qname(ReverseName(addr)) ==
               [|a|] + a + ([|b|] + b + ([|c|] + c + ([|d|] + d +
               ([7] + [105, 110, 45, 97, 100, 100, 114] + ([4] + [97, 114, 112, 97] + [0])))))
  {
    hide *;
    ReverseNameIs(addr);
    DecimalPlain(addr[0]);
    DecimalPlain(addr[1]);
    DecimalPlain(addr[2]);
    DecimalPlain(addr[3]);
    ZonePlain();
    SixSent(Decimal(addr[3]), Decimal(addr[2]), Decimal(addr[1]), Decimal(addr[0]),
            [105, 110, 45, 97, 100, 100, 114], [97, 114, 112, 97]);
  }

  /** For 1.2.3.4 it is "4.3.2.1.in-addr.arpa". */
  lemma ReverseNameExample()
    ensures ReverseName([1, 2, 3, 4]) ==
            [52, 46, 51, 46, 50, 46, 49, 46, 105, 110, 45, 97, 100, 100, 114, 46, 97, 114, 112, 97]
  {
    assert Decimal(1) == [49] && Decimal(2) == [50] && Decimal(3) == [51] && Decimal(4) == [52];
  }
}
