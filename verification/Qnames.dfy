/** `put_qname`: the second, independent encoder of names, without compression and without
    unquoting. */
module Qnames {
  import opened Wrappers
  import opened Wire
  import opened NameText
  import opened Expand
  import opened SkipName
  import opened NameIndex
  import opened Encoding
  import opened Session

  /** The place of the first dot, or the end. */
  function FirstDot(t: seq<byte>): (n: nat)
    ensures n <= |t| && DOT !in t[..n] && (n < |t| ==> t[n] == DOT)
  {
    if t == [] || t[0] == DOT then 0
    else
      var n := 1 + FirstDot(t[1..]);
      assert t[..n] == [t[0]] + t[1..][..n - 1];
      n
  }

  /** A length, cut to one byte, and the characters it counts. */
  function Counted(l: seq<byte>): (r: seq<byte>)
    ensures |r| == 1 + |l|
  {
    [|l| % 256] + l
  }

  /** What is left when the loop ends: one last label, whatever it holds, and the root. */
  function LastLabel(t: seq<byte>): seq<byte>
  {
    if t == [] then [0] else Counted(t) + [0]
  }

  /** The bytes `put_qname` writes. A length is cut to one byte; an empty label ends the loop. */
  function Qname(t: seq<byte>): (r: seq<byte>)
    ensures r != []
    decreases |t|
  {
    var n := FirstDot(t);
    if n == |t| then LastLabel(t)
    else if n == 0 then LastLabel(t[1..])
    else Counted(t[..n]) + Qname(t[n + 1..])
  }

  lemma {:induction false} FirstDotIs(u: seq<byte>, tail: seq<byte>)
    requires 46 !in u && (tail == [] || tail[0] == 46)
    ensures FirstDot(u + tail) == |u|
  {
    if u == [] {
      assert u + tail == tail;
    } else {
      assert u[0] in u;
      assert (u + tail)[1..] == u[1..] + tail;
      FirstDotIs(u[1..], tail);
    }
  }

  lemma QnameOfLabel(u: seq<byte>, t: seq<byte>)
    requires u != [] && 46 !in u
    ensures Qname(u + ([46] + t)) == [|u| % 256] + u + Qname(t)
  {
    hide *;
    var w := u + ([46] + t);
    FirstDotIs(u, [46] + t);
    assert w[..|u|] == u && w[|u| + 1..] == t;
    QnameStep(w);
    CountedIs(u);
  }

  lemma QnameOfLast(u: seq<byte>)
    requires 46 !in u
    ensures Qname(u) == if u == [] then [0] else [|u| % 256] + u + [0]
  {
    hide *;
    assert u + [] == u;
    FirstDotIs(u, []);
    QnameStep(u);
    LastLabelIs(u);
    CountedIs(u);
  }

  lemma QnameOfRest(t: seq<byte>)
    ensures Qname([46] + t) == if t == [] then [0] else [|t| % 256] + t + [0]
  {
    hide *;
    assert [] + ([46] + t) == [46] + t && ([46] + t)[1..] == t;
    FirstDotIs([], [46] + t);
    QnameStep([46] + t);
    LastLabelIs(t);
    CountedIs(t);
  }

  /** What is written for any text, label by label, 46 being the dot: a label and its length, cut to
      one byte; and behind an empty label all the rest as one label, dots and all. */
  lemma QnameExactly(u: seq<byte>, t: seq<byte>)
    requires u != [] && 46 !in u
    ensures Qname(u + ([46] + t)) == [|u| % 256] + u + Qname(t)
    ensures Qname(u) == [|u| % 256] + u + [0]
    ensures Qname([46] + t) == if t == [] then [0] else [|t| % 256] + t + [0]
    ensures Qname([]) == [0]
  {
    hide *;
    QnameOfLabel(u, t);
    QnameOfLast(u);
    QnameOfRest(t);
    QnameOfLast([]);
  }

  lemma CountedIs(l: seq<byte>)
    ensures Counted(l) == [|l| % 256] + l
  {
  }

  /** A name as `put_qname` takes it: `dn_comp` would accept it too, and it has no backslash. */
  predicate PlainName(t: seq<byte>)
  {
    0 !in t && BACKSLASH !in t && Parse(t).Some?
  }

  lemma FirstDotNext(t: seq<byte>)
    requires t != [] && t[0] != DOT
    ensures var n, k := FirstDot(t), FirstDot(t[1..]);
            && n == 1 + k && t[..n] == [t[0]] + t[1..][..k]
            && (n == |t| <==> k == |t[1..]|) && (n < |t| ==> t[n + 1..] == t[1..][k + 1..])
  {
  }

  /** Where no backslash stands before the first dot, the label scanned is the text up to the dot. */
  lemma {:induction false} ScanPlainPiece(t: seq<byte>)
    requires BACKSLASH !in t[..FirstDot(t)]
    ensures var n := FirstDot(t);
            Scan(t) == if n == |t| then Piece(t, [], End) else Piece(t[..n], t[n + 1..], Dot)
  {
    if t != [] && t[0] != DOT {
      FirstDotNext(t);
      ScanPlainPiece(t[1..]);
      ScanPlain(t[0], t[1..]);
      assert t == [t[0]] + t[1..];
    }
  }

  /** The two encoders agree: on a name without backslash that `dn_comp` accepts, `put_qname` writes
      the bytes that `dn_comp` writes without a list, so it has the same size too. */
  lemma {:induction false} EncodersAgree(t: seq<byte>, m: seq<byte>, at: nat)
    requires BACKSLASH !in t && Parse(t).Some?
    ensures Encode(m, [], t, at).Some?
    ensures Qname(t) == Encode(m, [], t, at).value.bytes
    decreases |t|
  {
    hide *;
    var n := FirstDot(t);
    QnameStep(t);
    LastLabelIs(t);
    if t == [] {
      EncodeEmpty(t, m, at);
    } else {
      PieceHasNone(t);
      ScanPlainPiece(t);
      ParsedLabel(t);
      if n == 0 {
        LastLabelIs([]);
        EncodeEmpty(t, m, at);
      } else {
        EncodersAgree(Scan(t).rest, m, at + 1 + n);
        EncodeEmpty([], m, at + 1 + n);
        EncodeLabel(t, m, at);
      }
    }
  }

  lemma PieceHasNone(t: seq<byte>)
    ensures BACKSLASH !in t ==> BACKSLASH !in t[..FirstDot(t)]
  {
  }

  lemma QnameStep(t: seq<byte>)
    ensures var n := FirstDot(t);
            Qname(t) == if n == |t| then LastLabel(t)
                        else if n == 0 then LastLabel(t[1..])
                        else Counted(t[..n]) + Qname(t[n + 1..])
  {
  }

  /** The steps of the other encoder without a list. */
  lemma EncodeEmpty(t: seq<byte>, m: seq<byte>, at: nat)
    requires t == [] || (Scan(t).lab == [] && Scan(t).rest == [])
    ensures Encode(m, [], t, at).Some? && Encode(m, [], t, at).value.bytes == [0]
  {
  }

  lemma EncodeLabel(t: seq<byte>, m: seq<byte>, at: nat)
    requires t != [] && GoodLabel(Scan(t).lab) && Encode(m, [], Scan(t).rest, at + 1 + |Scan(t).lab|).Some?
    ensures var p := Scan(t);
            && Encode(m, [], t, at).Some?
            && Encode(m, [], t, at).value.bytes ==
               Counted(p.lab) + Encode(m, [], p.rest, at + 1 + |p.lab|).value.bytes
  {
    hide Scan, PointerBytes, Known, Reads;
    assert Lookup(m, [], t).None?;
  }

  lemma ParsedLabel(t: seq<byte>)
    requires t != [] && Parse(t).Some?
    ensures (Scan(t).lab == [] && Scan(t).rest == []) || GoodLabel(Scan(t).lab)
    ensures GoodLabel(Scan(t).lab) ==> Parse(Scan(t).rest).Some? && Scan(t).lab != []
  {
  }

  /** A label that shows no dot is scanned without passing the first dot; every backslash on the way
      costs a character. */
  lemma {:induction false} ScanWithinPiece(t: seq<byte>)
    requires DOT !in Scan(t).lab
    ensures var n, l := FirstDot(t), |Scan(t).lab|;
            l <= n <= 2 * l + 1 && (BACKSLASH in t[..n] ==> l < n)
    decreases |t|, 1
  {
    if t == [] || t[0] == DOT {
    } else if t[0] != BACKSLASH {
      WithinPlain(t);
    } else if |t| > 1 {
      WithinQuoted(t);
    }
  }

  lemma WithinPlain(t: seq<byte>)
    requires t != [] && t[0] != DOT && t[0] != BACKSLASH && DOT !in Scan(t).lab
    ensures var n, l := FirstDot(t), |Scan(t).lab|;
            l <= n <= 2 * l + 1 && (BACKSLASH in t[..n] ==> l < n)
    decreases |t|, 0
  {
    hide *;
    FirstDotNext(t);
    ScanPlain(t[0], t[1..]);
    assert t == [t[0]] + t[1..];
    ScanWithinPiece(t[1..]);
  }

  lemma WithinQuoted(t: seq<byte>)
    requires |t| > 1 && t[0] == BACKSLASH && DOT !in Scan(t).lab
    ensures var n, l := FirstDot(t), |Scan(t).lab|;
            l <= n <= 2 * l + 1 && (BACKSLASH in t[..n] ==> l < n)
    decreases |t|, 0
  {
    hide *;
    QuotesDiffer();
    FirstDotNext(t);
    assert t == [BACKSLASH, t[1]] + t[2..];
    ScanQuoted(t[1], t[2..]);
    assert t[1] in Scan(t).lab;
    FirstDotNext(t[1..]);
    assert t[1..][1..] == t[2..];
    ScanWithinPiece(t[2..]);
  }

  /** Equal first bytes would make the label show no dot, and so be shorter than its count. */
  lemma FirstLabelsDiffer(t: seq<byte>, x: seq<byte>, y: seq<byte>)
    requires var n, l := FirstDot(t), Scan(t).lab; BACKSLASH in t[..n] && 1 <= |l| <= MAXLABEL
    ensures Counted(t[..FirstDot(t)]) + x != Counted(Scan(t).lab) + y
  {
    hide *;
    var n, l := FirstDot(t), Scan(t).lab;
    LabelLimit();
    CountedParts(t[..n], x);
    CountedParts(l, y);
    if DOT !in l {
      ScanWithinPiece(t);
    } else {
      var k :| 0 <= k < |l| && l[k] == DOT;
      if k < n {
        assert (Counted(t[..n]) + x)[k + 1] == t[..n][k] != l[k] == (Counted(l) + y)[k + 1];
      } else {
        assert (Counted(t[..n]) + x)[0] == n;
      }
    }
  }

  lemma CountedParts(l: seq<byte>, x: seq<byte>)
    ensures (Counted(l) + x)[0] == |l| % 256
    ensures forall k :: 1 <= k <= |l| ==> (Counted(l) + x)[k] == l[k - 1]
  {
  }

  lemma BackslashBehind(t: seq<byte>)
    requires BACKSLASH in t && BACKSLASH !in t[..FirstDot(t)]
    ensures FirstDot(t) < |t| && BACKSLASH in t[FirstDot(t) + 1..]
  {
    hide *;
    QuotesDiffer();
    var n := FirstDot(t);
    var k :| 0 <= k < |t| && t[k] == BACKSLASH;
    assert t[n + 1..][k - n - 1] == BACKSLASH;
  }

  /** And only then: where there is a backslash the two encoders write different bytes. */
  lemma {:induction false} BackslashSetsThemApart(t: seq<byte>, m: seq<byte>, at: nat)
    requires BACKSLASH in t && Parse(t).Some?
    ensures Encode(m, [], t, at).Some?
    ensures Qname(t) != Encode(m, [], t, at).value.bytes
    decreases |t|
  {
    hide *;
    var n, p := FirstDot(t), Scan(t);
    QnameStep(t);
    LastLabelIs(t);
    ParsedLabel(t);
    if BACKSLASH !in t[..n] {
      ScanPlainPiece(t);
    }
    if p.lab == [] && p.rest == [] {
      EncodeEmpty(t, m, at);
      if n == 0 {
        assert t == [t[0]] + t[1..];
        QuotesDiffer();
        assert false;
      }
    } else {
      LabelEncodes(t, m, at);
      var e := Encode(m, [], p.rest, at + 1 + |p.lab|).value;
      assert t[..|t|] == t;
      if BACKSLASH in t[..n] {
        if n == |t| {
          FirstLabelsDiffer(t, [0], e.bytes);
        } else {
          FirstLabelsDiffer(t, Qname(t[n + 1..]), e.bytes);
        }
      } else {
        BackslashBehind(t);
        assert p.rest == t[n + 1..] && |p.lab| == n;
        BackslashSetsThemApart(t[n + 1..], m, at + 1 + n);
        Cancel(Counted(t[..n]), Qname(t[n + 1..]), e.bytes);
      }
    }
  }

  lemma Cancel(x: seq<byte>, a: seq<byte>, b: seq<byte>)
    requires a != b
    ensures x + a != x + b
  {
    assert (x + a)[|x|..] == a && (x + b)[|x|..] == b;
  }

  lemma LabelEncodes(t: seq<byte>, m: seq<byte>, at: nat)
    requires Parse(t).Some? && t != [] && (Scan(t).lab != [] || Scan(t).rest != [])
    ensures var p := Scan(t);
            && 1 <= |p.lab| <= MAXLABEL
            && Parse(p.rest).Some?
            && Encode(m, [], p.rest, at + 1 + |p.lab|).Some?
            && Encode(m, [], t, at).Some?
            && Encode(m, [], t, at).value.bytes ==
               Counted(p.lab) + Encode(m, [], p.rest, at + 1 + |p.lab|).value.bytes
  {
    EncodeIffParse(m, [], Scan(t).rest, at + 1 + |Scan(t).lab|);
    EncodeLabel(t, m, at);
  }

  /** On the names that `dn_comp` accepts the two encoders agree exactly where there is no
      backslash. */
  lemma EncodersAgreeExactly(t: seq<byte>, m: seq<byte>, at: nat)
    requires Parse(t).Some?
    ensures Encode(m, [], t, at).Some?
    ensures Qname(t) == Encode(m, [], t, at).value.bytes <==> BACKSLASH !in t
  {
    if BACKSLASH in t {
      BackslashSetsThemApart(t, m, at);
    } else {
      EncodersAgree(t, m, at);
    }
  }

  /** The failing case: of the text `a\b` one encoder sends two characters and the other three. */
  lemma EncodersDisagree(m: seq<byte>, at: nat)
    ensures var t: seq<byte> := [97, BACKSLASH, 98];
            && Qname(t) == [3, 97, BACKSLASH, 98, 0]
            && Encode(m, [], t, at).Some? && Encode(m, [], t, at).value.bytes == [2, 97, 98, 0]
  {
    var t: seq<byte> := [97, BACKSLASH, 98];
    assert t[1..] == [BACKSLASH, 98] && t[1..][1..] == [98] && t[1..][1..][1..] == [];
    assert FirstDot(t[1..][1..]) == 1 && FirstDot(t[1..]) == 2 && FirstDot(t) == 3;
    assert t == [97] + ([BACKSLASH, 98] + []) && [98] + [] == [98];
    ScanPlain(97, [BACKSLASH, 98] + []);
    ScanQuoted(98, []);
    EncodeEmpty([], m, at + 3);
    EncodeLabel(t, m, at);
  }

  /** So `rdn_expand` undoes `put_qname`, wherever in a message the name stands, and
      `__dn_skipname` steps over exactly what was written. */
  lemma QnameReads(M: seq<byte>, eom: nat, at: nat, t: seq<byte>)
    requires PlainName(t) && at + |Qname(t)| <= eom < |M| && M[at..at + |Qname(t)|] == Qname(t)
    ensures Decode(M, eom, at, 0) == Some(Name(Parse(t).value, |Qname(t)|))
    ensures Skip(M, eom, at) == Some(|Qname(t)|)
  {
    hide *;
    var m := M[..at];
    var m' := m + Qname(t);
    assert m + [] == m && m' == M[..|m'|];
    PlainIs(t);
    NoIndex(m);
    EncodersAgree(t, m, at);
    EncodeShape(m, [], t, at);
    ShapeUnpointed(m, Encode(m, [], t, at).value, Parse(t).value);
    EncodeMeans(m, [], t, []);
    EncodeSkips(m, [], t, []);
    ResolveGrows(m', M, at, |m'|, eom, at);
    ResolvedDecodes(M, eom, at, eom, at, 0);
    assert m' <= M[..eom];
    SkipGrows(m', M[..eom], at, at);
    SkipPrefix(M, eom, at);
    SkipAgreesWithExpand(M, eom, at);
  }

  lemma PlainIs(t: seq<byte>)
    ensures PlainName(t) <==> 0 !in t && 92 !in t && Parse(t).Some?
    ensures PlainName(t) ==> BACKSLASH !in t
  {
  }

  lemma NoIndex(m: seq<byte>)
    ensures IndexOk(m, [])
  {
  }

  lemma ShapeUnpointed(m: seq<byte>, e: Encoded, ls: seq<Label>)
    requires GoodLabels(ls) && Shape(m, [], e, ls)
    ensures e.target.None?
  {
  }

  lemma {:induction false} SkipPrefix(M: seq<byte>, eom: nat, pos: nat)
    requires eom <= |M|
    ensures Skip(M, eom, pos) == Skip(M[..eom], eom, pos)
    decreases if pos < eom then eom - pos else 0
  {
    if pos < eom && M[pos] != 0 && M[pos] < 64 {
      SkipPrefix(M, eom, pos + 1 + M[pos]);
    }
  }

  /** Copies a string into the buffer. */
  method CopyBytes(s: seq<byte>, buf: array<byte>, at: nat)
    requires at + |s| <= buf.Length
    modifies buf
    ensures buf[..] == Stored(old(buf[..]), at, s)
  {
    for i := 0 to |s|
      invariant buf[..] == Stored(old(buf[..]), at, s[..i])
    {
      StoreNext(old(buf[..]), at, s[..i], s[i]);
      assert s[..i + 1] == s[..i] + [s[i]];
      buf[at + i] := s[i];
    }
    assert s[..|s|] == s;
  }

  method FindDot(t: seq<byte>, from: nat) returns (p: nat)
    requires from <= |t|
    ensures p == from + FirstDot(t[from..])
  {
    p := from;
    while p < |t| && t[p] != DOT
      invariant from <= p <= |t|
      invariant from + FirstDot(t[from..]) == p + FirstDot(t[p..])
    {
      assert t[p..][1..] == t[p + 1..];
      p := p + 1;
    }
  }

  /** In the middle of writing `whole` at `at`: `done` is written and `tail` is not. */
  ghost predicate Writing(now: seq<byte>, before: seq<byte>, at: nat, whole: seq<byte>,
                          done: seq<byte>, tail: seq<byte>)
  {
    at + |whole| <= |before| && whole == done + tail && now == Stored(before, at, done)
  }

  lemma WritingNothing(before: seq<byte>, at: nat, whole: seq<byte>)
    requires at + |whole| <= |before|
    ensures Writing(before, before, at, whole, [], whole)
  {
    StoreNothing(before, at);
  }

  lemma WritingRoom(now: seq<byte>, before: seq<byte>, at: nat, whole: seq<byte>,
                    done: seq<byte>, tail: seq<byte>)
    requires Writing(now, before, at, whole, done, tail)
    ensures |now| == |before| && at + |done| + |tail| <= |now|
  {
    StoredPrefix(before, at, done);
  }

  lemma WritingMore(now: seq<byte>, before: seq<byte>, at: nat, whole: seq<byte>,
                    done: seq<byte>, more: seq<byte>, tail: seq<byte>, now': seq<byte>)
    requires Writing(now, before, at, whole, done, more + tail)
    requires at + |done| + |more| <= |now| && now' == Stored(now, at + |done|, more)
    ensures Writing(now', before, at, whole, done + more, tail)
  {
    StoredPrefix(before, at, done);
    StoreMore(before, at, done, more);
    assert done + (more + tail) == done + more + tail;
  }

  lemma WritingDone(now: seq<byte>, before: seq<byte>, at: nat, whole: seq<byte>, done: seq<byte>)
    requires Writing(now, before, at, whole, done, [])
    ensures now == Stored(before, at, whole) && |whole| == |done|
  {
    assert done + [] == done;
  }

  /** A length byte and the `n` characters of a label. */
  method PutCounted(s: seq<byte>, buf: array<byte>, at: nat)
    requires at + 1 + |s| <= buf.Length
    modifies buf
    ensures buf[..] == Stored(old(buf[..]), at, Counted(s))
  {
    ghost var before := buf[..];
    StoreNothing(before, at);
    StoreNext(before, at, [], |s| % 256);
    assert [] + [|s| % 256] == [|s| % 256];
    buf[at] := |s| % 256;
    CopyBytes(s, buf, at + 1);
    StoreMore(before, at, [|s| % 256], s);
  }

  lemma LastLabelIs(t: seq<byte>)
    ensures LastLabel(t) == if t == [] then [0] else Counted(t) + [0]
  {
  }

  /** What comes after the loop: the last label, if any, and the root. */
  method PutLastLabel(buf: array<byte>, at: nat, t: seq<byte>) returns (i: nat)
    requires at + |LastLabel(t)| <= buf.Length
    modifies buf
    ensures buf[..] == Stored(old(buf[..]), at, LastLabel(t)) && i == |LastLabel(t)|
  {
    hide *;
    LastLabelIs(t);
    ghost var before := buf[..];
    var cp, n := at, |t|;
    i := 0;
    if n > 0 {
      PutCounted(t, buf, cp);
      cp := cp + 1 + n;
      i := i + 1;
      StoreMore(before, at, Counted(t), [0]);
    }
    StoreOne(buf[..], cp, 0);
    buf[cp] := 0;
    i := i + n + 1;
  }

  /** Every call writes `Qname(qname)`; the caller sees to the room, of which the code has no notion. */
  method PutQname(buf: array<byte>, at: nat, qname: seq<byte>) returns (i: nat)
    requires 0 !in qname && at + |Qname(qname)| <= buf.Length
    modifies buf
    ensures buf[..] == Stored(old(buf[..]), at, Qname(qname))
    ensures i == |Qname(qname)|
  {
    hide *;
    ghost var before, whole := buf[..], Qname(qname);
    ghost var done: seq<byte>, tail := [], whole;
    var cp: nat, temp: nat, n: nat := at, 0, 0;
    i := 0;
    WritingNothing(before, at, whole);
    assert qname[0..] == qname;
    while true
      invariant temp <= |qname| && cp == at + i && i == |done|
      invariant tail == Qname(qname[temp..])
      invariant Writing(buf[..], before, at, whole, done, tail)
      decreases |qname| - temp
    {
      ghost var t := qname[temp..];
      QnameStep(t);
      WritingRoom(buf[..], before, at, whole, done, tail);
      var p := FindDot(qname, temp);
      if p == |qname| {
        assert tail == LastLabel(qname[temp..]);
        break;
      }
      n := p - temp;
      if n == 0 {
        temp := temp + 1;
        assert t[1..] == qname[temp..];
        assert tail == LastLabel(qname[temp..]);
        break;
      }
      ghost var now, more := buf[..], Counted(qname[temp..p]);
      assert t[..n] == qname[temp..p] && t[n + 1..] == qname[p + 1..];
      tail := Qname(qname[p + 1..]);
      assert Qname(t) == more + tail;
      PutCounted(qname[temp..p], buf, cp);
      WritingMore(now, before, at, whole, done, more, tail, buf[..]);
      done := done + more;
      temp := p + 1;
      cp := cp + 1 + n;
      i := i + 1 + n;
    }
    ghost var now, rest := buf[..], LastLabel(qname[temp..]);
    assert rest + [] == rest;
    n := PutLastLabel(buf, cp, qname[temp..]);
    WritingMore(now, before, at, whole, done, rest, [], buf[..]);
    WritingDone(buf[..], before, at, whole, done + rest);
    i := i + n;
  }
}
