/** Names in characters: 46 is the dot and 92 the backslash. What the two readings of a text and the
    printer come down to, said without the scanner. */
module Spelling {
  import opened Wrappers
  import opened Wire
  import opened NameText

  /** `t` spells one label: 92 may stand before any character, and stands before each 46 and 92. */
  predicate Spells(t: seq<byte>, l: Label)
    decreases |t|
  {
    if t == [] || l == [] then t == [] && l == []
    else if t[0] == 92 then |t| > 1 && t[1] == l[0] && Spells(t[2..], l[1..])
    else t[0] != 46 && t[0] == l[0] && Spells(t[1..], l[1..])
  }

  /** With 46 between them. */
  function Joined(us: seq<seq<byte>>): seq<byte>
  {
    if us == [] then []
    else if |us| == 1 then us[0]
    else us[0] + ([46] + Joined(us[1..]))
  }

  predicate SpelledBy(us: seq<seq<byte>>, ls: seq<Label>)
  {
    |us| == |ls| && forall i :: 0 <= i < |us| ==> Spells(us[i], ls[i])
  }

  /** What `dn_comp` puts up with behind the labels: nothing, a dot, a lone backslash; and behind at
      least one label also a dot and one of these. */
  predicate Ending(end: seq<byte>, some: bool)
  {
    end == [] || end == [46] || end == [92] || (some && (end == [46, 46] || end == [46, 92]))
  }

  /** What can stand behind a label. */
  predicate Rest(tail: seq<byte>)
  {
    tail == [] || tail[0] == 46 || tail == [92]
  }

  function PieceBefore(l: Label, tail: seq<byte>): Piece
    requires Rest(tail)
  {
    if tail == [] then Piece(l, [], End)
    else if tail[0] == 46 then Piece(l, tail[1..], Dot)
    else Piece(l, [], Dangling)
  }

  lemma {:induction false} ScanSpelled(u: seq<byte>, l: Label, tail: seq<byte>)
    requires Spells(u, l) && Rest(tail)
    ensures Scan(u + tail) == PieceBefore(l, tail)
    decreases |u|
  {
    if u == [] {
      assert u + tail == tail;
    } else if u[0] == 92 {
      assert (u + tail)[2..] == u[2..] + tail;
      ScanSpelled(u[2..], l[1..], tail);
    } else {
      assert (u + tail)[1..] == u[1..] + tail;
      ScanSpelled(u[1..], l[1..], tail);
    }
  }

  lemma SpellsPlain(c: byte, u: seq<byte>, l: Label)
    requires Spells(u, l) && c != 46 && c != 92
    ensures Spells([c] + u, [c] + l)
  {
    assert ([c] + u)[1..] == u && ([c] + l)[1..] == l;
  }

  lemma SpellsQuoted(c: byte, u: seq<byte>, l: Label)
    requires Spells(u, l)
    ensures Spells([92, c] + u, [c] + l)
  {
    assert ([92, c] + u)[2..] == u && ([c] + l)[1..] == l;
  }

  lemma PieceGrows(c: byte, l: Label, tail: seq<byte>)
    requires Rest(tail)
    ensures var p := PieceBefore(l, tail);
            p.lab == l && Piece([c] + p.lab, p.rest, p.stop) == PieceBefore([c] + l, tail)
  {
  }

  lemma ScanStops(t: seq<byte>)
    requires t == [] || t[0] == 46 || t == [92]
    ensures Rest(t) && Spells([], []) && Scan(t) == PieceBefore([], t) && Scan(t).lab == []
  {
  }

  lemma Characters()
    ensures DOT == 46 && BACKSLASH == 92
  {
  }

  lemma {:induction false} ScanSplits(t: seq<byte>) returns (u: seq<byte>, tail: seq<byte>)
    ensures Spells(u, Scan(t).lab) && Rest(tail) && t == u + tail && Scan(t) == PieceBefore(Scan(t).lab, tail)
    decreases |t|
  {
    hide *;
    Characters();
    if t == [] || t[0] == 46 || t == [92] {
      ScanStops(t);
      u, tail := [], t;
      assert u + tail == t;
    } else {
      var n := if t[0] == 92 then 2 else 1;
      var c := t[n - 1];
      var v;
      v, tail := ScanSplits(t[n..]);
      u := t[..n] + v;
      assert t == t[..n] + t[n..];
      PieceGrows(c, Scan(t[n..]).lab, tail);
      if n == 2 {
        assert t[..n] == [92, c];
        ScanQuoted(c, t[n..]);
        SpellsQuoted(c, v, Scan(t[n..]).lab);
      } else {
        assert t[..n] == [c];
        ScanPlain(c, t[n..]);
        SpellsPlain(c, v, Scan(t[n..]).lab);
      }
    }
  }

  // ----- reading

  lemma JoinedIs(u: seq<byte>, us: seq<seq<byte>>)
    ensures Joined([]) == [] && Joined([u]) == u
    ensures us != [] ==> Joined([u] + us) == u + ([46] + Joined(us))
    ensures us != [] && us[0] != [] ==> Joined(us) != []
  {
    assert ([u] + us)[1..] == us;
  }

  lemma SpelledMore(u: seq<byte>, us: seq<seq<byte>>, l: Label, ls: seq<Label>)
    ensures SpelledBy([u] + us, [l] + ls) <==> Spells(u, l) && SpelledBy(us, ls)
  {
    var vs, ks := [u] + us, [l] + ls;
    assert vs[0] == u && ks[0] == l;
    assert forall i :: 0 <= i < |us| ==> vs[i + 1] == us[i];
    assert forall i :: 0 <= i < |ls| ==> ks[i + 1] == ls[i];
    assert forall i :: 0 < i < |vs| ==> vs[i] == us[i - 1];
    if SpelledBy(vs, ks) {
      assert Spells(vs[0], ks[0]);
      forall i | 0 <= i < |us| ensures Spells(us[i], ls[i]) {
        assert Spells(vs[i + 1], ks[i + 1]);
      }
    }
  }

  lemma SpelledNonempty(u: seq<byte>, l: Label)
    requires Spells(u, l)
    ensures u == [] <==> l == []
  {
  }

  /** The first label and what follows it. */
  lemma ParseStart(t: seq<byte>)
    ensures var p := Scan(t);
            Parse(t) == if t == [] || (p.lab == [] && p.rest == []) then Some([])
                        else if !(1 <= |p.lab| <= 63) then None
                        else match Parse(p.rest)
                             case None => None
                             case Some(ls) => Some([p.lab] + ls)
  {
  }

  /** A text spelled like this is read as the labels. */
  lemma {:induction false} SpelledIsParsed(us: seq<seq<byte>>, ls: seq<Label>, end: seq<byte>)
    requires SpelledBy(us, ls) && Ending(end, ls != [])
    requires forall i :: 0 <= i < |ls| ==> 1 <= |ls[i]| <= 63
    ensures Parse(Joined(us) + end) == Some(ls)
    decreases |ls|
  {
    hide *;
    SpelledSizes(us, ls);
    if ls == [] {
      JoinedIs([], []);
      assert [] + end == end;
      ParseEnding(end, false);
    } else {
      var u, l := us[0], ls[0];
      assert us == [u] + us[1..] && ls == [l] + ls[1..];
      SpelledMore(u, us[1..], l, ls[1..]);
      JoinedIs(u, us[1..]);
      SpelledNonempty(u, l);
      if |ls| == 1 {
        EndingRests(end);
        assert us == [u];
        ScanSpelled(u, l, end);
        ParseStart(u + end);
        AfterLast(l, end);
        assert [l] + [] == ls;
      } else {
        var rest := Joined(us[1..]) + end;
        SpelledIsParsed(us[1..], ls[1..], end);
        assert Joined(us) + end == u + ([46] + rest);
        DotRests(l, rest);
        ScanSpelled(u, l, [46] + rest);
        ParseStart(u + ([46] + rest));
      }
    }
  }

  lemma SpelledSizes(us: seq<seq<byte>>, ls: seq<Label>)
    requires SpelledBy(us, ls)
    ensures |us| == |ls|
  {
  }

  lemma ParseEnding(end: seq<byte>, some: bool)
    requires Ending(end, some)
    ensures !some ==> Parse(end) == Some([])
  {
    ParseStart(end);
  }

  lemma EndingRests(end: seq<byte>)
    requires Ending(end, true)
    ensures Rest(end)
  {
  }

  lemma DotRests(l: Label, rest: seq<byte>)
    ensures Rest([46] + rest) && PieceBefore(l, [46] + rest) == Piece(l, rest, Dot)
  {
    assert ([46] + rest)[1..] == rest;
  }

  lemma AfterLast(l: Label, end: seq<byte>)
    requires Ending(end, true) && Rest(end)
    ensures PieceBefore(l, end).lab == l && Parse(PieceBefore(l, end).rest) == Some([])
  {
    var rest := PieceBefore(l, end).rest;
    assert rest == [] || rest == [46] || rest == [92];
    ParseStart(rest);
  }

  /** And only such texts are accepted. */
  lemma {:induction false} ParsedIsSpelled(t: seq<byte>) returns (us: seq<seq<byte>>, end: seq<byte>)
    requires Parse(t).Some?
    ensures var ls := Parse(t).value;
            SpelledBy(us, ls) && Ending(end, ls != []) && t == Joined(us) + end
    decreases |t|
  {
    hide *;
    ParseStart(t);
    JoinedIs([], []);
    NothingSpelled();
    var u, tail := ScanSplits(t);
    var p := Scan(t);
    if t == [] || (p.lab == [] && p.rest == []) {
      us, end := [], t;
      EndsAlone(t, tail, u);
      assert [] + end == t;
    } else {
      SmallerRest(t);
      var vs;
      vs, end := ParsedIsSpelled(p.rest);
      us := [u] + vs;
      var ls := Parse(p.rest).value;
      SpelledMore(u, vs, p.lab, ls);
      JoinedIs(u, vs);
      SpelledSizes(vs, ls);
      if ls == [] {
        assert vs == [] && us == [u];
        end := tail;
        LastEnding(p.lab, tail, Joined(vs) + end);
        assert t == Joined(us) + end;
      } else {
        NotLast(p.lab, tail, p.rest);
        assert t == u + ([46] + (Joined(vs) + end)) == (u + ([46] + Joined(vs))) + end;
        EndingSome(end);
      }
    }
  }

  lemma NothingSpelled()
    ensures SpelledBy([], [])
  {
  }

  lemma SmallerRest(t: seq<byte>)
    requires t != []
    ensures |Scan(t).rest| < |t|
  {
  }

  lemma EndsAlone(t: seq<byte>, tail: seq<byte>, u: seq<byte>)
    requires t == [] || (Scan(t).lab == [] && Scan(t).rest == [])
    requires Spells(u, Scan(t).lab) && Rest(tail) && t == u + tail && Scan(t) == PieceBefore(Scan(t).lab, tail)
    ensures Ending(t, false)
  {
    if t != [] {
      assert u == [] && u + tail == tail;
      if t[0] == 46 {
        assert t == [46] + t[1..] && t[1..] == [];
      }
    }
  }

  /** What follows the last label, when what is behind the dot holds no label. */
  lemma LastEnding(l: Label, tail: seq<byte>, rest: seq<byte>)
    requires Rest(tail) && Parse(PieceBefore(l, tail).rest) == Some([])
    ensures Ending(tail, true)
  {
    var r := PieceBefore(l, tail).rest;
    ParseStart(r);
    var u, more := ScanSplits(r);
    if tail != [] && tail[0] == 46 {
      assert tail == [46] + r;
      if r != [] {
        EndsAlone(r, more, u);
        assert r == [46] || r == [92];
      }
    }
  }

  lemma NotLast(l: Label, tail: seq<byte>, rest: seq<byte>)
    requires Rest(tail) && rest == PieceBefore(l, tail).rest && Parse(rest).Some? && Parse(rest).value != []
    ensures tail == [46] + rest
  {
    ParseStart(rest);
  }

  lemma EndingSome(end: seq<byte>)
    requires Ending(end, true)
    ensures forall some: bool :: some ==> Ending(end, some)
  {
  }

  /** What `dn_comp` accepts, and as which labels: labels of 1 to 63 characters, spelled, with 46
      between them, and one of the endings. */
  lemma ParsesExactly(t: seq<byte>, ls: seq<Label>)
    ensures Parse(t) == Some(ls) <==>
            && (forall i :: 0 <= i < |ls| ==> 1 <= |ls[i]| <= 63)
            && exists us, end :: SpelledBy(us, ls) && Ending(end, ls != []) && t == Joined(us) + end
  {
    if Parse(t) == Some(ls) {
      var us, end := ParsedIsSpelled(t);
      assert forall i :: 0 <= i < |ls| ==> GoodLabel(ls[i]);
    }
    if (forall i :: 0 <= i < |ls| ==> 1 <= |ls[i]| <= 63) &&
       exists us, end :: SpelledBy(us, ls) && Ending(end, ls != []) && t == Joined(us) + end {
      var us, end :| SpelledBy(us, ls) && Ending(end, ls != []) && t == Joined(us) + end;
      SpelledIsParsed(us, ls, end);
    }
  }

  lemma RegularStart(t: seq<byte>)
    ensures var p := Scan(t);
            Regular(t) <==> t == [] || (p.lab != [] && (p.stop.End? || (p.stop.Dot? && Regular(p.rest))))
  {
  }

  lemma RegularLast(l: Label, end: seq<byte>)
    requires l != [] && Ending(end, true) && Rest(end)
    ensures var p := PieceBefore(l, end);
            p.stop.End? || (p.stop.Dot? && Regular(p.rest)) <==> end == [] || end == [46]
  {
    var rest := PieceBefore(l, end).rest;
    assert rest == [] || rest == [46] || rest == [92];
    RegularStart(rest);
  }

  /** Two of the endings make a text irregular. */
  lemma {:induction false} RegularEnding(us: seq<seq<byte>>, ls: seq<Label>, end: seq<byte>)
    requires SpelledBy(us, ls) && Ending(end, ls != [])
    requires forall i :: 0 <= i < |ls| ==> 1 <= |ls[i]| <= 63
    ensures Regular(Joined(us) + end) <==> end == [] || (ls != [] && end == [46])
    decreases |ls|
  {
    hide *;
    SpelledSizes(us, ls);
    if ls == [] {
      JoinedIs([], []);
      assert [] + end == end;
      EndingAlone(end);
    } else {
      var u, l := us[0], ls[0];
      assert us == [u] + us[1..] && ls == [l] + ls[1..];
      SpelledMore(u, us[1..], l, ls[1..]);
      JoinedIs(u, us[1..]);
      SpelledNonempty(u, l);
      if |ls| == 1 {
        EndingRests(end);
        assert us == [u];
        ScanSpelled(u, l, end);
        RegularStart(u + end);
        PieceGrows(0, l, end);
        RegularLast(l, end);
      } else {
        var rest := Joined(us[1..]) + end;
        RegularEnding(us[1..], ls[1..], end);
        EndingSome(end);
        assert Joined(us) + end == u + ([46] + rest);
        DotRests(l, rest);
        ScanSpelled(u, l, [46] + rest);
        RegularStart(u + ([46] + rest));
      }
    }
  }

  lemma EndingAlone(end: seq<byte>)
    requires Ending(end, false)
    ensures Regular(end) <==> end == []
  {
    RegularStart(end);
  }

  /** What `dn_find` recognises: the labels spelled, with 46 between them and maybe one behind. */
  lemma ReadsExactly(t: seq<byte>, ls: seq<Label>)
    requires forall i :: 0 <= i < |ls| ==> 1 <= |ls[i]| <= 63
    ensures Reads(t, ls) <==>
            exists us :: SpelledBy(us, ls) && (t == Joined(us) || (ls != [] && t == Joined(us) + [46]))
  {
    assert forall i :: 0 <= i < |ls| ==> GoodLabel(ls[i]);
    ReadsIffParses(t, ls);
    if Reads(t, ls) {
      var us, end := ParsedIsSpelled(t);
      RegularEnding(us, ls, end);
      assert t == Joined(us) || (ls != [] && t == Joined(us) + [46]) by {
        assert Joined(us) + [] == Joined(us);
      }
    }
    if us :| SpelledBy(us, ls) && (t == Joined(us) || (ls != [] && t == Joined(us) + [46])) {
      var end: seq<byte> := if t == Joined(us) then [] else [46];
      assert Joined(us) + [] == Joined(us);
      SpelledIsParsed(us, ls, end);
      RegularEnding(us, ls, end);
    }
  }

  // ----- printing

  /** A label with 92 before each 46. */
  function Quoted(l: Label): seq<byte>
  {
    if l == [] then []
    else Quoted(l[..|l| - 1]) + if l[|l| - 1] == 46 then [92, 46] else [l[|l| - 1]]
  }

  function QuotedAll(ls: seq<Label>): (us: seq<seq<byte>>)
    ensures |us| == |ls| && forall i :: 0 <= i < |us| ==> us[i] == Quoted(ls[i])
  {
    if ls == [] then [] else [Quoted(ls[0])] + QuotedAll(ls[1..])
  }

  lemma {:induction false} EscapeQuotes(l: Label)
    ensures Escape(l) == Quoted(l)
  {
    if l != [] {
      var front, c := l[..|l| - 1], l[|l| - 1];
      EscapeQuotes(front);
      EscapeAppend(front, [c]);
      assert l == front + [c];
      assert Escape([c]) == if c == 46 then [92, 46] else [c];
    }
  }

  /** What `rdn_expand` stores: the labels with 46 between them, and 92 before each 46 inside one. */
  lemma {:induction false} PrintsJoined(ls: seq<Label>)
    ensures Print(ls) == Joined(QuotedAll(ls))
  {
    if ls != [] {
      EscapeQuotes(ls[0]);
      PrintsJoined(ls[1..]);
      assert QuotedAll(ls)[1..] == QuotedAll(ls[1..]);
    }
  }

  /** "www.mit.edu". */
  lemma PrintsDots()
    ensures Print([[119, 119, 119], [109, 105, 116], [101, 100, 117]]) ==
            [119, 119, 119, 46, 109, 105, 116, 46, 101, 100, 117]
  {
    hide *;
    Characters();
    var w: Label, m: Label, e: Label := [119, 119, 119], [109, 105, 116], [101, 100, 117];
    PlainEscapes(w);
    PlainEscapes(m);
    PlainEscapes(e);
    assert [w, m, e][1..] == [m, e] && [m, e][1..] == [e];
    PrintFirst([e]);
    PrintFirst([m, e]);
    PrintFirst([w, m, e]);
  }

  /** A label with a dot in it. */
  lemma PrintsQuotedDot()
    ensures Print([[97, 46, 98]]) == [97, 92, 46, 98]
  {
    var x: Label := [97, 46, 98];
    assert x[1..] == [46, 98] && x[1..][1..] == [98];
    assert Escape([98]) == [98] && Escape(x[1..]) == [92, 46, 98];
  }

  lemma PlainEscapes(l: Label)
    requires 46 !in l
    ensures Escape(l) == l
  {
    EscapeQuotes(l);
    PlainQuotes(l);
  }

  lemma {:induction false} PlainQuotes(l: Label)
    requires 46 !in l
    ensures Quoted(l) == l
  {
    if l != [] {
      PlainQuotes(l[..|l| - 1]);
      assert l == l[..|l| - 1] + [l[|l| - 1]];
    }
  }

  /** A label without 46 and 92 spells itself. */
  lemma {:induction false} PlainSpells(l: Label)
    requires 46 !in l && 92 !in l
    ensures Spells(l, l)
  {
    if l != [] {
      PlainSpells(l[1..]);
      assert l[0] in l;
    }
  }
}
