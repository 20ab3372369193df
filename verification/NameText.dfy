/** Domain names as text: labels separated by dots, a backslash quoting the next character
    (section 5.1 of RFC 1035). Two readings of a text and one printer. */
module NameText {
  import opened Wrappers
  import opened Wire

  type Label = seq<byte>

  /** What stopped the scan of one label: the end of the text, an unquoted dot, or a backslash
      with nothing after it. */
  datatype Stop = End | Dot | Dangling

  datatype Piece = Piece(lab: Label, rest: seq<byte>, stop: Stop)

  /** The first label of `t`, with its quoting removed. */
  function Scan(t: seq<byte>): (p: Piece)
    ensures t != [] ==> |p.rest| < |t|
    ensures !p.stop.Dot? ==> p.rest == []
    ensures p.lab == [] && p.stop.End? ==> t == []
    ensures |p.lab| + |p.rest| <= |t|
    ensures 0 !in t ==> 0 !in p.lab && 0 !in p.rest
  {
    if t == [] then Piece([], [], End)
    else if t[0] == DOT then Piece([], t[1..], Dot)
    else if t[0] != BACKSLASH then
      var p := Scan(t[1..]);
      Piece([t[0]] + p.lab, p.rest, p.stop)
    else if |t| == 1 then Piece([], [], Dangling)
    else
      var p := Scan(t[2..]);
      Piece([t[1]] + p.lab, p.rest, p.stop)
  }

  lemma LabelLimit()
    ensures MAXLABEL == 63
  {
  }

  predicate GoodLabel(l: Label) {
    1 <= |l| <= MAXLABEL
  }

  predicate GoodLabels(ls: seq<Label>) {
    forall i :: 0 <= i < |ls| ==> GoodLabel(ls[i])
  }

  predicate NulFree(ls: seq<Label>) {
    forall i :: 0 <= i < |ls| ==> 0 !in ls[i]
  }

  predicate BackslashFree(ls: seq<Label>) {
    forall i :: 0 <= i < |ls| ==> BACKSLASH !in ls[i]
  }

  /** The writer's reading of a text: the labels `dn_comp` sends, or None where it refuses. */
  function Parse(t: seq<byte>): (r: Option<seq<Label>>)
    ensures r.Some? ==> GoodLabels(r.value)
    ensures r.Some? && 0 !in t ==> NulFree(r.value)
    decreases |t|
  {
    if t == [] then Some([])
    else
      var p := Scan(t);
      if p.lab == [] && p.rest == [] then Some([])
      else if !GoodLabel(p.lab) then None
      else
        match Parse(p.rest)
        case None => None
        case Some(ls) => Some([p.lab] + ls)
  }

  /** The searcher's reading of a text: `dn_find` accepts `t` as a spelling of the labels `ls`. */
  predicate Reads(t: seq<byte>, ls: seq<Label>)
    decreases |t|
  {
    if t == [] || ls == [] then t == [] && ls == []
    else
      var p := Scan(t);
      p.lab == ls[0] &&
      match p.stop
      case End => |ls| == 1
      case Dot => Reads(p.rest, ls[1..])
      case Dangling => false
  }

  /** No empty label before the last dot and no dangling backslash. */
  predicate Regular(t: seq<byte>)
    decreases |t|
  {
    t == [] ||
    var p := Scan(t);
    p.lab != [] &&
    match p.stop
    case End => true
    case Dot => Regular(p.rest)
    case Dangling => false
  }

  /** The two readings differ only on irregular texts, which the searcher never recognises. */
  lemma {:induction false} ReadsIffParses(t: seq<byte>, ls: seq<Label>)
    requires GoodLabels(ls)
    ensures Reads(t, ls) <==> Regular(t) && Parse(t) == Some(ls)
    decreases |t|
  {
    if t != [] {
      var p := Scan(t);
      if ls != [] {
        assert GoodLabel(ls[0]);
        assert ls == [ls[0]] + ls[1..];
        ReadsIffParses(p.rest, ls[1..]);
        if Parse(t) == Some(ls) {
          assert ls[1..] == Parse(p.rest).value;
        }
      }
    }
  }

  // ----- printing

  /** The printer of `rdn_expand` quotes dots and nothing else. */
  function Escape(l: Label): (r: seq<byte>)
    ensures |r| >= |l|
  {
    if l == [] then []
    else (if l[0] == DOT then [BACKSLASH, DOT] else [l[0]]) + Escape(l[1..])
  }

  function Print(ls: seq<Label>): seq<byte>
  {
    if ls == [] then []
    else if |ls| == 1 then Escape(ls[0])
    else Escape(ls[0]) + [DOT] + Print(ls[1..])
  }

  lemma {:induction false} EscapeAppend(a: Label, b: Label)
    ensures Escape(a + b) == Escape(a) + Escape(b)
  {
    if a == [] {
      assert a + b == b;
    } else {
      assert (a + b)[1..] == a[1..] + b;
      EscapeAppend(a[1..], b);
    }
  }

  /** Printing one more label after those already printed. */
  lemma {:induction false} PrintAppend(a: seq<Label>, b: seq<Label>)
    requires a != [] && b != []
    ensures Print(a + b) == Print(a) + [DOT] + Print(b)
  {
    assert (a + b)[1..] == a[1..] + b;
    if |a| > 1 {
      PrintAppend(a[1..], b);
    } else {
      assert a[1..] + b == b;
    }
  }

  // ----- printing, then reading

  /** A tail that ends a label: nothing, or a dot. */
  predicate Ends(tail: seq<byte>) {
    tail == [] || tail[0] == DOT
  }

  lemma QuotesDiffer()
    ensures DOT != BACKSLASH
  {
  }

  lemma ScanPlain(c: byte, t: seq<byte>)
    requires c != DOT && c != BACKSLASH
    ensures Scan([c] + t) == Piece([c] + Scan(t).lab, Scan(t).rest, Scan(t).stop)
  {
    assert ([c] + t)[1..] == t;
  }

  lemma ScanQuoted(c: byte, t: seq<byte>)
    ensures Scan([BACKSLASH, c] + t) == Piece([c] + Scan(t).lab, Scan(t).rest, Scan(t).stop)
  {
    assert ([BACKSLASH, c] + t)[2..] == t;
  }

  lemma ScanTail(tail: seq<byte>)
    requires Ends(tail)
    ensures Scan(tail) == if tail == [] then Piece([], [], End) else Piece([], tail[1..], Dot)
  {
  }

  /** Printing a label byte by byte. */
  lemma EscapedNext(l: Label, tail: seq<byte>)
    ensures l == [] ==> Escape(l) + tail == tail
    ensures l != [] && l[0] == DOT ==> Escape(l) + tail == [BACKSLASH, DOT] + (Escape(l[1..]) + tail)
    ensures l != [] && l[0] != DOT ==> Escape(l) + tail == [l[0]] + (Escape(l[1..]) + tail)
  {
    hide *;
    EscapeFirst(l);
  }

  lemma {:induction false} EscapeFirst(l: Label)
    ensures l == [] ==> Escape(l) == []
    ensures l != [] ==> Escape(l) == (if l[0] == DOT then [BACKSLASH, DOT] else [l[0]]) + Escape(l[1..])
  {
  }

  lemma {:induction false} ScanEscaped(l: Label, tail: seq<byte>)
    requires BACKSLASH !in l && Ends(tail)
    ensures Scan(Escape(l) + tail) ==
            if tail == [] then Piece(l, [], End) else Piece(l, tail[1..], Dot)
  {
    hide *;
    QuotesDiffer();
    EscapedNext(l, tail);
    ScanTail(tail);
    if l != [] {
      ScanEscaped(l[1..], tail);
      assert l == [l[0]] + l[1..];
      if l[0] == DOT {
        ScanQuoted(DOT, Escape(l[1..]) + tail);
      } else {
        ScanPlain(l[0], Escape(l[1..]) + tail);
      }
    }
  }

  /** A backslash inside a label is always misread. */
  lemma {:induction false} ScanMisreads(l: Label, tail: seq<byte>)
    requires BACKSLASH in l && Ends(tail)
    ensures Scan(Escape(l) + tail).lab != l
  {
    hide *;
    QuotesDiffer();
    EscapedNext(l, tail);
    if l[0] == BACKSLASH {
      MisreadBackslash(0, l[1..], tail);
      assert l == [BACKSLASH] + l[1..] == Backslashes(0) + ([BACKSLASH] + l[1..]);
    } else {
      ScanMisreads(l[1..], tail);
      if l[0] == DOT {
        ScanQuoted(DOT, Escape(l[1..]) + tail);
      } else {
        ScanPlain(l[0], Escape(l[1..]) + tail);
      }
      assert Scan(Escape(l) + tail).lab[1..] == Scan(Escape(l[1..]) + tail).lab;
    }
  }

  function Backslashes(k: nat): (r: Label)
    ensures |r| == k
    ensures k > 0 ==> r[0] == BACKSLASH
  {
    seq(k, _ => BACKSLASH)
  }

  lemma BackslashesMore(k: nat, l: Label)
    ensures Backslashes(k) + ([BACKSLASH] + l) == [BACKSLASH] + (Backslashes(k) + l)
    ensures Backslashes(k) + ([BACKSLASH] + l) == Backslashes(k + 1) + l
  {
  }

  /** Once the reader is `k` backslashes behind the printer it never catches up. */
  lemma {:induction false} ScanFallsBehind(k: nat, l: Label, tail: seq<byte>)
    requires k > 0 && Ends(tail)
    ensures Scan(Escape(l) + tail).lab != Backslashes(k) + l
    decreases |l|, 1
  {
    hide *;
    QuotesDiffer();
    var goal := Backslashes(k) + l;
    assert goal[0] == BACKSLASH;
    EscapedNext(l, tail);
    if l == [] {
      ScanTail(tail);
    } else if l[0] == BACKSLASH {
      MisreadBackslash(k, l[1..], tail);
      assert l == [BACKSLASH] + l[1..];
    } else if l[0] == DOT {
      ScanQuoted(DOT, Escape(l[1..]) + tail);
    } else {
      ScanPlain(l[0], Escape(l[1..]) + tail);
    }
  }

  /** The backslash printed first quotes what follows it, and the reader is one more behind. */
  lemma {:induction false} MisreadBackslash(k: nat, l: Label, tail: seq<byte>)
    requires Ends(tail)
    ensures Scan([BACKSLASH] + (Escape(l) + tail)).lab != Backslashes(k) + ([BACKSLASH] + l)
    decreases |l|, 0
  {
    hide *;
    QuotesDiffer();
    var goal := Backslashes(k) + ([BACKSLASH] + l);
    BackslashesMore(k, l);
    assert goal[0] == BACKSLASH;
    EscapedNext(l, tail);
    if l == [] {
      LoneBackslash(tail);
    } else if l[0] == DOT {
      var t := Escape(l[1..]) + tail;
      assert [BACKSLASH] + ([BACKSLASH, DOT] + t) == [BACKSLASH, BACKSLASH] + ([DOT] + t);
      ScanQuoted(BACKSLASH, [DOT] + t);
      ScanDot(t);
      assert |goal| > 1;
    } else {
      var t := Escape(l[1..]) + tail;
      assert [BACKSLASH] + ([l[0]] + t) == [BACKSLASH, l[0]] + t;
      ScanQuoted(l[0], t);
      if l[0] == BACKSLASH {
        ScanFallsBehind(k + 1, l[1..], tail);
        assert l == [BACKSLASH] + l[1..];
        BackslashesMore(k, l[1..]);
        assert goal[1..] == Backslashes(k) + l == Backslashes(k + 1) + l[1..];
        assert Scan([BACKSLASH, l[0]] + t).lab[1..] == Scan(t).lab;
      }
    }
  }

  lemma ScanDot(t: seq<byte>)
    ensures Scan([DOT] + t).lab == []
  {
  }

  lemma LoneBackslash(tail: seq<byte>)
    requires Ends(tail)
    ensures Scan([BACKSLASH] + tail).lab == [] || Scan([BACKSLASH] + tail).lab[0] == DOT
  {
    if tail != [] {
      assert [BACKSLASH] + tail == [BACKSLASH, DOT] + tail[1..];
      ScanQuoted(DOT, tail[1..]);
    }
  }

  lemma PrintFirst(ls: seq<Label>)
    ensures ls == [] ==> Print(ls) == []
    ensures ls != [] ==> Print(ls) == Escape(ls[0]) + (if |ls| == 1 then [] else [DOT] + Print(ls[1..]))
  {
  }

  /** Reading back a printed text whose first label is read back. */
  lemma ParseFirst(l: Label, tail: seq<byte>, t: seq<byte>)
    requires Scan(t) == (if tail == [] then Piece(l, [], End) else Piece(l, tail[1..], Dot))
    requires GoodLabel(l) && t != []
    ensures Parse(t) == match Parse(if tail == [] then [] else tail[1..])
                        case None => None
                        case Some(ls) => Some([l] + ls)
    ensures Regular(t) <==> tail == [] || Regular(tail[1..])
  {
  }

  lemma ParseWrong(l: Label, t: seq<byte>)
    requires Scan(t).lab != l
    ensures Parse(t).Some? && Parse(t).value != [] ==> Parse(t).value[0] != l
  {
  }

  lemma BackslashFreeFirst(ls: seq<Label>)
    ensures ls == [] ==> BackslashFree(ls)
    ensures ls != [] ==> (BackslashFree(ls) <==> BACKSLASH !in ls[0] && BackslashFree(ls[1..]))
  {
  }

  lemma GoodFirst(ls: seq<Label>)
    requires GoodLabels(ls) && ls != []
    ensures GoodLabel(ls[0]) && ls[0] != [] && GoodLabels(ls[1..])
  {
    assert GoodLabel(ls[0]);
  }

  /** Round trip of labels through text: it holds exactly when no label contains a backslash,
      because the printer does not quote it. */
  lemma {:induction false} PrintThenParse(ls: seq<Label>)
    requires GoodLabels(ls)
    ensures Parse(Print(ls)) == Some(ls) <==> BackslashFree(ls)
    ensures BackslashFree(ls) ==> Regular(Print(ls))
  {
    hide *;
    PrintFirst(ls);
    BackslashFreeFirst(ls);
    if ls == [] {
      ParseNothing();
    } else {
      var t := Print(ls);
      var tail := if |ls| == 1 then [] else [DOT] + Print(ls[1..]);
      assert Ends(tail) by { TailEnds(tail); }
      GoodFirst(ls);
      assert ls == [ls[0]] + ls[1..];
      if BACKSLASH in ls[0] {
        ScanMisreads(ls[0], tail);
        ParseWrong(ls[0], t);
      } else {
        ScanEscaped(ls[0], tail);
        PrintThenParse(ls[1..]);
        PrintFirst(ls[1..]);
        ParseFirst(ls[0], tail, t);
        assert (if tail == [] then [] else tail[1..]) == Print(ls[1..]);
        assert forall ks: seq<Label> :: [ls[0]] + ks == ls ==> ks == ls[1..] by {
          forall ks: seq<Label> | [ls[0]] + ks == ls ensures ks == ls[1..] {
            assert ks == ([ls[0]] + ks)[1..];
          }
        }
      }
    }
  }

  lemma TailEnds(tail: seq<byte>)
    requires tail == [] || tail[0] == DOT
    ensures Ends(tail)
  {
  }

  lemma ParseNothing()
    ensures Parse([]) == Some([]) && Regular([])
  {
  }

  // ----- reading, then printing

  /** No trailing dot, and a backslash only where it quotes a dot. */
  predicate Canonical(t: seq<byte>) {
    if t == [] then true
    else if t[0] == DOT then |t| > 1 && Canonical(t[1..])
    else if t[0] == BACKSLASH then |t| > 1 && t[1] == DOT && Canonical(t[2..])
    else Canonical(t[1..])
  }

  /** The text a scanned piece stands for. */
  function Spelled(p: Piece): seq<byte> {
    Escape(p.lab) + if p.stop.Dot? then [DOT] + p.rest else []
  }

  lemma {:induction false} SpellsNoLonger(t: seq<byte>)
    ensures var p := Scan(t); Spelled(p) == t || |Spelled(p)| < |t|
    ensures var p := Scan(t); p.stop.Dangling? ==> |Spelled(p)| < |t|
  {
    var p := Scan(t);
    if t == [] || t[0] == DOT {
      assert p.stop.Dot? ==> Spelled(p) == t;
    } else if t[0] != BACKSLASH {
      SpellsNoLonger(t[1..]);
      SpelledCons(t[0], Scan(t[1..]));
    } else if |t| > 1 {
      SpellsNoLonger(t[2..]);
      SpelledCons(t[1], Scan(t[2..]));
      assert Spelled(Scan(t[2..])) == t[2..] && t[1] == DOT ==> Spelled(p) == t;
    }
  }

  lemma SpelledCons(c: byte, p: Piece)
    ensures Spelled(Piece([c] + p.lab, p.rest, p.stop)) ==
            (if c == DOT then [BACKSLASH, DOT] else [c]) + Spelled(p)
  {
    assert ([c] + p.lab)[1..] == p.lab;
  }

  /** A text is canonical when its first label is spelled canonically and the rest is canonical. */
  lemma {:induction false} CanonicalScan(t: seq<byte>)
    ensures var p := Scan(t);
            Canonical(t) <==>
            Spelled(p) == t && (p.stop.Dot? ==> p.rest != [] && Canonical(p.rest))
  {
    var p := Scan(t);
    SpellsNoLonger(t);
    if t == [] || t[0] == DOT {
    } else if t[0] != BACKSLASH {
      var q := Scan(t[1..]);
      CanonicalScan(t[1..]);
      SpelledCons(t[0], q);
      assert Spelled(p)[1..] == Spelled(q);
    } else if |t| > 1 {
      var q := Scan(t[2..]);
      CanonicalScan(t[2..]);
      SpelledCons(t[1], q);
      if t[1] == DOT {
        assert Spelled(p)[2..] == Spelled(q);
        assert Spelled(q) == t[2..] ==> Spelled(p) == t;
      } else {
        SpellsNoLonger(t[2..]);
      }
    }
  }

  /** Round trip of text through labels: printing what was read gives back the text when it was
      canonical, and a strictly shorter text when it was not. What comes back spells the same labels
      exactly when the text quotes no backslash, and then it is canonical. */
  lemma ParseThenPrint(t: seq<byte>)
    requires Parse(t).Some?
    ensures var u := Print(Parse(t).value);
            && (Canonical(t) ==> u == t)
            && (!Canonical(t) ==> |u| < |t|)
            && (Parse(u) == Parse(t) <==> !QuotesBackslash(t))
            && (!QuotesBackslash(t) ==> Canonical(u))
  {
    hide *;
    var ls := Parse(t).value;
    PrintNoLonger(t);
    QuotedBackslashesAre(t);
    PrintThenParse(ls);
    if BackslashFree(ls) {
      PrintIsCanonical(ls);
    }
  }

  /** The failing case: the text `a\\b`, whose one label has a backslash, comes back as `a\b`, which
      is not canonical and spells another label. */
  lemma QuotedBackslashIsLost()
    ensures var t: seq<byte> := [97, BACKSLASH, BACKSLASH, 98];
            var l: Label := [97, BACKSLASH, 98];
            && QuotesBackslash(t) && Parse(t) == Some([l]) && Print([l]) == l
            && !Canonical(l) && Parse(l) == Some([[97, 98]])
  {
    var t: seq<byte> := [97, BACKSLASH, BACKSLASH, 98];
    var l: Label := [97, BACKSLASH, 98];
    assert t == [97] + ([BACKSLASH, BACKSLASH] + [98]) && l == [97] + ([BACKSLASH, 98] + []);
    ScanPlain(97, [BACKSLASH, BACKSLASH] + [98]);
    ScanQuoted(BACKSLASH, [98]);
    ScanPlain(98, []);
    assert [98] + [] == [98];
    assert Scan(t) == Piece(l, [], End);
    ScanPlain(97, [BACKSLASH, 98] + []);
    ScanQuoted(98, []);
    assert Scan(l) == Piece([97, 98], [], End);
    assert [l] + [] == [l] && [[97, 98]] + [] == [[97, 98]];
    assert l[1..] == [BACKSLASH, 98] && l[1..][1..] == [98] && l[1..][1..][1..] == [];
    assert t[1..][2..] == [98];
    assert Escape([98]) == [98] && Escape(l[1..]) == [BACKSLASH] + [98] && Escape(l) == [97] + l[1..];
  }

  /** A quoted backslash. */
  predicate QuotesBackslash(t: seq<byte>) {
    if t == [] then false
    else if t[0] != BACKSLASH || |t| == 1 then QuotesBackslash(t[1..])
    else t[1] == BACKSLASH || QuotesBackslash(t[2..])
  }

  lemma {:induction false} QuotedInScan(t: seq<byte>)
    ensures var p := Scan(t);
            QuotesBackslash(t) <==> BACKSLASH in p.lab || QuotesBackslash(p.rest)
  {
    if t == [] || t[0] == DOT {
    } else if t[0] != BACKSLASH {
      QuotedInScan(t[1..]);
    } else if |t| > 1 {
      QuotedInScan(t[2..]);
    }
  }

  /** The labels of a text have a backslash exactly where the text quotes one. */
  lemma {:induction false} QuotedBackslashesAre(t: seq<byte>)
    requires Parse(t).Some?
    ensures BackslashFree(Parse(t).value) <==> !QuotesBackslash(t)
    decreases |t|
  {
    QuotedInScan(t);
    var p := Scan(t);
    if t != [] && (p.lab != [] || p.rest != []) {
      QuotedBackslashesAre(p.rest);
      BackslashFreeFirst(Parse(t).value);
      assert Parse(t).value[1..] == Parse(p.rest).value;
    }
  }

  lemma {:induction false} CanonicalEscape(l: Label, tail: seq<byte>)
    requires BACKSLASH !in l
    ensures Canonical(Escape(l) + tail) <==> Canonical(tail)
  {
    EscapedNext(l, tail);
    if l != [] {
      var u := Escape(l[1..]) + tail;
      CanonicalEscape(l[1..], tail);
      assert ([BACKSLASH, DOT] + u)[2..] == u && ([l[0]] + u)[1..] == u;
    }
  }

  /** Labels without backslash are printed canonically. */
  lemma {:induction false} PrintIsCanonical(ls: seq<Label>)
    requires GoodLabels(ls) && BackslashFree(ls)
    ensures Canonical(Print(ls))
  {
    PrintFirst(ls);
    if ls != [] {
      var tail := if |ls| == 1 then [] else [DOT] + Print(ls[1..]);
      CanonicalEscape(ls[0], tail);
      if |ls| > 1 {
        PrintIsCanonical(ls[1..]);
        PrintFirst(ls[1..]);
        assert GoodLabel(ls[1]) && tail[1..] == Print(ls[1..]);
      }
    }
  }

  lemma {:induction false} PrintNoLonger(t: seq<byte>)
    requires Parse(t).Some?
    ensures Canonical(t) ==> Print(Parse(t).value) == t
    ensures !Canonical(t) ==> |Print(Parse(t).value)| < |t|
    decreases |t|
  {
    hide *;
    CanonicalScan(t);
    SpellsNoLonger(t);
    ParseCases(t);
    PrintFirst([]);
    if t != [] && (Scan(t).lab != [] || Scan(t).rest != []) {
      var p := Scan(t);
      var ls := Parse(p.rest).value;
      PrintNoLonger(p.rest);
      PrintFirst([p.lab] + ls);
      PrintFirst(ls);
      assert ([p.lab] + ls)[1..] == ls;
      SpelledIs(p);
      CanonicalIsParsed(p.rest);
      ParseNothing();
    }
  }

  lemma ParseCases(t: seq<byte>)
    requires Parse(t).Some?
    ensures var p := Scan(t);
            if t == [] || (p.lab == [] && p.rest == []) then
              Parse(t).value == [] && (t == [] <==> Canonical(t))
            else
              Parse(p.rest).Some? && Parse(t).value == [p.lab] + Parse(p.rest).value
  {
  }

  lemma SpelledIs(p: Piece)
    ensures Spelled(p) == Escape(p.lab) + if p.stop.Dot? then [DOT] + p.rest else []
  {
  }

  lemma CanonicalIsParsed(t: seq<byte>)
    requires Parse(t).Some?
    ensures Canonical(t) && t != [] ==> Parse(t).value != []
  {
  }
}
