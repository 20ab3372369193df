/** What `dn_comp` writes for a name, as a function of the text, the message so far and the index,
    and what that encoding is worth: it means the name; and when a shorter one was to be had. */
module Encoding {
  import opened Wrappers
  import opened Bits
  import opened Wire
  import opened NameText
  import opened WireName
  import opened NameIndex

  /** The two bytes of a pointer, as the source computes them; each is cut to eight bits. */
  function PointerBytes(l: nat): (r: seq<byte>)
    ensures |r| == 2
  {
    [Or(l / 256, INDIR_MASK) % 256, l % 256]
  }

  lemma Low14Bits(l: nat)
    ensures l / 256 % 64 * 256 + l % 256 == l % 0x4000
  {
    var h, b := l / 256, l % 256;
    var q, r := h / 64, h % 64;
    SplitAt14(l, q, r * 256 + b);
  }

  lemma SplitAt14(l: nat, q: nat, low: nat)
    requires l == 0x4000 * q + low && low < 0x4000
    ensures l % 0x4000 == low
  {
  }

  /** A pointer keeps 14 bits of the offset, so it leads where it should exactly when the offset
      is below 0x4000. */
  lemma PointerKeeps14Bits(l: nat, m: seq<byte>, p: nat)
    requires p + 2 <= |m| && m[p..p + 2] == PointerBytes(l)
    ensures IsPointer(m[p]) && Target(m, p) == l % 0x4000
    ensures Target(m, p) == l <==> l < 0x4000
  {
    hide *;
    PointerBytesAre(l);
    Low14Bits(l);
    assert m[p] == m[p..p + 2][0] && m[p + 1] == m[p..p + 2][1];
    TargetIs(m, p);
  }

  lemma PointerBytesAre(l: nat)
    ensures PointerBytes(l) == [192 + l / 256 % 64, l % 256]
  {
    OrTag(l / 256);
  }

  /** The bytes of an encoded name; where its labels (and an explicit final root) start; how many
      labels are spelled out; and the pointer that stands for the others, if any. */
  datatype Encoded = Encoded(bytes: seq<byte>, marks: seq<int>, literals: nat, target: Option<nat>)

  /** The encoding of `t` at offset `at`, given the message `m` and the index `ix` over it. */
  function Encode(m: seq<byte>, ix: seq<int>, t: seq<byte>, at: nat): (r: Option<Encoded>)
    ensures r.Some? ==> r.value.bytes != []
    decreases |t|
  {
    if t == [] then Some(Encoded([0], [], 0, None))
    else
      match Lookup(m, ix, t)
      case Some(l) => Some(Encoded(PointerBytes(l), [], 0, Some(l)))
      case None =>
        var p := Scan(t);
        if p.lab == [] && p.rest == [] then Some(Encoded([0], [at], 0, None))
        else if !GoodLabel(p.lab) then None
        else
          match Encode(m, ix, p.rest, at + 1 + |p.lab|)
          case None => None
          case Some(e) => Some(WithLabel(p.lab, at, e))
  }

  function WithLabel(l: Label, at: nat, e: Encoded): (r: Encoded)
    requires |l| <= MAXLABEL
  {
    Encoded([|l|] + l + e.bytes, [at] + e.marks, 1 + e.literals, e.target)
  }

  /** `dn_comp` refuses a name for its text alone; the index has no say. */
  lemma {:induction false} EncodeIffParse(m: seq<byte>, ix: seq<int>, t: seq<byte>, at: nat)
    requires IndexOk(m, ix)
    ensures Encode(m, ix, t, at).Some? <==> Parse(t).Some?
    decreases |t|
  {
    if t != [] {
      match Lookup(m, ix, t)
      case Some(l) =>
        ReadsIffParses(t, Known(m, l).value);
      case None =>
        EncodeIffParse(m, ix, Scan(t).rest, at + 1 + |Scan(t).lab|);
    }
  }

  // ----- the encoding means the name

  /** Every mark of `e` stands for the labels from its own on. */
  predicate MarksMean(M: seq<byte>, start: nat, marks: seq<int>, ls: seq<Label>)
  {
    |marks| <= |ls| + 1 &&
    forall j :: 0 <= j < |marks| ==>
      start <= marks[j] && Resolve(M, start, |M|, marks[j]) == Some(ls[j..])
  }

  lemma PointerMeans(m: seq<byte>, M: seq<byte>, ix: seq<int>, t: seq<byte>, at: nat, l: nat)
    requires IndexOk(m, ix) && m <= M && |m| <= at && at + 2 <= |M|
    requires t != [] && Lookup(m, ix, t) == Some(l) && l < 0x4000
    requires M[at..at + 2] == PointerBytes(l)
    ensures Resolve(M, |m|, |M|, at) == Parse(t)
    ensures Parse(t).Some? && NulFree(Parse(t).value)
  {
    PointerKeeps14Bits(l, M, at);
    ReadsIffParses(t, Known(m, l).value);
    assert m[..|m|] == M[..|m|];
    ResolveGrows(m, M, l, |m|, |m|, l);
    assert M[l] == m[l];
    assert exists i :: 0 <= i < |ix| && ix[i] == l;
  }

  /** The bytes that `dn_comp` adds after `m + done` make the name at that place stand for the
      labels of `t`, whatever is spelled out and whatever is pointed to. */
  lemma {:induction false} EncodeMeans(m: seq<byte>, ix: seq<int>, t: seq<byte>, done: seq<byte>)
    requires IndexOk(m, ix) && 0 !in t
    requires Encode(m, ix, t, |m + done|).Some?
    requires Encode(m, ix, t, |m + done|).value.target.Some? ==>
               Encode(m, ix, t, |m + done|).value.target.value < 0x4000
    ensures var e := Encode(m, ix, t, |m + done|).value;
            var M := m + done + e.bytes;
            && Parse(t).Some? && NulFree(Parse(t).value)
            && Resolve(M, |m|, |M|, |m + done|) == Parse(t)
            && MarksMean(M, |m|, e.marks, Parse(t).value)
    decreases |t|
  {
    var at := |m + done|;
    var e := Encode(m, ix, t, at).value;
    var M := m + done + e.bytes;
    assert M[at] == e.bytes[0];
    if t != [] {
      var p := Scan(t);
      if Lookup(m, ix, t).Some? {
        assert M[at..at + 2] == e.bytes;
        PointerMeans(m, M, ix, t, at, Lookup(m, ix, t).value);
      } else if p.lab != [] || p.rest != [] {
        LabelMeans(m, ix, t, done);
      }
    }
  }

  /** One step of the three definitions, over a label that is spelled out. */
  lemma EncodeStep(m: seq<byte>, ix: seq<int>, t: seq<byte>, at: nat)
    requires t != [] && Lookup(m, ix, t).None?
    requires Scan(t).lab != [] || Scan(t).rest != []
    requires Encode(m, ix, t, at).Some?
    ensures GoodLabel(Scan(t).lab) && 1 <= |Scan(t).lab| <= MAXLABEL < 64
    ensures var p := Scan(t);
            var e := Encode(m, ix, p.rest, at + 1 + |p.lab|);
            e.Some? && Encode(m, ix, t, at) ==
              Some(Encoded([|p.lab|] + p.lab + e.value.bytes, [at] + e.value.marks,
                           1 + e.value.literals, e.value.target))
  {
  }

  lemma ParseStep(t: seq<byte>)
    requires t != [] && GoodLabel(Scan(t).lab)
    ensures Parse(t).Some? <==> Parse(Scan(t).rest).Some?
    ensures Parse(t).Some? ==> Parse(t).value == [Scan(t).lab] + Parse(Scan(t).rest).value
  {
  }

  lemma ResolveStep(M: seq<byte>, start: nat, pos: nat, l: Label)
    requires start <= pos && pos + 1 + |l| < |M| && GoodLabel(l)
    requires M[pos] == |l| && M[pos + 1..pos + 1 + |l|] == l
    requires Resolve(M, start, |M|, pos + 1 + |l|).Some?
    ensures Resolve(M, start, |M|, pos) == Some([l] + Resolve(M, start, |M|, pos + 1 + |l|).value)
  {
  }

  lemma MarksStep(M: seq<byte>, start: nat, at: nat, l: Label, marks: seq<int>, ls: seq<Label>)
    requires start <= at && MarksMean(M, start, marks, ls)
    requires Resolve(M, start, |M|, at) == Some([l] + ls)
    ensures MarksMean(M, start, [at] + marks, [l] + ls)
  {
    forall j | 0 < j < |marks| + 1
      ensures ([l] + ls)[j..] == ls[j - 1..]
    {
    }
    assert ([l] + ls)[0..] == [l] + ls;
  }

  lemma {:induction false} LabelMeans(m: seq<byte>, ix: seq<int>, t: seq<byte>, done: seq<byte>)
    requires IndexOk(m, ix) && 0 !in t && t != [] && Lookup(m, ix, t).None?
    requires Scan(t).lab != [] || Scan(t).rest != []
    requires Encode(m, ix, t, |m + done|).Some?
    requires Encode(m, ix, t, |m + done|).value.target.Some? ==>
               Encode(m, ix, t, |m + done|).value.target.value < 0x4000
    ensures var e := Encode(m, ix, t, |m + done|).value;
            var M := m + done + e.bytes;
            && Parse(t).Some? && NulFree(Parse(t).value)
            && Resolve(M, |m|, |M|, |m + done|) == Parse(t)
            && MarksMean(M, |m|, e.marks, Parse(t).value)
    decreases |t|, 0
  {
    hide *;
    var at := |m + done|;
    EncodeStep(m, ix, t, at);
    var p := Scan(t);
    var done' := done + [|p.lab|] + p.lab;
    assert |m + done'| == at + 1 + |p.lab|;
    EncodeMeans(m, ix, p.rest, done');
    var e' := Encode(m, ix, p.rest, at + 1 + |p.lab|).value;
    var M := m + done' + e'.bytes;
    assert M == m + done + ([|p.lab|] + p.lab + e'.bytes);
    assert M[at] == |p.lab| && M[at + 1..at + 1 + |p.lab|] == p.lab;
    ParseStep(t);
    ResolveStep(M, |m|, at, p.lab);
    MarksStep(M, |m|, at, p.lab, e'.marks, Parse(p.rest).value);
  }

  // ----- and no shorter encoding was to be had

  /** Labels spelled out: each behind its length. */
  function LabelBytes(ls: seq<Label>): (r: seq<byte>)
    requires GoodLabels(ls)
  {
    if ls == [] then []
    else
      assert GoodLabel(ls[0]);
      [|ls[0]|] + ls[0] + LabelBytes(ls[1..])
  }

  lemma {:induction false} LabelBytesAppend(a: seq<Label>, b: seq<Label>)
    requires GoodLabels(a) && GoodLabels(b)
    ensures GoodLabels(a + b) && LabelBytes(a + b) == LabelBytes(a) + LabelBytes(b)
  {
    hide *;
    GoodAppend(a, b);
    if a == [] {
      assert a + b == b;
      LabelBytesNothing();
    } else {
      assert a == [a[0]] + a[1..] && a + b == [a[0]] + (a[1..] + b);
      GoodFirst(a);
      LabelBytesAppend(a[1..], b);
      LabelBytesCons(a[0], a[1..]);
      LabelBytesCons(a[0], a[1..] + b);
    }
  }

  lemma GoodAppend(a: seq<Label>, b: seq<Label>)
    requires GoodLabels(a) && GoodLabels(b)
    ensures GoodLabels(a + b)
  {
  }

  lemma {:induction false} LabelBytesNonempty(ls: seq<Label>)
    requires GoodLabels(ls) && ls != []
    ensures |LabelBytes(ls)| >= 2
  {
    assert GoodLabel(ls[0]);
  }

  /** The form of an encoding of `ls`: the first `literals` labels spelled out, then a pointer to
      an entry for the rest, or the root when nothing is left. */
  predicate Shape(m: seq<byte>, ix: seq<int>, e: Encoded, ls: seq<Label>)
    requires GoodLabels(ls)
  {
    && e.literals <= |ls|
    && e.bytes == LabelBytes(ls[..e.literals]) +
                  (if e.target.Some? then PointerBytes(e.target.value) else [0])
    && (e.target.None? ==> e.literals == |ls|)
    && (e.target.Some? ==> e.target.value in ix && e.literals < |ls| &&
                           Known(m, e.target.value) == Some(ls[e.literals..]))
  }

  lemma ShapeOfPointer(m: seq<byte>, ix: seq<int>, t: seq<byte>, at: nat)
    requires IndexOk(m, ix) && t != [] && Lookup(m, ix, t).Some?
    ensures Encode(m, ix, t, at).Some?
    ensures Parse(t).Some? && Shape(m, ix, Encode(m, ix, t, at).value, Parse(t).value)
  {
    var e := Lookup(m, ix, t).value;
    ReadsIffParses(t, Known(m, e).value);
    var ls := Parse(t).value;
    assert ls[0..] == ls && LabelBytes(ls[..0]) == [];
  }

  lemma ShapeOfRoot(m: seq<byte>, ix: seq<int>, t: seq<byte>, at: nat)
    requires t == [] || (Lookup(m, ix, t).None? && Scan(t).lab == [] && Scan(t).rest == [])
    ensures Encode(m, ix, t, at).Some?
    ensures Parse(t).Some? && Shape(m, ix, Encode(m, ix, t, at).value, Parse(t).value)
  {
  }

  lemma {:induction false} EncodeShape(m: seq<byte>, ix: seq<int>, t: seq<byte>, at: nat)
    requires IndexOk(m, ix) && Encode(m, ix, t, at).Some?
    ensures Parse(t).Some? && Shape(m, ix, Encode(m, ix, t, at).value, Parse(t).value)
    decreases |t|
  {
    hide *;
    if t == [] {
      ShapeOfRoot(m, ix, t, at);
    } else {
      var p := Scan(t);
      if Lookup(m, ix, t).Some? {
        ShapeOfPointer(m, ix, t, at);
      } else if p.lab == [] && p.rest == [] {
        ShapeOfRoot(m, ix, t, at);
      } else if p.lab != [] || p.rest != [] {
        EncodeStep(m, ix, t, at);
        EncodeShape(m, ix, p.rest, at + 1 + |p.lab|);
        ParseStep(t);
        ShapeStep(m, ix, Encode(m, ix, p.rest, at + 1 + |p.lab|).value, Parse(p.rest).value, p.lab, at);
      }
    }
  }

  lemma ShapeStep(m: seq<byte>, ix: seq<int>, e: Encoded, ls: seq<Label>, l: Label, at: nat)
    requires GoodLabels(ls) && GoodLabel(l) && Shape(m, ix, e, ls)
    ensures GoodLabels([l] + ls) && |l| <= MAXLABEL < 64
    ensures Shape(m, ix, Encoded([|l|] + l + e.bytes, [at] + e.marks, 1 + e.literals, e.target), [l] + ls)
  {
    var k := e.literals;
    assert ([l] + ls)[..k + 1] == [l] + ls[..k];
    assert ([l] + ls)[k + 1..] == ls[k..];
    LabelBytesCons(l, ls[..k]);
  }

  lemma LabelBytesCons(l: Label, ls: seq<Label>)
    requires GoodLabel(l) && GoodLabels(ls)
    ensures GoodLabels([l] + ls) && LabelBytes([l] + ls) == [|l|] + l + LabelBytes(ls)
  {
  }

  lemma MarksOfEnd(m: seq<byte>, ix: seq<int>, t: seq<byte>, at: nat)
    requires t == [] || Lookup(m, ix, t).Some? || (Scan(t).lab == [] && Scan(t).rest == [])
    ensures Encode(m, ix, t, at).Some?
    ensures var e := Encode(m, ix, t, at).value; e.marks == [] || (e.marks == [at] && e.bytes == [0])
  {
  }

  lemma GoodPrefix(ls: seq<Label>, j: nat)
    requires GoodLabels(ls) && j <= |ls|
    ensures GoodLabels(ls[..j])
  {
  }

  lemma LabelBytesNothing()
    ensures LabelBytes([]) == [] && MAXLABEL == 63
  {
  }

  /** Where the marks are: each at the start of a label that is spelled out, or at the final root. */
  lemma {:induction false} MarksArePlaces(m: seq<byte>, ix: seq<int>, t: seq<byte>, at: nat, j: nat)
    requires Encode(m, ix, t, at).Some? && j < |Encode(m, ix, t, at).value.marks|
    requires Parse(t).Some?
    ensures var e, ls := Encode(m, ix, t, at).value, Parse(t).value;
            && j <= |ls| && e.marks[j] == at + |LabelBytes(ls[..j])| < at + |e.bytes|
            && e.bytes[e.marks[j] - at] <= MAXLABEL
    decreases |t|
  {
    hide *;
    LabelBytesNothing();
    assert Parse(t).value[..0] == [];
    var p := Scan(t);
    if t == [] || Lookup(m, ix, t).Some? || (p.lab == [] && p.rest == []) {
      MarksOfEnd(m, ix, t, at);
    } else {
      EncodeStep(m, ix, t, at);
      ParseStep(t);
      if j > 0 {
        var rest := Parse(p.rest).value;
        MarksArePlaces(m, ix, p.rest, at + 1 + |p.lab|, j - 1);
        assert ([p.lab] + rest)[..j] == [p.lab] + rest[..j - 1];
        GoodPrefix(rest, j - 1);
        LabelBytesCons(p.lab, rest[..j - 1]);
      }
    }
  }

  /** How many marks there are: one for every label that is spelled out, and one for the root byte where
      the text ends in an empty label of its own, which only an irregular text does. */
  lemma {:induction false} EveryLabelIsMarked(m: seq<byte>, ix: seq<int>, t: seq<byte>, at: nat)
    requires Encode(m, ix, t, at).Some?
    ensures var e := Encode(m, ix, t, at).value;
            && e.literals <= |e.marks| <= e.literals + 1
            && (Regular(t) || e.target.Some? ==> |e.marks| == e.literals)
    decreases |t|
  {
    hide *;
    var p := Scan(t);
    RegularRest(t);
    if t == [] || Lookup(m, ix, t).Some? || (p.lab == [] && p.rest == []) {
      LastMarks(m, ix, t, at);
    } else {
      EncodeStep(m, ix, t, at);
      EveryLabelIsMarked(m, ix, p.rest, at + 1 + |p.lab|);
    }
  }

  lemma RegularRest(t: seq<byte>)
    ensures Regular(t) && t != [] ==> Scan(t).lab != [] && Regular(Scan(t).rest)
  {
  }

  lemma LastMarks(m: seq<byte>, ix: seq<int>, t: seq<byte>, at: nat)
    requires t == [] || Lookup(m, ix, t).Some? || (Scan(t).lab == [] && Scan(t).rest == [])
    ensures Encode(m, ix, t, at).Some?
    ensures var e := Encode(m, ix, t, at).value;
            && e.literals == 0 && |e.marks| <= 1
            && (e.marks != [] ==> t != [] && Scan(t).lab == [] && e.target.None?)
  {
  }

  /** For a regular text, no label is spelled out while an entry names it and what follows it. */
  lemma {:induction false} EarliestPointer(m: seq<byte>, ix: seq<int>, t: seq<byte>, at: nat, j: nat, i: nat)
    requires IndexOk(m, ix) && Encode(m, ix, t, at).Some? && Regular(t)
    requires Parse(t).Some? && j < Encode(m, ix, t, at).value.literals && j < |Parse(t).value| && i < |ix|
    ensures Known(m, ix[i]) != Some(Parse(t).value[j..])
    decreases |t|
  {
    var ls := Parse(t).value;
    if j == 0 {
      LookupIsExact(m, ix, t);
      assert ls[0..] == ls;
    } else {
      var p := Scan(t);
      EarliestPointer(m, ix, p.rest, at + 1 + |p.lab|, j - 1, i);
      assert ls[j..] == Parse(p.rest).value[j - 1..];
    }
  }

  /** No choice of an entry and of the labels to spell out before it takes fewer than `size` bytes. */
  predicate Shortest(m: seq<byte>, ix: seq<int>, size: nat, ls: seq<Label>)
    requires GoodLabels(ls)
  {
    forall i, j | 0 <= i < |ix| && 0 <= j < |ls| && StandsFor(m, ix[i], ls[j..]) ::
      size <= |LabelBytes(ls[..j])| + 2
  }

  /** Some entry stands for `ls` or its last labels. */
  predicate EntryHelps(m: seq<byte>, ix: seq<int>, ls: seq<Label>)
  {
    exists i, j :: 0 <= i < |ix| && 0 <= j < |ls| && StandsFor(m, ix[i], ls[j..])
  }

  /** For an irregular text no pointer is ever written. */
  lemma {:induction false} IrregularNeverPoints(m: seq<byte>, ix: seq<int>, t: seq<byte>, at: nat)
    requires IndexOk(m, ix) && Encode(m, ix, t, at).Some? && !Regular(t)
    ensures Encode(m, ix, t, at).value.target.None?
    decreases |t|
  {
    LookupIsExact(m, ix, t);
    var p := Scan(t);
    if p.lab != [] || p.rest != [] {
      EncodeStep(m, ix, t, at);
      if p.stop.Dot? {
        IrregularNeverPoints(m, ix, p.rest, at + 1 + |p.lab|);
      }
    }
  }

  /** When compression is maximal: exactly for the regular texts, and where no entry helps anyway.
      And a pointer is used exactly when the encoding is shorter than plain labels. */
  lemma CompressionIsMaximal(m: seq<byte>, ix: seq<int>, t: seq<byte>, at: nat)
    requires IndexOk(m, ix) && Encode(m, ix, t, at).Some?
    ensures Parse(t).Some?
    ensures var e := Encode(m, ix, t, at).value;
            var ls := Parse(t).value;
            && |e.bytes| <= |LabelBytes(ls)| + 1
            && (|e.bytes| < |LabelBytes(ls)| + 1 <==> e.target.Some?)
            && (Shortest(m, ix, |e.bytes|, ls) <==> Regular(t) || !EntryHelps(m, ix, ls))
  {
    EncodeShape(m, ix, t, at);
    var e := Encode(m, ix, t, at).value;
    var ls := Parse(t).value;
    ShapeSize(m, ix, e, ls);
    if Regular(t) {
      RegularIsShortest(m, ix, t, at);
    } else if EntryHelps(m, ix, ls) {
      IrregularNeverPoints(m, ix, t, at);
      var i, j :| 0 <= i < |ix| && 0 <= j < |ls| && StandsFor(m, ix[i], ls[j..]);
      PrefixSize(ls, j, |ls|);
      assert ls[..|ls|] == ls;
    }
  }

  lemma RegularIsShortest(m: seq<byte>, ix: seq<int>, t: seq<byte>, at: nat)
    requires IndexOk(m, ix) && Encode(m, ix, t, at).Some? && Regular(t) && Parse(t).Some?
    ensures Shortest(m, ix, |Encode(m, ix, t, at).value.bytes|, Parse(t).value)
  {
    EncodeShape(m, ix, t, at);
    var e := Encode(m, ix, t, at).value;
    var ls := Parse(t).value;
    ShapeSize(m, ix, e, ls);
    forall i, j | 0 <= i < |ix| && 0 <= j < |ls| && StandsFor(m, ix[i], ls[j..])
      ensures |e.bytes| <= |LabelBytes(ls[..j])| + 2
    {
      if j < e.literals {
        EarliestPointer(m, ix, t, at, j, i);
        assert false;
      }
      PrefixSize(ls, e.literals, j);
    }
  }

  lemma PrefixSize(ls: seq<Label>, k: nat, j: nat)
    requires GoodLabels(ls) && k <= j <= |ls|
    ensures |LabelBytes(ls[..j])| >= |LabelBytes(ls[..k])| + if k < j then 2 else 0
  {
    assert ls[..j] == ls[..k] + ls[k..j];
    LabelBytesAppend(ls[..k], ls[k..j]);
    if k < j {
      LabelBytesNonempty(ls[k..j]);
    }
  }

  lemma ShapeSize(m: seq<byte>, ix: seq<int>, e: Encoded, ls: seq<Label>)
    requires GoodLabels(ls) && Shape(m, ix, e, ls)
    ensures |e.bytes| == |LabelBytes(ls[..e.literals])| + if e.target.Some? then 2 else 1
    ensures |e.bytes| <= |LabelBytes(ls)| + 1
    ensures |e.bytes| < |LabelBytes(ls)| + 1 <==> e.target.Some?
  {
    PrefixSize(ls, e.literals, |ls|);
    assert ls[..|ls|] == ls;
  }

  /** The failing case, an irregular text: with "a" already in the message, "a.." is spelled out
      again although it stands for the same labels. */
  lemma IrregularMissesIndex()
    ensures var m: seq<byte> := [1, 97, 0];
            && IndexOk(m, [0])
            && Encode(m, [0], [97], 3).Some? && Encode(m, [0], [97], 3).value.bytes == PointerBytes(0)
            && Encode(m, [0], [97, DOT, DOT], 3).Some?
            && Encode(m, [0], [97, DOT, DOT], 3).value.bytes == m
            && Parse([97, DOT, DOT]) == Parse([97]) == Known(m, 0)
            && !Shortest(m, [0], |m|, [[97]])
  {
    var m: seq<byte> := [1, 97, 0];
    var u: seq<byte> := [97, DOT, DOT];
    LoneName();
    assert Encode(m, [0], [97], 3) == Some(Encoded(PointerBytes(0), [], 0, Some(0)));
    assert u[1..] == [DOT, DOT] && u[1..][1..] == [DOT];
    assert Scan(u[1..]) == Piece([], [DOT], Dot);
    assert Scan(u) == Piece([97], [DOT], Dot);
    assert Scan([DOT]) == Piece([], [], Dot);
    assert Parse([DOT]) == Some([]);
    ParseStep(u);
    assert !Reads([DOT], []) && !Reads([DOT], [[97]]) && !Reads(u, [[97]]);
    LookupNothing(m, [0], u);
    LookupNothing(m, [0], [DOT]);
    assert Encode(m, [0], [DOT], 5) == Some(Encoded([0], [5], 0, None));
    EncodeStep(m, [0], u, 3);
    assert StandsFor(m, [0][0], [[97]][0..]) && LabelBytes([[97]][..0]) == [];
  }

  /** A message that holds the name "a" and an index of it. */
  lemma LoneName()
    ensures var m: seq<byte> := [1, 97, 0];
            && Known(m, 0) == Some([[97]]) && IndexOk(m, [0])
            && Scan([97]) == Piece([97], [], End) && Parse([97]) == Some([[97]])
            && Lookup(m, [0], [97]) == Some(0)
  {
    var m: seq<byte> := [1, 97, 0];
    var a: seq<byte> := [97];
    assert m[1..2] == a;
    assert Resolve(m, 0, |m|, 2) == Some([]);
    ResolveStep(m, 0, 0, a);
    assert [a] + [] == [a];
    assert Scan(a[1..]) == Piece([], [], End);
    assert Scan(a) == Piece(a, [], End);
    ParseStep(a);
    assert Reads(a, [a]);
  }
}
