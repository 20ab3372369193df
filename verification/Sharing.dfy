/** What the list is for: in a run whose list has room, every name that ends like an earlier one is
    written with a pointer. */
module Sharing {
  import opened Wrappers
  import opened Wire
  import opened NameText
  import opened NameIndex
  import opened Encoding
  import opened Compress
  import opened Session

  /** Some entry of the list stands for these labels. */
  predicate HasEntry(m: seq<byte>, list: seq<int>, ls: seq<Label>)
  {
    exists i :: 0 <= i < |list| && StandsFor(m, list[i], ls)
  }

  /** Every tail of `ls` that is not empty has an entry. */
  ghost predicate TailsListed(m: seq<byte>, list: seq<int>, ls: seq<Label>)
  {
    forall p: nat :: p < |ls| ==> HasEntry(m, list, ls[p..])
  }

  /** With an entry the list has those for the tails of what it stands for. */
  ghost predicate Closed(s: State)
  {
    forall i, ls :: 0 <= i < |s.list| && StandsFor(s.msg, s.list[i], ls) ==> TailsListed(s.msg, s.list, ls)
  }

  /** The list has room for the marks of the name and the closing NULL below `last`. */
  predicate Room(s: State, op: Op, last: Option<nat>)
  {
    op.AddName? ==>
      var e := Encode(s.msg, s.list, op.text, |s.msg|);
      e.Some? ==> last.Some? && |s.list| + |e.value.marks| + 2 <= last.value
  }

  lemma KeptWithRoom(names: seq<int>, marks: seq<int>, last: Option<nat>)
    requires last.Some? && |names| + |marks| + 2 <= last.value
    ensures Kept(names, marks, last) == marks
  {
  }

  lemma EntryStays(m: seq<byte>, m': seq<byte>, list: seq<int>, list': seq<int>, ls: seq<Label>)
    requires m <= m' && list <= list' && HasEntry(m, list, ls)
    ensures HasEntry(m', list', ls)
  {
    var i :| 0 <= i < |list| && StandsFor(m, list[i], ls);
    KnownGrows(m, m', list[i]);
    assert list'[i] == list[i] && StandsFor(m', list'[i], ls);
  }

  lemma TailsStay(m: seq<byte>, m': seq<byte>, list: seq<int>, list': seq<int>, ls: seq<Label>)
    requires m <= m' && list <= list' && TailsListed(m, list, ls)
    ensures TailsListed(m', list', ls)
  {
    forall p: nat | p < |ls| ensures HasEntry(m', list', ls[p..]) {
      EntryStays(m, m', list, list', ls[p..]);
    }
  }

  lemma TailsOfTail(m: seq<byte>, list: seq<int>, ls: seq<Label>, j: nat)
    requires j <= |ls| && TailsListed(m, list, ls)
    ensures TailsListed(m, list, ls[j..])
  {
    forall p: nat | p < |ls[j..]| ensures HasEntry(m, list, ls[j..][p..]) {
      assert ls[j..][p..] == ls[j + p..];
    }
  }

  /** Growth alone keeps the list closed. */
  lemma ClosedGrows(s: State, more: seq<byte>)
    requires Inv(s) && Closed(s)
    ensures Closed(s.(msg := s.msg + more))
  {
    var m' := s.msg + more;
    forall i, ls | 0 <= i < |s.list| && StandsFor(m', s.list[i], ls) ensures TailsListed(m', s.list, ls) {
      KnownGrows(s.msg, m', s.list[i]);
      assert StandsFor(s.msg, s.list[i], ls);
      TailsStay(s.msg, m', s.list, s.list, ls);
    }
  }

  /** A name that was added with room: all its tails have entries now, those that were spelled out
      by its own marks, the others because the list was closed. */
  lemma TailsOfNewName(s: State, t: seq<byte>, s': State, last: Option<nat>)
    requires Inv(s) && Closed(s) && Step(s, AddName(t), s', last) && Room(s, AddName(t), last)
    ensures Parse(t).Some? && TailsListed(s'.msg, s'.list, Parse(t).value)
  {
    var e := Encode(s.msg, s.list, t, |s.msg|).value;
    KeptWithRoom(s.list, e.marks, last);
    NewName(s.msg, s.list, t);
    var ls := Parse(t).value;
    EncodeShape(s.msg, s.list, t, |s.msg|);
    EveryLabelIsMarked(s.msg, s.list, t, |s.msg|);
    forall p: nat | p < |ls| ensures HasEntry(s'.msg, s'.list, ls[p..]) {
      if p < e.literals {
        assert IsMark(s'.msg, e.marks[p], Placed(|s.msg|, t, |e.bytes|), p);
        assert s'.list[|s.list| + p] == e.marks[p];
      } else {
        TargetTails(s, e, ls, p);
        EntryStays(s.msg, s'.msg, s.list, s'.list, ls[p..]);
      }
    }
  }

  /** The labels behind the pointer have entries, as the entry pointed to has. */
  lemma TargetTails(s: State, e: Encoded, ls: seq<Label>, p: nat)
    requires Closed(s) && GoodLabels(ls) && Shape(s.msg, s.list, e, ls) && e.literals <= p < |ls|
    ensures HasEntry(s.msg, s.list, ls[p..])
  {
    var i :| 0 <= i < |s.list| && s.list[i] == e.target.value;
    assert StandsFor(s.msg, s.list[i], ls[e.literals..]);
    assert TailsListed(s.msg, s.list, ls[e.literals..]);
    assert ls[e.literals..][p - e.literals..] == ls[p..];
  }

  lemma StepKeepsClosed(s: State, op: Op, s': State, last: Option<nat>)
    requires Inv(s) && Closed(s) && Step(s, op, s', last) && Room(s, op, last)
    ensures Closed(s')
  {
    match op
    case Raw(bytes) => ClosedGrows(s, bytes);
    case AddAlone(t) =>
      ClosedGrows(s, Encode(s.msg, [], t, |s.msg|).value.bytes);
      assert s.list + [] == s.list;
    case Refused(_, _) =>
    case AddName(t) =>
      TailsOfNewName(s, t, s', last);
      NewEntriesClosed(s, t, s', last);
  }

  lemma NewEntriesClosed(s: State, t: seq<byte>, s': State, last: Option<nat>)
    requires Inv(s) && Closed(s) && Step(s, AddName(t), s', last) && Room(s, AddName(t), last)
    requires Parse(t).Some? && TailsListed(s'.msg, s'.list, Parse(t).value)
    ensures Closed(s')
  {
    var e := Encode(s.msg, s.list, t, |s.msg|).value;
    KeptWithRoom(s.list, e.marks, last);
    NewName(s.msg, s.list, t);
    forall i, ls | 0 <= i < |s'.list| && StandsFor(s'.msg, s'.list[i], ls) ensures TailsListed(s'.msg, s'.list, ls) {
      if i < |s.list| {
        KnownGrows(s.msg, s'.msg, s.list[i]);
        assert StandsFor(s.msg, s.list[i], ls);
        TailsStay(s.msg, s'.msg, s.list, s'.list, ls);
      } else {
        var j: nat := i - |s.list|;
        assert IsMark(s'.msg, e.marks[j], Placed(|s.msg|, t, |e.bytes|), j);
        TailsOfTail(s'.msg, s'.list, Parse(t).value, j);
      }
    }
  }

  // ----- whole runs

  predicate RoomyUntil(ss: seq<State>, ops: seq<Op>, last: Option<nat>, k: nat)
    requires k <= |ops| < |ss|
  {
    forall i :: 0 <= i < k ==> Room(ss[i], ops[i], last)
  }

  lemma {:induction false} RunKeepsClosed(ss: seq<State>, ops: seq<Op>, last: Option<nat>, k: nat)
    requires IsRun(ss, ops, last) && k <= |ops| && RoomyUntil(ss, ops, last, k)
    ensures Closed(ss[k])
  {
    if k > 0 {
      RunKeepsClosed(ss, ops, last, k - 1);
      RunKeepsInv(ss, ops, last, k - 1);
      StepKeepsClosed(ss[k - 1], ops[k - 1], ss[k], last);
    }
  }

  /** Every tail of every name that was written with the list has an entry from then on. */
  lemma TailsAreListed(ss: seq<State>, ops: seq<Op>, last: Option<nat>, i: nat, k: nat)
    requires IsRun(ss, ops, last) && i < |ops| && ops[i].AddName? && i < k < |ss|
    requires RoomyUntil(ss, ops, last, i + 1)
    ensures Parse(ops[i].text).Some?
    ensures TailsListed(ss[k].msg, ss[k].list, Parse(ops[i].text).value)
  {
    RunKeepsClosed(ss, ops, last, i);
    RunKeepsInv(ss, ops, last, i);
    assert Step(ss[i], ops[i], ss[i + 1], last) && Room(ss[i], ops[i], last);
    TailsOfNewName(ss[i], ops[i].text, ss[i + 1], last);
    RunOnlyAdds(ss, ops, last, i + 1, k);
    TailsStay(ss[i + 1].msg, ss[k].msg, ss[i + 1].list, ss[k].list, Parse(ops[i].text).value);
  }

  /** So a regular text that ends in a label with which an earlier name ends is written with a pointer,
      and takes no more than the labels in front of what they share and two bytes. */
  lemma SharedTailIsPointedTo(ss: seq<State>, ops: seq<Op>, last: Option<nat>, i: nat, k: nat,
                              t: seq<byte>, at: nat, p: nat, q: nat)
    requires IsRun(ss, ops, last) && i < |ops| && ops[i].AddName? && i < k < |ss|
    requires RoomyUntil(ss, ops, last, i + 1)
    requires Parse(ops[i].text).Some? && p < |Parse(ops[i].text).value|
    requires Regular(t) && Parse(t).Some? && q < |Parse(t).value|
    requires Parse(t).value[q..] == Parse(ops[i].text).value[p..]
    ensures var e := Encode(ss[k].msg, ss[k].list, t, at);
            && e.Some? && e.value.target.Some?
            && |e.value.bytes| <= |LabelBytes(Parse(t).value[..q])| + 2
  {
    TailsAreListed(ss, ops, last, i, k);
    RunKeepsInv(ss, ops, last, k);
    var m, list, ls := ss[k].msg, ss[k].list, Parse(t).value;
    EncodeIffParse(m, list, t, at);
    CompressionIsMaximal(m, list, t, at);
    assert HasEntry(m, list, ls[q..]);
    var x :| 0 <= x < |list| && StandsFor(m, list[x], ls[q..]);
    PrefixSize(ls, q, |ls|);
    assert ls[..|ls|] == ls;
  }
}
