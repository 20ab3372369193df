/** A message under construction: any run of `dn_comp` calls that share one list, with other bytes
    written in between. What the run keeps, and what it is for: every name expands to itself. */
module Session {
  import opened Wrappers
  import opened Wire
  import opened NameText
  import opened WireName
  import opened Expand
  import opened SkipName
  import opened NameIndex
  import opened Encoding
  import opened Compress

  /** A name that was written: where, from which text, and in how many bytes. */
  datatype Placed = Placed(at: nat, text: seq<byte>, size: nat)

  /** The message so far, the list, and the names written. */
  datatype State = State(msg: seq<byte>, list: seq<int>, names: seq<Placed>)

  /** A write: other bytes; a call with the list that succeeds or fails; one without a list. */
  datatype Op = Raw(bytes: seq<byte>) | AddName(text: seq<byte>) | AddAlone(text: seq<byte>)
              | Refused(text: seq<byte>, length: int)

  /** The pointer of the encoding, if it has one, keeps its offset, which `dn_comp` does not check. */
  predicate LowTarget(e: Encoded)
  {
    e.target.Some? ==> e.target.value < 0x4000
  }

  /** The name `t` is added to the message with the encoding `e`; `kept` goes on the list. */
  predicate Added(s: State, t: seq<byte>, e: Option<Encoded>, kept: seq<int>, s': State)
  {
    && e.Some?
    && s' == State(s.msg + e.value.bytes, s.list + kept, s.names + [Placed(|s.msg|, t, |e.value.bytes|)])
  }

  /** One write. Of the calls that fail, those count that leave the list as it was: all, except where
      a pointer found no room after some label went on the list. */
  predicate Step(s: State, op: Op, s': State, last: Option<nat>)
  {
    match op
    case Raw(bytes) => s' == s.(msg := s.msg + bytes)
    case AddName(t) =>
      var e := Encode(s.msg, s.list, t, |s.msg|);
      && 0 !in t && e.Some? && LowTarget(e.value)
      && Added(s, t, e, Kept(s.list, e.value.marks, last), s')
    case AddAlone(t) =>
      0 !in t && Added(s, t, Encode(s.msg, [], t, |s.msg|), [], s')
    case Refused(t, length) =>
      var e := Encode(s.msg, s.list, t, |s.msg|);
      && !Fits(e, length) && (LeavesList(e, length) ==> Kept(s.list, e.value.marks, last) == [])
      && s' == s
  }

  /** Every call with a list is such a step, seen through the contract of `DnComp`, if it leaves what
      a step may leave: `before` and `after` are the whole buffer, of which the message is the first
      `comp` bytes, and those of the name when there is one. */
  lemma CallIsStep(before: seq<byte>, after: seq<byte>, comp: nat, length: int, t: seq<byte>,
                   was: seq<int>, now: seq<int>, last: Option<nat>, r: int, names: seq<Placed>)
    requires comp <= |before| && comp + length <= |before| && 0 !in t
    requires was != [] && was[0] != NULL && IsList(was)
    requires Composed(t, before, after, comp, length, was, now, last, r)
    requires var e := Encode(before[..comp], Names(was), t, comp);
             if r >= 0 then LowTarget(e.value)
             else LeavesList(e, length) ==> Kept(Names(was), e.value.marks, last) == []
    ensures && IsList(now) && (r >= 0 ==> comp + r <= |after|) && comp <= |after|
            && Step(State(before[..comp], Names(was), names),
                    if r >= 0 then AddName(t) else Refused(t, length),
                    State(after[..if r >= 0 then comp + r else comp], Names(now),
                          names + if r >= 0 then [Placed(comp, t, r)] else []), last)
  {
    SearchedNames(was);
    ListResultNames(was, now, Encode(before[..comp], Names(was), t, comp), length, last);
    if r >= 0 {
      var bytes := Encode(before[..comp], Searched(was), t, comp).value.bytes;
      assert after[..comp + |bytes|] == before[..comp] + bytes;
    } else {
      assert after[..comp] == before[..comp];
      assert Names(was) + [] == Names(was) && names + [] == names;
    }
  }

  /** And every successful call without a list, whatever list the other calls share. */
  lemma LoneCallIsStep(before: seq<byte>, after: seq<byte>, comp: nat, length: int, t: seq<byte>,
                       was: seq<int>, last: Option<nat>, r: int, list: seq<int>, names: seq<Placed>)
    requires comp <= |before| && comp + length <= |before| && 0 !in t
    requires (was == [] || was[0] == NULL) && r >= 0
    requires Composed(t, before, after, comp, length, was, was, last, r)
    ensures && comp + r <= |after|
            && Step(State(before[..comp], list, names), AddAlone(t),
                    State(after[..comp + r], list, names + [Placed(comp, t, r)]), last)
  {
    SearchedNames(was);
    var bytes := Encode(before[..comp], [], t, comp).value.bytes;
    assert after[..comp + |bytes|] == before[..comp] + bytes;
    assert list + [] == list;
  }

  // ----- the invariant

  /** The name stands for what its text says, in the bytes it was given. */
  predicate NameOk(m: seq<byte>, n: Placed)
  {
    && Parse(n.text).Some? && Known(m, n.at) == Parse(n.text)
    && Skip(m, |m|, n.at) == Some(n.size)
  }

  /** `e` is the place of the `j`-th label of the name, or of its root byte, in the bytes that were
      written for it, and it stands for the labels from there on. */
  predicate IsMark(m: seq<byte>, e: int, n: Placed, j: nat)
  {
    && Parse(n.text).Some? && j <= |Parse(n.text).value|
    && e == n.at + |LabelBytes(Parse(n.text).value[..j])| < n.at + n.size <= |m|
    && m[e] <= MAXLABEL
    && StandsFor(m, e, Parse(n.text).value[j..])
  }

  /** The entry is a mark of a name that was written. */
  ghost predicate EntryOk(m: seq<byte>, e: int, names: seq<Placed>)
  {
    exists k, j: nat :: 0 <= k < |names| && IsMark(m, e, names[k], j)
  }

  ghost predicate Inv(s: State)
  {
    && IndexOk(s.msg, s.list)
    && (forall k :: 0 <= k < |s.names| ==> NameOk(s.msg, s.names[k]))
    && (forall i :: 0 <= i < |s.list| ==> EntryOk(s.msg, s.list[i], s.names))
  }

  lemma InitInv()
    ensures Inv(State([], [], []))
  {
  }

  /** The size of a name is not changed by what comes after it. */
  lemma {:induction false} SkipGrows(m: seq<byte>, m': seq<byte>, start: nat, pos: nat)
    requires start <= pos && m <= m' && Resolve(m, start, |m|, pos).Some?
    ensures Skip(m', |m'|, pos) == Skip(m, |m|, pos)
    decreases |m| - pos
  {
    assert m[pos] == m'[pos];
    if IsLabel(m[pos]) {
      SkipGrows(m, m', start, pos + 1 + m[pos]);
    }
  }

  lemma NameGrows(m: seq<byte>, m': seq<byte>, n: Placed)
    requires m <= m' && NameOk(m, n)
    ensures NameOk(m', n)
  {
    KnownGrows(m, m', n.at);
    SkipGrows(m, m', n.at, n.at);
  }

  lemma EntryGrows(m: seq<byte>, m': seq<byte>, e: int, names: seq<Placed>, more: seq<Placed>)
    requires m <= m' && EntryOk(m, e, names)
    ensures EntryOk(m', e, names + more)
  {
    var k, j: nat :| 0 <= k < |names| && IsMark(m, e, names[k], j);
    KnownGrows(m, m', e);
    assert (names + more)[k] == names[k];
    assert IsMark(m', e, (names + more)[k], j);
  }

  /** Growth alone keeps the invariant. */
  lemma InvGrows(s: State, more: seq<byte>)
    requires Inv(s)
    ensures Inv(s.(msg := s.msg + more))
  {
    var m' := s.msg + more;
    assert s.msg <= m';
    IndexGrows(s.msg, m', s.list);
    forall k | 0 <= k < |s.names| ensures NameOk(m', s.names[k]) {
      NameGrows(s.msg, m', s.names[k]);
    }
    forall i | 0 <= i < |s.list| ensures EntryOk(m', s.list[i], s.names) {
      EntryGrows(s.msg, m', s.list[i], s.names, []);
      assert s.names + [] == s.names;
    }
  }

  lemma SkipStep(M: seq<byte>, pos: nat, l: Label)
    requires pos + 1 + |l| <= |M| && M[pos] == |l| && 1 <= |l| < 64
    ensures Skip(M, |M|, pos) == match Skip(M, |M|, pos + 1 + |l|)
                                 case None => None
                                 case Some(n) => Some(1 + |l| + n)
  {
  }

  lemma SkipEnd(m: seq<byte>, ix: seq<int>, t: seq<byte>, done: seq<byte>)
    requires t == [] || Lookup(m, ix, t).Some? || (Scan(t).lab == [] && Scan(t).rest == [])
    ensures Encode(m, ix, t, |m + done|).Some?
    ensures var bytes := Encode(m, ix, t, |m + done|).value.bytes;
            var M := m + done + bytes;
            Skip(M, |M|, |m + done|) == Some(|bytes|)
  {
    var e := Encode(m, ix, t, |m + done|).value;
    assert (m + done + e.bytes)[|m + done|] == e.bytes[0];
    if t != [] && Lookup(m, ix, t).Some? {
      PointerBytesAre(Lookup(m, ix, t).value);
    }
  }

  /** The encoding takes, where it stands, the bytes that `dn_comp` returns. */
  lemma {:induction false} EncodeSkips(m: seq<byte>, ix: seq<int>, t: seq<byte>, done: seq<byte>)
    requires Encode(m, ix, t, |m + done|).Some?
    ensures var bytes := Encode(m, ix, t, |m + done|).value.bytes;
            var M := m + done + bytes;
            Skip(M, |M|, |m + done|) == Some(|bytes|)
    decreases |t|
  {
    hide *;
    var at := |m + done|;
    var p := Scan(t);
    if t == [] || Lookup(m, ix, t).Some? || (p.lab == [] && p.rest == []) {
      SkipEnd(m, ix, t, done);
    } else {
      EncodeStep(m, ix, t, at);
      var done' := done + [|p.lab|] + p.lab;
      assert |m + done'| == at + 1 + |p.lab|;
      EncodeSkips(m, ix, p.rest, done');
      var bytes := Encode(m, ix, p.rest, at + 1 + |p.lab|).value.bytes;
      var M := m + done' + bytes;
      assert M == m + done + ([|p.lab|] + p.lab + bytes);
      SkipStep(M, at, p.lab);
    }
  }

  /** What one more name brings: it means its text, and its marks are marks of it. */
  lemma NewName(m: seq<byte>, list: seq<int>, t: seq<byte>)
    requires IndexOk(m, list) && 0 !in t
    requires Encode(m, list, t, |m|).Some? && LowTarget(Encode(m, list, t, |m|).value)
    ensures var e := Encode(m, list, t, |m|).value;
            var m', n := m + e.bytes, Placed(|m|, t, |e.bytes|);
            && Parse(t).Some? && NulFree(Parse(t).value)
            && NameOk(m', n)
            && |e.marks| <= |Parse(t).value| + 1
            && forall j: nat :: j < |e.marks| ==> IsMark(m', e.marks[j], n, j)
  {
    var e := Encode(m, list, t, |m|).value;
    var m' := m + e.bytes;
    assert m + [] == m;
    EncodeMeans(m, list, t, []);
    EncodeSkips(m, list, t, []);
    forall j: nat | j < |e.marks| ensures IsMark(m', e.marks[j], Placed(|m|, t, |e.bytes|), j) {
      assert Resolve(m', |m|, |m'|, e.marks[j]) == Some(Parse(t).value[j..]);
      ResolveFromInside(m', |m|, e.marks[j], |m'|, e.marks[j]);
      MarksArePlaces(m, list, t, |m|, j);
    }
  }

  lemma NulFreeSuffix(ls: seq<Label>, j: nat)
    requires NulFree(ls) && j <= |ls|
    ensures NulFree(ls[j..])
  {
  }

  lemma KeptPrefix(list: seq<int>, marks: seq<int>, last: Option<nat>)
    ensures |Kept(list, marks, last)| <= |marks|
    ensures Kept(list, marks, last) == marks[..|Kept(list, marks, last)|]
  {
  }

  /** All that the invariant says of one entry. */
  ghost predicate EntryGood(m: seq<byte>, e: int, names: seq<Placed>)
  {
    && 0 <= e < |m| && Known(m, e).Some? && NulFree(Known(m, e).value)
    && EntryOk(m, e, names)
  }

  lemma InvIs(s: State)
    ensures Inv(s) <==>
            && (forall k :: 0 <= k < |s.names| ==> NameOk(s.msg, s.names[k]))
            && (forall i :: 0 <= i < |s.list| ==> EntryGood(s.msg, s.list[i], s.names))
  {
  }

  lemma EntryOfNewName(m: seq<byte>, e: int, n: Placed, j: nat, names: seq<Placed>)
    requires IsMark(m, e, n, j) && NulFree(Parse(n.text).value)
    ensures EntryGood(m, e, names + [n])
  {
    assert (names + [n])[|names|] == n;
    NulFreeSuffix(Parse(n.text).value, j);
  }

  lemma EntryOfMoreNames(m: seq<byte>, e: int, names: seq<Placed>, more: seq<Placed>)
    requires EntryGood(m, e, names)
    ensures EntryGood(m, e, names + more)
  {
    EntryGrows(m, m, e, names, more);
  }

  /** A name is added that was encoded against `ix`, and some of its first marks are kept. */
  lemma AddedKeepsInv(s: State, ix: seq<int>, t: seq<byte>, kept: nat, s': State)
    requires Inv(s) && 0 !in t && (ix == s.list || ix == [])
    requires var e := Encode(s.msg, ix, t, |s.msg|);
             && e.Some? && LowTarget(e.value) && kept <= |e.value.marks|
             && Added(s, t, e, e.value.marks[..kept], s')
    ensures Inv(s')
  {
    IndexOfInv(s);
    AddedIs(s, t, Encode(s.msg, ix, t, |s.msg|), Encode(s.msg, ix, t, |s.msg|).value.marks[..kept], s');
    hide *;
    var e := Encode(s.msg, ix, t, |s.msg|).value;
    var n := Placed(|s.msg|, t, |e.bytes|);
    InvGrows(s, e.bytes);
    InvIs(s.(msg := s'.msg));
    NewName(s.msg, ix, t);
    forall i | 0 <= i < |s'.list| ensures EntryGood(s'.msg, s'.list[i], s'.names) {
      if i < |s.list| {
        EntryOfMoreNames(s'.msg, s.list[i], s.names, [n]);
      } else {
        EntryOfNewName(s'.msg, e.marks[i - |s.list|], n, i - |s.list|, s.names);
      }
    }
    InvIs(s');
  }

  lemma IndexOfInv(s: State)
    requires Inv(s)
    ensures IndexOk(s.msg, s.list) && IndexOk(s.msg, [])
  {
  }

  lemma AddedIs(s: State, t: seq<byte>, e: Option<Encoded>, kept: seq<int>, s': State)
    requires Added(s, t, e, kept, s')
    ensures e.Some?
    ensures s' == State(s.msg + e.value.bytes, s.list + kept, s.names + [Placed(|s.msg|, t, |e.value.bytes|)])
  {
  }

  lemma AloneNeverPoints(m: seq<byte>, t: seq<byte>, at: nat)
    requires Encode(m, [], t, at).Some?
    ensures LowTarget(Encode(m, [], t, at).value)
  {
    EncodeShape(m, [], t, at);
  }

  lemma StepKeepsInv(s: State, op: Op, s': State, last: Option<nat>)
    requires Inv(s) && Step(s, op, s', last)
    ensures Inv(s')
  {
    match op
    case Raw(bytes) => InvGrows(s, bytes);
    case AddName(t) =>
      var marks := Encode(s.msg, s.list, t, |s.msg|).value.marks;
      KeptPrefix(s.list, marks, last);
      AddedKeepsInv(s, s.list, t, |Kept(s.list, marks, last)|, s');
    case AddAlone(t) =>
      AloneNeverPoints(s.msg, t, |s.msg|);
      AddedKeepsInv(s, [], t, 0, s');
    case Refused(_, _) =>
  }

  // ----- whole runs

  /** `ss` are the states of a run of the writes `ops` from an empty message. */
  predicate IsRun(ss: seq<State>, ops: seq<Op>, last: Option<nat>)
  {
    && |ss| == |ops| + 1 && ss[0] == State([], [], [])
    && forall i :: 0 <= i < |ops| ==> Step(ss[i], ops[i], ss[i + 1], last)
  }

  lemma {:induction false} RunKeepsInv(ss: seq<State>, ops: seq<Op>, last: Option<nat>, i: nat)
    requires IsRun(ss, ops, last) && i < |ss|
    ensures Inv(ss[i])
  {
    if i == 0 {
      InitInv();
    } else {
      RunKeepsInv(ss, ops, last, i - 1);
      StepKeepsInv(ss[i - 1], ops[i - 1], ss[i], last);
    }
  }

  /** Nothing that was written is ever changed. */
  lemma {:induction false} RunOnlyAdds(ss: seq<State>, ops: seq<Op>, last: Option<nat>, i: nat, k: nat)
    requires IsRun(ss, ops, last) && i <= k < |ss|
    ensures ss[i].msg <= ss[k].msg && ss[i].list <= ss[k].list && ss[i].names <= ss[k].names
    decreases k - i
  {
    if i < k {
      RunOnlyAdds(ss, ops, last, i, k - 1);
      assert Step(ss[k - 1], ops[k - 1], ss[k], last);
    }
  }

  /** What `rdn_expand` and `__dn_skipname` make of a name in a message with the invariant; `x` is
      whatever lies behind the message. */
  lemma NameExpands(m: seq<byte>, n: Placed, x: byte)
    requires NameOk(m, n)
    ensures Decode(m + [x], |m|, n.at, 0) == Some(Name(Parse(n.text).value, n.size))
    ensures Skip(m + [x], |m|, n.at) == Some(n.size)
  {
    assert m <= m + [x] && m[..|m|] == (m + [x])[..|m|];
    ResolveGrows(m, m + [x], n.at, |m|, |m|, n.at);
    ResolvedDecodes(m + [x], |m|, n.at, |m|, n.at, 0);
    SkipGrowsOne(m, x, n.at);
    SkipAgreesWithExpand(m + [x], |m|, n.at);
  }

  lemma {:induction false} SkipGrowsOne(m: seq<byte>, x: byte, pos: nat)
    ensures Skip(m + [x], |m|, pos) == Skip(m, |m|, pos)
    decreases if pos < |m| then |m| - pos else 0
  {
    if pos < |m| && m[pos] != 0 && m[pos] < 64 {
      SkipGrowsOne(m, x, pos + 1 + m[pos]);
    }
  }

  /** Every name of a run, read at any later time, expands to the labels of its own text, and its size
      is the one `dn_comp` returned. No later write disturbs it. As text, a canonical name comes back
      as it was given, and any other shorter; what comes back is a canonical spelling of the same
      labels exactly when no backslash was quoted. */
  lemma NamesComeBack(ss: seq<State>, ops: seq<Op>, last: Option<nat>, i: nat, k: nat, x: byte)
    requires IsRun(ss, ops, last) && i < |ops| && (ops[i].AddName? || ops[i].AddAlone?) && i < k < |ss|
    ensures var n := Placed(|ss[i].msg|, ops[i].text, |ss[i + 1].msg| - |ss[i].msg|);
            && n in ss[k].names
            && Parse(n.text).Some?
            && Decode(ss[k].msg + [x], |ss[k].msg|, n.at, 0) == Some(Name(Parse(n.text).value, n.size))
            && Skip(ss[k].msg + [x], |ss[k].msg|, n.at) == Some(n.size)
            && var back := Print(Parse(n.text).value);
            && (Canonical(n.text) ==> back == n.text)
            && (!Canonical(n.text) ==> |back| < |n.text|)
            && (Parse(back) == Parse(n.text) <==> !QuotesBackslash(n.text))
            && (!QuotesBackslash(n.text) ==> Canonical(back))
  {
    assert Step(ss[i], ops[i], ss[i + 1], last);
    var n := Placed(|ss[i].msg|, ops[i].text, |ss[i + 1].msg| - |ss[i].msg|);
    assert ss[i + 1].names[|ss[i].names|] == n;
    RunOnlyAdds(ss, ops, last, i + 1, k);
    assert ss[k].names[|ss[i].names|] == n;
    RunKeepsInv(ss, ops, last, k);
    NameExpands(ss[k].msg, n, x);
    ParseThenPrint(n.text);
  }

  /** Why the exit that does not restore the list matters: its entries break the invariant. Here a
      call for "b.a" runs out of room at the pointer; it leaves an entry for "b", whose next byte,
      when the caller goes on with other data, starts no name. */
  lemma StaleEntry()
    ensures var m: seq<byte> := [1, 97, 0];
            var t: seq<byte> := [98, DOT, 97];
            var e := Encode(m, [0], t, 3);
            && LeavesList(e, 3) && Kept([0], e.value.marks, Some(10)) == [3]
            && IndexOk(m, [0]) && !IndexOk(m + [1, 98] + [0x40], [0, 3])
  {
    var m: seq<byte> := [1, 97, 0];
    var t: seq<byte> := [98, DOT, 97];
    LoneName();
    assert t[1..] == [DOT, 97] && t[1..][1..] == [97];
    assert Scan(t[1..]) == Piece([], [97], Dot);
    assert Scan(t) == Piece([98], [97], Dot);
    assert !Reads(t, [[97]]);
    LookupNothing(m, [0], t);
    assert Encode(m, [0], [97], 5) == Some(Encoded(PointerBytes(0), [], 0, Some(0)));
    assert Encode(m, [0], t, 3) == Some(WithLabel([98], 3, Encoded(PointerBytes(0), [], 0, Some(0))));
    var M := m + [1, 98] + [0x40];
    assert Resolve(M, 3, |M|, 5).None?;
    assert Known(M, [0, 3][1]).None?;
  }
}
