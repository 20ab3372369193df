/** `dn_comp` and `dn_find`: from a text to a compressed name in the message. */
module Compress {
  import opened Wrappers
  import opened Bits
  import opened Wire
  import opened NameText
  import opened WireName
  import opened Expand
  import opened NameIndex
  import opened Encoding

  // ----- dn_find

  /** A piece whose label has `l` in front. */
  function Behind(l: Label, p: Piece): Piece
  {
    Piece(l + p.lab, p.rest, p.stop)
  }

  lemma ScanNext(text: seq<byte>, i: nat)
    requires i <= |text|
    ensures i == |text| ==> Scan(text[i..]) == Piece([], [], End)
    ensures i < |text| && text[i] == DOT ==> Scan(text[i..]) == Piece([], text[i + 1..], Dot)
    ensures i < |text| && text[i] != DOT && text[i] != BACKSLASH ==>
              Scan(text[i..]) == Behind([text[i]], Scan(text[i + 1..]))
    ensures i + 1 < |text| && text[i] == BACKSLASH ==>
              Scan(text[i..]) == Behind([text[i + 1]], Scan(text[i + 2..]))
    ensures i + 1 == |text| && text[i] == BACKSLASH ==> Scan(text[i..]) == Piece([], [], Dangling)
  {
    var t := text[i..];
    if i < |text| {
      assert t[1..] == text[i + 1..];
      if i + 1 < |text| {
        assert t[2..] == text[i + 2..];
      }
    }
  }

  /** Where the next character of a label is, past a backslash that quotes it. */
  function Unquoted(text: seq<byte>, dn: nat): (i: nat)
    requires dn <= |text|
    ensures dn <= i <= |text|
  {
    if dn < |text| && text[dn] == BACKSLASH then dn + 1 else dn
  }

  lemma ScanUnquoted(text: seq<byte>, dn: nat)
    requires dn <= |text|
    ensures var i := Unquoted(text, dn);
            if CharAt(text, dn) == DOT || i == |text| then
              Scan(text[dn..]).lab == []
            else
              Scan(text[dn..]) == Behind([text[i]], Scan(text[i + 1..]))
  {
    ScanNext(text, dn);
  }

  lemma BehindBehind(a: Label, b: Label, p: Piece)
    ensures Behind(a, Behind(b, p)) == Behind(a + b, p)
  {
    assert a + (b + p.lab) == (a + b) + p.lab;
  }

  lemma Mismatch(done: Label, c: byte, more: Label, p: Piece)
    requires p.lab == [] || p.lab[0] != c
    ensures !(done + [c] + more <= Behind(done, p).lab)
  {
    var found := Behind(done, p).lab;
    assert (done + [c] + more)[|done|] == c;
    if p.lab != [] {
      assert found[|done|] == p.lab[0];
    }
  }

  /** Comparing one more byte of a label: the text agrees or the label is not what it spells. */
  lemma MatchNext(text: seq<byte>, dn: nat, done: Label, c: byte, more: Label)
    requires 0 !in text && dn <= |text| && c != 0
    ensures var i := Unquoted(text, dn);
            var seen := Behind(done, Scan(text[dn..]));
            if CharAt(text, dn) == DOT || CharAt(text, i) != c then
              !(done + [c] + more <= seen.lab)
            else
              i < |text| && seen == Behind(done + [c], Scan(text[i + 1..]))
  {
    ScanUnquoted(text, dn);
    var i := Unquoted(text, dn);
    if CharAt(text, dn) == DOT || CharAt(text, i) != c {
      Mismatch(done, c, more, Scan(text[dn..]));
    } else {
      BehindBehind(done, [c], Scan(text[i + 1..]));
    }
  }

  lemma CharAtUnquoted(text: seq<byte>, dn: nat)
    requires dn <= |text|
    ensures Unquoted(text, dn) == if CharAt(text, dn) == BACKSLASH then dn + 1 else dn
  {
  }

  lemma BehindNothing(p: Piece)
    ensures Behind([], p) == p
  {
  }

  lemma BehindStarts(l: Label, p: Piece)
    ensures l <= Behind(l, p).lab
  {
  }

  /** Compares the `count` bytes at `from` with the text from `start` on, unquoting the text.
      Returns the place after the matched text, or -1. */
  method MatchLabel(text: seq<byte>, start: nat, msg: array<byte>, from: nat, count: nat) returns (r: int)
    requires 0 !in text && start <= |text| && from + count <= msg.Length
    requires 0 !in msg[from..from + count]
    ensures r >= 0 <==> msg[from..from + count] <= Scan(text[start..]).lab
    ensures r >= 0 ==> start + count <= r <= |text|
    ensures r >= 0 ==> Scan(text[start..]) == Behind(msg[from..from + count], Scan(text[r..]))
  {
    hide *;
    ghost var l := msg[from..from + count];
    var n: int, dn, cp := count, start, from;
    BehindNothing(Scan(text[start..]));
    n := n - 1;
    while n >= 0
      invariant -1 <= n < count && cp == from + count - 1 - n
      invariant start <= dn <= |text| && dn - start >= cp - from
      invariant Scan(text[start..]) == Behind(l[..cp - from], Scan(text[dn..]))
      decreases n
    {
      ghost var k := cp - from;
      assert msg[cp] == l[k];
      MatchNext(text, dn, l[..k], l[k], l[k + 1..]);
      assert l == l[..k] + [l[k]] + l[k + 1..];
      assert l[..k + 1] == l[..k] + [l[k]];
      if CharAt(text, dn) == DOT {
        return -1;
      }
      CharAtUnquoted(text, dn);
      if CharAt(text, dn) == BACKSLASH {
        dn := dn + 1;
      }
      if CharAt(text, dn) != msg[cp] {
        return -1;
      }
      dn := dn + 1;
      cp := cp + 1;
      n := n - 1;
    }
    r := dn;
    assert l[..count] == l;
    BehindStarts(l, Scan(text[dn..]));
  }

  // What the comparison of an entry with a text comes down to, segment by segment.

  /** Whether the text is matched, `goal`, hangs on whether `t`, the text still to read, spells the
      labels from `cp` on; the run at `cp` was entered at `low` and stays below `high`. */
  ghost predicate Comparing(goal: bool, t: seq<byte>, m: seq<byte>, low: nat, high: nat, cp: nat)
  {
    && low <= cp < high <= |m|
    && Resolve(m, low, high, cp).Some? && NulFree(Resolve(m, low, high, cp).value)
    && (goal <==> Reads(t, Resolve(m, low, high, cp).value))
  }

  lemma ComparingEntry(t: seq<byte>, m: seq<byte>, entry: nat)
    requires Known(m, entry).Some? && NulFree(Known(m, entry).value)
    ensures entry < |m| && Comparing(Matches(m, entry, t), t, m, entry, |m|, entry)
  {
  }

  lemma AtRoot(goal: bool, t: seq<byte>, m: seq<byte>, low: nat, high: nat, cp: nat)
    requires Comparing(goal, t, m, low, high, cp) && cp < |m| && m[cp] == 0
    ensures goal <==> t == []
  {
  }

  lemma NotReserved(goal: bool, t: seq<byte>, m: seq<byte>, low: nat, high: nat, cp: nat)
    requires Comparing(goal, t, m, low, high, cp)
    ensures cp < |m| && (m[cp] < 64 || m[cp] >= 192)
  {
  }

  lemma AtPointer(goal: bool, t: seq<byte>, m: seq<byte>, low: nat, high: nat, cp: nat) returns (to: nat)
    requires Comparing(goal, t, m, low, high, cp) && cp < |m| && m[cp] >= 192
    ensures cp + 1 < |m| && to == Target(m, cp) < low
    ensures Comparing(goal, t, m, to, low, to)
  {
    to := Target(m, cp);
  }

  lemma AtLabel(goal: bool, t: seq<byte>, m: seq<byte>, low: nat, high: nat, cp: nat) returns (l: Label)
    requires Comparing(goal, t, m, low, high, cp) && cp < |m| && 1 <= m[cp] < 64
    ensures cp + 1 + m[cp] < |m| && l == m[cp + 1..cp + 1 + m[cp]] && 0 !in l
    ensures !(l <= Scan(t).lab) ==> !goal
  {
    var next := cp + 1 + m[cp];
    var ls := Resolve(m, low, high, cp).value;
    l := m[cp + 1..next];
    assert ls[0] == l;
  }

  /** At the end of a matched label, where `text[i..]` is still to read. */
  lemma AfterLabel(goal: bool, t: seq<byte>, m: seq<byte>, low: nat, high: nat, cp: nat,
                   text: seq<byte>, i: nat)
    requires Comparing(goal, t, m, low, high, cp) && cp < |m| && 1 <= m[cp] < 64
    requires cp + 1 + m[cp] < |m| && i <= |text| && 0 !in text
    requires Scan(t) == Behind(m[cp + 1..cp + 1 + m[cp]], Scan(text[i..]))
    ensures CharAt(text, i) == 0 ==> (goal <==> m[cp + 1 + m[cp]] == 0)
    ensures CharAt(text, i) != 0 && CharAt(text, i) != DOT ==> !goal
    ensures CharAt(text, i) == DOT ==> i < |text| && Comparing(goal, text[i + 1..], m, low, high, cp + 1 + m[cp])
  {
    var next := cp + 1 + m[cp];
    var ls := Resolve(m, low, high, next).value;
    var l := m[cp + 1..next];
    assert Resolve(m, low, high, cp).value == [l] + ls;
    assert ([l] + ls)[1..] == ls;
    ReadsAfterLabel(t, l, text[i..], ls);
    assert i < |text| ==> text[i..][1..] == text[i + 1..];
    assert NulFree(ls) by {
      assert forall j :: 0 <= j < |ls| ==> ls[j] == ([l] + ls)[j + 1];
    }
  }

  lemma ReadsAfterLabel(t: seq<byte>, l: Label, u: seq<byte>, ls: seq<Label>)
    requires l != [] && Scan(t) == Behind(l, Scan(u))
    ensures Reads(t, [l] + ls) <==>
            if u == [] then ls == []
            else if u[0] == DOT then Reads(u[1..], ls)
            else false
  {
    assert ([l] + ls)[1..] == ls;
    if u != [] && u[0] != DOT {
      if Scan(u).lab == [] {
        assert Scan(u).stop.Dangling?;
      } else {
        assert |l + Scan(u).lab| > |l|;
      }
    }
  }

  lemma TargetOfPrefix(m: seq<byte>, end: nat, at: nat)
    requires at + 1 < end <= |m|
    ensures Target(m, at) == Target(m[..end], at)
  {
  }

  /** Does the name at `entry` spell the text from `start` on? */
  method MatchEntry(text: seq<byte>, start: nat, msg: array<byte>, ghost end: nat, entry: nat) returns (b: bool)
    requires 0 !in text && start <= |text| && end <= msg.Length
    requires Known(msg[..end], entry).Some? && NulFree(Known(msg[..end], entry).value)
    ensures b <==> Matches(msg[..end], entry, text[start..])
  {
    hide *;
    ghost var m := msg[..end];
    ghost var goal := Matches(m, entry, text[start..]);
    ComparingEntry(text[start..], m, entry);
    ghost var low: nat, high: nat := entry, end;
    var dn: nat, cp: nat := start, entry;
    while true
      invariant dn <= |text| && Comparing(goal, text[dn..], m, low, high, cp)
      decreases |text| - dn, low
    {
      ghost var at := cp;
      NotReserved(goal, text[dn..], m, low, high, at);
      var n: int := msg[cp];
      assert n == m[at];
      cp := cp + 1;
      if n == 0 {
        AtRoot(goal, text[dn..], m, low, high, at);
        break;
      }
      var tag := ReadTag(n);
      if tag == 0 {
        ghost var l := AtLabel(goal, text[dn..], m, low, high, at);
        assert l == msg[cp..cp + n];
        var next := MatchLabel(text, dn, msg, cp, n);
        if next < 0 {
          return false;
        }
        AfterLabel(goal, text[dn..], m, low, high, at, text, next);
        cp := cp + n;
        n := CharAt(text, next);
        dn := next + 1;
        if n == 0 && msg[cp] == 0 {
          return true;
        }
        if n != DOT {
          return false;
        }
      } else if tag == INDIR_MASK {
        ghost var to := AtPointer(goal, text[dn..], m, low, high, at);
        TargetOfPrefix(msg[..], end, at);
        cp := ReadTarget(msg, cp - 1);
        low, high := cp, low;
      } else {
        assert false;
      }
    }
    b := CharAt(text, dn) == 0;
  }

  lemma LookupSkips(m: seq<byte>, ix: seq<int>, k: nat, t: seq<byte>)
    requires k < |ix| && !Matches(m, ix[k], t)
    ensures Lookup(m, ix[k..], t) == Lookup(m, ix[k + 1..], t)
  {
    assert ix[k..][1..] == ix[k + 1..];
  }

  lemma LookupHits(m: seq<byte>, ix: seq<int>, k: nat, t: seq<byte>)
    requires k < |ix| && Matches(m, ix[k], t)
    ensures ix[k] >= 0 && Lookup(m, ix[k..], t) == Some(ix[k])
  {
  }

  lemma LookupEnds(m: seq<byte>, ix: seq<int>, t: seq<byte>)
    ensures ix[0..] == ix && Lookup(m, ix[|ix|..], t).None?
  {
  }

  lemma IndexEntry(m: seq<byte>, ix: seq<int>, k: nat)
    requires k < |ix| && IndexOk(m, ix)
    ensures ix[k] >= 0 && Known(m, ix[k]).Some? && NulFree(Known(m, ix[k]).value)
  {
  }

  /** The first name of the list `ptrs[first..last]` that spells the text from `start` on, or -1. */
  method DnFind(text: seq<byte>, start: nat, msg: array<byte>, ghost end: nat,
                ptrs: array<int>, first: nat, last: nat) returns (l: int)
    requires 0 !in text && start <= |text| && end <= msg.Length
    requires first <= last <= ptrs.Length && IndexOk(msg[..end], ptrs[first..last])
    ensures match Lookup(msg[..end], ptrs[first..last], text[start..])
            case None => l == -1
            case Some(e) => l == e
  {
    hide *;
    ghost var ix := ptrs[first..last];
    LookupEnds(msg[..end], ix, text[start..]);
    for cpp := first to last
      invariant ix == ptrs[first..last]
      invariant Lookup(msg[..end], ix, text[start..]) == Lookup(msg[..end], ix[cpp - first..], text[start..])
    {
      IndexEntry(msg[..end], ix, cpp - first);
      var same := MatchEntry(text, start, msg, end, ptrs[cpp]);
      if same {
        LookupHits(msg[..end], ix, cpp - first, text[start..]);
        return ptrs[cpp];
      }
      LookupSkips(msg[..end], ix, cpp - first, text[start..]);
    }
    l := -1;
  }

  // ----- dn_comp: one label

  /** `p`, the first label to write, is `done` and what is still to be scanned at `text[i..]`. */
  predicate Collecting(p: Piece, done: Label, text: seq<byte>, i: nat)
  {
    i <= |text| && p == Behind(done, Scan(text[i..]))
  }

  lemma CollectNothing(text: seq<byte>, i: nat)
    requires i <= |text|
    ensures Collecting(Scan(text[i..]), [], text, i)
  {
  }

  lemma CollectEnd(p: Piece, done: Label, text: seq<byte>, i: nat)
    requires Collecting(p, done, text, i)
    ensures i == |text| ==> p.lab == done && p.rest == text[i..] && text[i..] == []
    ensures i < |text| && text[i] == DOT ==> p.lab == done && p.rest == text[i + 1..]
    ensures i + 1 == |text| && text[i] == BACKSLASH ==>
              p.lab == done && p.rest == text[i + 1..] && text[i + 1..] == []
  {
    ScanNext(text, i);
  }

  lemma CollectNext(p: Piece, done: Label, text: seq<byte>, i: nat)
    requires Collecting(p, done, text, i) && i < |text| && text[i] != DOT
    requires Unquoted(text, i) < |text|
    ensures var j := Unquoted(text, i);
            Collecting(p, done + [text[j]], text, j + 1) && |p.lab| > |done|
  {
    ScanNext(text, i);
    BehindBehind(done, [text[Unquoted(text, i)]], Scan(text[Unquoted(text, i) + 1..]));
  }

  /** Copies one label of the text, unquoting it, and returns where it stopped writing and reading,
      or gives up when there is no room. `from - 1` is the place of its first character. */
  method WriteLabel(text: seq<byte>, from: nat, msg: array<byte>, at: nat, eob: int)
    returns (ok: bool, cp: nat, dn: nat)
    requires 0 !in text && 0 < from <= |text| && eob <= msg.Length
    modifies msg
    ensures var p := Scan(text[from - 1..]);
            && (ok <==> p.lab == [] || at + |p.lab| <= eob)
            && (ok ==>
                 && cp == at + |p.lab|
                 && from < dn <= |text| + 1 && text[dn - 1..] == p.rest
                 && msg[..] == if p.lab == [] then old(msg[..]) else Stored(old(msg[..]), at, p.lab))
    ensures Outside(msg[..], old(msg[..]), at, eob)
  {
    hide *;
    OutsideSame(msg[..], at, eob);
    ghost var p, done: Label, before := Scan(text[from - 1..]), [], msg[..];
    CollectNothing(text, from - 1);
    cp, dn := at, from;
    var c: int := CharAt(text, dn - 1);
    CharAtWithin(text, dn - 1);
    if at <= msg.Length {
      StoreNothing(before, at);
    }
    while true
      invariant from <= dn <= |text| && c == text[dn - 1]
      invariant cp == at + |done| && (done != [] ==> cp <= eob)
      invariant Collecting(p, done, text, dn - 1)
      invariant done == [] ==> msg[..] == before
      invariant cp <= msg.Length ==> msg[..] == Stored(before, at, done)
      invariant Outside(msg[..], before, at, eob)
      decreases |text| - dn
    {
      CollectEnd(p, done, text, dn - 1);
      CharAtWithin(text, dn);
      CharAtUnquoted(text, dn - 1);
      CharAtWithin(text, dn - 1);
      if c == DOT {
        c := CharAt(text, dn);
        dn := dn + 1;
        break;
      }
      ghost var i := dn - 1;
      if c == BACKSLASH {
        c := CharAt(text, dn);
        dn := dn + 1;
        if c == 0 {
          break;
        }
      }
      CollectNext(p, done, text, i);
      if cp >= eob {
        return false, cp, dn;
      }
      StoreNext(before, at, done, c);
      OutsideNext(msg[..], before, at, eob, cp, c);
      msg[cp] := c;
      done := done + [c];
      cp := cp + 1;
      CharAtWithin(text, dn);
      c := CharAt(text, dn);
      dn := dn + 1;
      if c == 0 {
        CollectEnd(p, done, text, dn - 1);
        break;
      }
    }
    ok := true;
  }

  /** The cells before `lo` and from `hi` on are as they were. */
  predicate Outside(now: seq<byte>, before: seq<byte>, lo: int, hi: int)
  {
    |now| == |before| &&
    forall i :: 0 <= i < |now| && (i < lo || i >= hi) ==> now[i] == before[i]
  }

  lemma OutsideSame(now: seq<byte>, lo: int, hi: int)
    ensures Outside(now, now, lo, hi)
  {
  }

  lemma OutsideNext(now: seq<byte>, before: seq<byte>, lo: int, hi: int, i: nat, b: byte)
    requires Outside(now, before, lo, hi) && lo <= i < hi && i < |now|
    ensures Outside(now[i := b], before, lo, hi)
  {
  }

  lemma OutsideWider(now: seq<byte>, before: seq<byte>, lo: int, hi: int)
    requires Outside(now, before, lo + 1, hi)
    ensures Outside(now, before, lo, hi)
  {
  }

  lemma OutsideTwice(now: seq<byte>, mid: seq<byte>, before: seq<byte>, lo: int, lo': int, hi: int)
    requires Outside(now, mid, lo', hi) && Outside(mid, before, lo, hi) && lo <= lo'
    ensures Outside(now, before, lo, hi)
  {
  }

  lemma CharAtWithin(text: seq<byte>, i: nat)
    requires i <= |text| && 0 !in text
    ensures i < |text| ==> CharAt(text, i) == text[i] != 0
    ensures i == |text| ==> CharAt(text, i) == 0
  {
    assert i < |text| ==> text[i] in text;
  }

  // ----- dn_comp: the list of names

  /** The place of the NULL that ends the list, from `i` on. */
  function ListEnd(p: seq<int>, i: nat): (r: nat)
    requires i <= |p| && NULL in p[i..]
    ensures i <= r < |p| && p[r] == NULL && NULL !in p[i..r]
    decreases |p| - i
  {
    if p[i] == NULL then i
    else
      assert p[i..] == [p[i]] + p[i + 1..];
      var r := ListEnd(p, i + 1);
      assert p[i..r] == [p[i]] + p[i + 1..r];
      r
  }

  /** The list is there and ends inside its array; `p[0]` is the start of the message. */
  predicate IsList(p: seq<int>)
  {
    |p| > 0 && NULL in p[1..]
  }

  /** The names on the list. */
  function Names(p: seq<int>): seq<int>
    requires IsList(p)
  {
    p[1..ListEnd(p, 1)]
  }

  lemma {:induction false} ListEndIs(p: seq<int>, i: nat, n: nat)
    requires i <= n < |p| && p[n] == NULL && NULL !in p[i..n]
    ensures NULL in p[i..] && ListEnd(p, i) == n
    decreases n - i
  {
    assert p[i..][n - i] == NULL;
    if i < n {
      assert p[i..n][0] == p[i];
      assert forall x :: x in p[i + 1..n] ==> x in p[i..n];
      ListEndIs(p, i + 1, n);
    }
  }

  lemma NamesAre(p: seq<int>, names: seq<int>)
    requires |names| + 1 < |p| && p[1..|names| + 1] == names && p[|names| + 1] == NULL && NULL !in names
    ensures IsList(p) && Names(p) == names && ListEnd(p, 1) == |names| + 1
  {
    ListEndIs(p, 1, |names| + 1);
  }

  /** As many of the new marks as the array has room for, up to `last`; none without `last`. */
  function Kept(names: seq<int>, marks: seq<int>, last: Option<nat>): seq<int>
  {
    var room := if last.None? || last.value < |names| + 2 then 0 else last.value - |names| - 2;
    marks[..if |marks| <= room then |marks| else room]
  }

  method FindEnd(ptrs: array<int>) returns (lpp: nat)
    requires IsList(ptrs[..])
    ensures lpp == ListEnd(ptrs[..], 1)
  {
    var cpp := 1;
    while ptrs[cpp] != NULL
      invariant 1 <= cpp < ptrs.Length && NULL in ptrs[cpp..]
      invariant ListEnd(ptrs[..], 1) == ListEnd(ptrs[..], cpp)
      decreases ptrs.Length - cpp
    {
      assert ptrs[..][cpp..] == ptrs[cpp..] == [ptrs[cpp]] + ptrs[cpp + 1..];
      assert ptrs[..][cpp + 1..] == ptrs[cpp + 1..];
      cpp := cpp + 1;
    }
    assert ptrs[..][cpp..] == ptrs[cpp..];
    lpp := cpp;
  }

  /** The list holds `names`, then what was kept of `marks`, then NULL, at `cpp`. */
  ghost predicate Listed(p: seq<int>, names: seq<int>, marks: seq<int>, last: Option<nat>, cpp: nat)
  {
    var all := names + Kept(names, marks, last);
    && cpp == |all| + 1 < |p|
    && p[1..cpp] == all && p[cpp] == NULL && NULL !in all
  }

  lemma ListedNames(p: seq<int>, names: seq<int>, marks: seq<int>, last: Option<nat>, cpp: nat)
    requires Listed(p, names, marks, last, cpp)
    ensures IsList(p) && Names(p) == names + Kept(names, marks, last)
  {
    NamesAre(p, names + Kept(names, marks, last));
  }

  lemma ListedAtFirst(p: seq<int>, last: Option<nat>)
    requires IsList(p)
    ensures Listed(p, Names(p), [], last, ListEnd(p, 1))
    ensures p[1..ListEnd(p, 1)] == Names(p)
  {
    assert Names(p) + [] == Names(p);
  }

  lemma RestoredNames(p: seq<int>, names: seq<int>, marks: seq<int>, last: Option<nat>, cpp: nat)
    requires Listed(p, names, marks, last, cpp)
    ensures |names| + 1 < |p|
    ensures var q := p[|names| + 1 := NULL]; IsList(q) && Names(q) == names && q[0] == p[0]
  {
    var all := names + Kept(names, marks, last);
    var q := p[|names| + 1 := NULL];
    assert q[1..|names| + 1] == p[1..cpp][..|names|] == names;
    assert forall x :: x in names ==> x in all;
    NamesAre(q, names);
  }

  // ----- dn_comp: the whole name

  /** The encoding fits in the space given. */
  predicate Fits(e: Option<Encoded>, length: int)
  {
    e.Some? && |e.value.bytes| <= length
  }

  /** The exit that forgets to restore the list: the labels fitted, the pointer after them did not. */
  predicate LeavesList(e: Option<Encoded>, length: int)
  {
    e.Some? && e.value.target.Some? && |e.value.bytes| - 2 <= length < |e.value.bytes|
  }

  /** The encoding of the whole name, `whole`, is what was written and marked, and then that of the
      text `t` still to read, at offset `at`. */
  ghost predicate Composing(whole: Option<Encoded>, m: seq<byte>, ix: seq<int>, t: seq<byte>,
                            written: seq<byte>, marks: seq<int>, at: nat)
  {
    match Encode(m, ix, t, at)
    case None => whole.None?
    case Some(e) =>
      && whole.Some?
      && whole.value.bytes == written + e.bytes
      && whole.value.marks == marks + e.marks
      && whole.value.target == e.target
  }

  lemma ComposingNothing(m: seq<byte>, ix: seq<int>, t: seq<byte>, at: nat)
    ensures Composing(Encode(m, ix, t, at), m, ix, t, [], [], at)
  {
  }

  lemma ComposingEnd(whole: Option<Encoded>, m: seq<byte>, ix: seq<int>,
                     written: seq<byte>, marks: seq<int>, at: nat)
    requires Composing(whole, m, ix, [], written, marks, at)
    ensures whole.Some? && whole.value.bytes == written + [0] && whole.value.marks == marks
    ensures whole.value.target.None?
  {
  }

  lemma ComposingPointer(whole: Option<Encoded>, m: seq<byte>, ix: seq<int>, t: seq<byte>,
                         written: seq<byte>, marks: seq<int>, at: nat)
    requires Composing(whole, m, ix, t, written, marks, at) && t != [] && Lookup(m, ix, t).Some?
    ensures whole.Some? && whole.value.target.Some? && whole.value.marks == marks
    ensures whole.value.bytes == written + PointerBytes(Lookup(m, ix, t).value)
  {
  }

  /** What becomes of the label at the start of `t`, when no entry stands for `t`. */
  lemma ComposingLabel(whole: Option<Encoded>, m: seq<byte>, ix: seq<int>, t: seq<byte>,
                       written: seq<byte>, marks: seq<int>, at: nat)
    requires Composing(whole, m, ix, t, written, marks, at) && t != [] && Lookup(m, ix, t).None?
    ensures var p := Scan(t);
            if p.lab == [] && p.rest == [] then
              && whole.Some? && whole.value.bytes == written + [0]
              && whole.value.marks == marks + [at] && whole.value.target.None?
            else if p.lab == [] || |p.lab| > MAXLABEL then
              whole.None?
            else
              && Composing(whole, m, ix, p.rest, written + OneLabel(p.lab), marks + [at],
                           at + 1 + |p.lab|)
              && (whole.Some? ==>
                   |written| + 1 + |p.lab| + (if whole.value.target.Some? then 2 else 1)
                   <= |whole.value.bytes|)
  {
    var p := Scan(t);
    if (p.lab != [] || p.rest != []) && GoodLabel(p.lab) {
      var e := Encode(m, ix, p.rest, at + 1 + |p.lab|);
      if e.Some? {
        assert written + ([|p.lab|] + p.lab + e.value.bytes) == (written + OneLabel(p.lab)) + e.value.bytes;
        assert marks + ([at] + e.value.marks) == (marks + [at]) + e.value.marks;
        EncodedTail(m, ix, p.rest, at + 1 + |p.lab|);
      }
    }
  }

  lemma {:induction false} EncodedTail(m: seq<byte>, ix: seq<int>, t: seq<byte>, at: nat)
    requires Encode(m, ix, t, at).Some?
    ensures |Encode(m, ix, t, at).value.bytes| >= if Encode(m, ix, t, at).value.target.Some? then 2 else 1
    decreases |t|
  {
    if t != [] && Lookup(m, ix, t).None? && (Scan(t).lab != [] || Scan(t).rest != []) {
      EncodedTail(m, ix, Scan(t).rest, at + 1 + |Scan(t).lab|);
    }
  }

  /** A label behind its length. */
  function OneLabel(l: Label): (r: seq<byte>)
    requires |l| <= MAXLABEL
    ensures |r| == 1 + |l|
  {
    [|l|] + l
  }

  lemma StoreLength(before: seq<byte>, at: nat, lab: Label, l: byte)
    requires at + 1 + |lab| <= |before| && l == |lab| <= MAXLABEL
    ensures Stored(before, at + 1, lab)[at := l] == Stored(before, at, OneLabel(lab))
  {
  }

  /** One label of the text: its length byte, then its characters. A final empty label, after which
      the text ends, is taken back. Gives up when there is no room, or when the label is empty or
      too long. */
  method PutLabel(text: seq<byte>, from: nat, msg: array<byte>, at: nat, eob: int)
    returns (ok: bool, cp: nat, dn: nat)
    requires 0 !in text && 0 < from <= |text| && eob <= msg.Length
    modifies msg
    ensures var p := Scan(text[from - 1..]);
            && (ok <==> if p.lab == [] then p.rest == []
                        else at + 1 + |p.lab| <= eob && |p.lab| <= MAXLABEL)
            && (ok ==>
                 && from < dn <= |text| + 1 && text[dn - 1..] == p.rest
                 && if p.lab == [] then cp == at && msg[..] == old(msg[..])
                    else cp == at + 1 + |p.lab| && msg[..] == Stored(old(msg[..]), at, OneLabel(p.lab)))
    ensures Outside(msg[..], old(msg[..]), at, eob)
  {
    hide *;
    LabelLimit();
    ghost var before, p := msg[..], Scan(text[from - 1..]);
    var sp := at;
    ok, cp, dn := WriteLabel(text, from, msg, sp + 1, eob);
    OutsideWider(msg[..], before, at, eob);
    if !ok {
      return;
    }
    CharAtWithin(text, dn - 1);
    ScanEnds(text, dn - 1);
    var c := CharAt(text, dn - 1);
    var l := cp - sp - 1;
    if l == 0 && c == 0 {
      cp := cp - 1;
      return;
    }
    if l <= 0 || l > MAXLABEL {
      ok := false;
      return;
    }
    StoreLength(before, at, p.lab, l);
    OutsideNext(msg[..], before, at, eob, sp, l);
    msg[sp] := l;
  }

  /** The message holds what it held `before`, and `written` up to `cp`, within the space given. */
  ghost predicate Laid(now: seq<byte>, before: seq<byte>, comp: nat, written: seq<byte>, cp: nat, eob: int)
  {
    && cp == comp + |written| <= |before| && (written == [] || cp <= eob)
    && now == Stored(before, comp, written)
  }

  lemma LaidNothing(before: seq<byte>, comp: nat, eob: int)
    requires comp <= |before|
    ensures Laid(before, before, comp, [], comp, eob)
  {
    StoreNothing(before, comp);
  }

  lemma LaidFrame(now: seq<byte>, before: seq<byte>, comp: nat, written: seq<byte>, cp: nat, eob: int)
    requires Laid(now, before, comp, written, cp, eob)
    ensures cp == comp + |written| <= |now| == |before| && now[..comp] == before[..comp]
    ensures written == [] || cp <= eob
    ensures Outside(now, before, comp, eob)
  {
    StoredPrefix(before, comp, written);
  }

  lemma LaidMore(now: seq<byte>, before: seq<byte>, comp: nat, written: seq<byte>, cp: nat, eob: int,
                 more: seq<byte>, now': seq<byte>)
    requires Laid(now, before, comp, written, cp, eob)
    requires cp + |more| <= eob <= |now| && more != [] && now' == Stored(now, cp, more)
    ensures Laid(now', before, comp, written + more, cp + |more|, eob)
    ensures now' == Stored(before, comp, written + more)
  {
    StoreMore(before, comp, written, more);
  }

  lemma Verdict(e: Option<Encoded>, length: int)
    ensures Fits(e, length) <==> e.Some? && |e.value.bytes| <= length
    ensures LeavesList(e, length) <==>
            e.Some? && e.value.target.Some? && |e.value.bytes| - 2 <= length < |e.value.bytes|
  {
  }

  lemma LookupNowhere(m: seq<byte>, t: seq<byte>)
    ensures Lookup(m, [], t).None?
  {
  }

  lemma ScanEnds(text: seq<byte>, i: nat)
    requires i <= |text|
    ensures i == |text| ==> text[i..] == []
    ensures i < |text| ==> text[i..] != []
    ensures text[0..] == text
  {
  }

  /** The names `dn_comp` searches: none without a list, or when the list has no message. */
  function Searched(p: seq<int>): seq<int>
  {
    if p != [] && p[0] != NULL && IsList(p) then Names(p) else []
  }

  lemma SearchedNames(p: seq<int>)
    ensures p == [] || p[0] == NULL ==> Searched(p) == []
    ensures p != [] && p[0] != NULL && IsList(p) ==> Searched(p) == Names(p)
  {
  }

  /** The cells that a call leaves alone: the message pointer and the names that were there, all from
      `last` on, and without `last` simply all. */
  predicate ListFrame(was: seq<int>, now: seq<int>, last: Option<nat>)
    requires IsList(was)
  {
    |now| == |was| &&
    forall i :: 0 <= i < |was| && (i <= |Names(was)| || last.None? || i >= last.value) ==> now[i] == was[i]
  }

  /** What a call makes of the list `was`: a list without message is not touched; else the marks of
      the name are added when the call succeeds, and also at the exit that does not restore. Where a
      mark was added the closing NULL, too, lies below `last`. */
  predicate ListResult(was: seq<int>, now: seq<int>, e: Option<Encoded>, length: int, last: Option<nat>)
  {
    if was == [] || was[0] == NULL || !IsList(was) then now == was
    else
      && ListFrame(was, now, last) && IsList(now)
      && Names(now) == Names(was) + (if Fits(e, length) || LeavesList(e, length)
                                     then Kept(Names(was), e.value.marks, last) else [])
      && (Names(now) != Names(was) ==> last.Some? && ListEnd(now, 1) < last.value)
  }

  lemma ListResultNames(was: seq<int>, now: seq<int>, e: Option<Encoded>, length: int, last: Option<nat>)
    requires was != [] && was[0] != NULL && IsList(was) && ListResult(was, now, e, length, last)
    ensures IsList(now)
    ensures Names(now) == Names(was) + if Fits(e, length) || LeavesList(e, length)
                                       then Kept(Names(was), e.value.marks, last) else []
  {
  }

  /** How many marks go on the list of a call that succeeds, or fails at the pointer: all of them where
      there is room for them and for the closing NULL below `last`, and else the first ones, as many
      as fit. */
  lemma AsManyAsFit(was: seq<int>, now: seq<int>, e: Option<Encoded>, length: int, last: Option<nat>)
    requires was != [] && was[0] != NULL && IsList(was) && ListResult(was, now, e, length, last)
    requires e.Some? && (|e.value.bytes| <= length ||
                         (e.value.target.Some? && |e.value.bytes| - 2 <= length < |e.value.bytes|))
    ensures IsList(now)
    ensures var before, marks, room := |Names(was)|, e.value.marks, if last.Some? then last.value - 1 else 0;
            && (before + |marks| < room ==> Names(now) == Names(was) + marks)
            && (before < room <= before + |marks| ==> Names(now) == Names(was) + marks[..room - before - 1])
            && (room <= before ==> Names(now) == Names(was))
  {
    if last.Some? && |Names(was)| + |e.value.marks| + 2 <= last.value {
      assert e.value.marks[..|e.value.marks|] == e.value.marks;
    } else if last.None? || last.value < |Names(was)| + 2 {
      assert Names(was) + [] == Names(was);
    }
  }

  lemma ListMarked(was: seq<int>, now: seq<int>, e: Option<Encoded>, length: int, last: Option<nat>,
                   lpp: nat, cpp: nat)
    requires e.Some? && OnList(now, was, e.value.marks, last, lpp, cpp)
    requires Fits(e, length) || LeavesList(e, length) || e.value.marks == []
    ensures ListResult(was, now, e, length, last)
  {
    ListedNames(now, Names(was), e.value.marks, last, cpp);
    EndAfterNames(now);
    if Kept(Names(was), e.value.marks, last) == [] {
      assert Names(was) + [] == Names(was);
    }
  }

  lemma EndAfterNames(p: seq<int>)
    requires IsList(p)
    ensures ListEnd(p, 1) == |Names(p)| + 1
  {
  }

  lemma ListRestored(was: seq<int>, now: seq<int>, e: Option<Encoded>, length: int, last: Option<nat>)
    requires was != [] && was[0] != NULL && IsList(was) && ListFrame(was, now, last)
    requires IsList(now) && Names(now) == Names(was)
    requires !Fits(e, length) && !LeavesList(e, length)
    ensures ListResult(was, now, e, length, last)
  {
    assert Names(was) + [] == Names(was);
  }

  /** In the middle of a call that keeps a list: `marks` so far, of which some are on the list. */
  ghost predicate OnList(now: seq<int>, was: seq<int>, marks: seq<int>, last: Option<nat>, lpp: nat, cpp: nat)
  {
    && was != [] && was[0] != NULL && IsList(was) && ListFrame(was, now, last)
    && lpp == |Names(was)| + 1
    && Listed(now, Names(was), marks, last, cpp)
  }

  lemma OnListFirst(p: seq<int>, last: Option<nat>)
    requires p != [] && p[0] != NULL && IsList(p)
    ensures OnList(p, p, [], last, ListEnd(p, 1), ListEnd(p, 1))
  {
    ListedAtFirst(p, last);
  }

  lemma OnListNames(now: seq<int>, was: seq<int>, marks: seq<int>, last: Option<nat>, lpp: nat, cpp: nat)
    requires OnList(now, was, marks, last, lpp, cpp)
    ensures 0 < lpp < |now| && now[1..lpp] == Names(was) == Searched(was)
  {
    ListedPrefix(now, Names(was), marks, last, cpp);
  }

  /** A failed call leaves the names on the list as they were exactly when it does not end at the
      pointer that found no room, or had no label to list, or no room for one. */
  lemma FailureKeepsList(was: seq<int>, now: seq<int>, e: Option<Encoded>, length: int, last: Option<nat>)
    requires was != [] && was[0] != NULL && IsList(was)
    requires ListResult(was, now, e, length, last) && !Fits(e, length)
    ensures Names(now) == Names(was) <==>
            || e.None? || e.value.target.None? || length < |e.value.bytes| - 2
            || e.value.marks == [] || last.None? || last.value <= |Names(was)| + 2
  {
    if LeavesList(e, length) {
      assert |Names(now)| == |Names(was)| + |Kept(Names(was), e.value.marks, last)|;
    }
  }

  lemma ListUntouched(was: seq<int>, e: Option<Encoded>, length: int, last: Option<nat>)
    requires was == [] || was[0] == NULL
    ensures ListResult(was, was, e, length, last)
  {
  }

  lemma ListedPrefix(p: seq<int>, names: seq<int>, marks: seq<int>, last: Option<nat>, cpp: nat)
    requires Listed(p, names, marks, last, cpp)
    ensures |names| + 1 < |p| && p[1..|names| + 1] == names
  {
    assert p[1..|names| + 1] == p[1..cpp][..|names|];
  }

  /** "Not found, save it": the mark goes on the list if there is room below `last`. */
  method SaveMark(ptrs: array<int>, lpp: nat, cpp: nat, last: Option<nat>, cp: nat,
                  ghost was: seq<int>, ghost marks: seq<int>) returns (r: nat)
    requires OnList(ptrs[..], was, marks, last, lpp, cpp)
    requires last.Some? ==> last.value <= ptrs.Length
    modifies ptrs
    ensures OnList(ptrs[..], was, marks + [cp], last, lpp, r)
  {
    ghost var names := Names(was);
    ghost var all := names + Kept(names, marks, last);
    ghost var all' := names + Kept(names, marks + [cp], last);
    r := cpp;
    if last.Some? && cpp < last.value - 1 {
      ptrs[r] := cp;
      r := r + 1;
      ptrs[r] := NULL;
      assert all' == all + [cp];
      assert ptrs[..][1..r] == old(ptrs[..])[1..cpp] + [cp];
    } else {
      assert all' == all;
    }
  }

  /** Undoes what this call put on the list: NULL where the list ended at first. */
  method Restore(ptrs: array<int>, lpp: nat, ghost last: Option<nat>, ghost cpp: nat, ghost was: seq<int>,
                 ghost marks: seq<int>, ghost e: Option<Encoded>, ghost length: int)
    requires OnList(ptrs[..], was, marks, last, lpp, cpp) && !Fits(e, length) && !LeavesList(e, length)
    modifies ptrs
    ensures ListResult(was, ptrs[..], e, length, last)
  {
    RestoredNames(ptrs[..], Names(was), marks, last, cpp);
    ghost var q := ptrs[..][lpp := NULL];
    ptrs[lpp] := NULL;
    assert ptrs[..] == q;
    ListRestored(was, q, e, length, last);
  }

  /** A pointer to `l`, if it fits. */
  method PutPointer(l: nat, msg: array<byte>, at: nat, eob: int, ghost before: seq<byte>, ghost comp: nat,
                    ghost written: seq<byte>) returns (ok: bool)
    requires Laid(msg[..], before, comp, written, at, eob) && eob <= msg.Length
    modifies msg
    ensures ok <==> at + 2 <= eob
    ensures ok ==> msg[..] == Stored(before, comp, written + PointerBytes(l)) && |written| + 2 == at + 2 - comp
    ensures Outside(msg[..], before, comp, eob)
  {
    LaidFrame(msg[..], before, comp, written, at, eob);
    var cp := at;
    if cp + 1 >= eob {
      return false;
    }
    ghost var now := msg[..];
    msg[cp] := Or(l / 256, INDIR_MASK) % 256;
    cp := cp + 1;
    msg[cp] := l % 256;
    assert msg[..] == Stored(now, at, PointerBytes(l));
    LaidMore(now, before, comp, written, at, eob, PointerBytes(l), msg[..]);
    LaidFrame(msg[..], before, comp, written + PointerBytes(l), at + 2, eob);
    ok := true;
  }

  /** The root byte, if it fits. */
  method PutRoot(msg: array<byte>, at: nat, eob: int, ghost before: seq<byte>, ghost comp: nat,
                 ghost written: seq<byte>) returns (ok: bool)
    requires Laid(msg[..], before, comp, written, at, eob) && eob <= msg.Length
    modifies msg
    ensures ok <==> at < eob
    ensures ok ==> msg[..] == Stored(before, comp, written + [0])
    ensures |written| == at - comp
    ensures Outside(msg[..], before, comp, eob)
  {
    LaidFrame(msg[..], before, comp, written, at, eob);
    if at >= eob {
      return false;
    }
    ghost var now := msg[..];
    msg[at] := 0;
    assert msg[..] == Stored(now, at, [0]);
    LaidMore(now, before, comp, written, at, eob, [0], msg[..]);
    LaidFrame(msg[..], before, comp, written + [0], at + 1, eob);
    ok := true;
  }

  /** The whole effect of a call: what it returns, what it writes, what it makes of the list, and
      that it writes nowhere else. `before` and `now` are the buffer, `was` and `list` the list. */
  ghost predicate Composed(text: seq<byte>, before: seq<byte>, now: seq<byte>, comp: nat, length: int,
                           was: seq<int>, list: seq<int>, last: Option<nat>, r: int)
    requires comp <= |before| && comp + length <= |before|
  {
    var e := Encode(before[..comp], Searched(was), text, comp);
    && r == (if Fits(e, length) then |e.value.bytes| else -1)
    && (Fits(e, length) ==> now == Stored(before, comp, e.value.bytes))
    && Outside(now, before, comp, comp + length)
    && ListResult(was, list, e, length, last)
  }

  /** The same in numbers: the result, the bytes, and every cell of the message and of the list that is
      left alone. */
  lemma CallEffects(text: seq<byte>, before: seq<byte>, now: seq<byte>, comp: nat, length: int,
                    was: seq<int>, list: seq<int>, last: Option<nat>, r: int)
    requires comp <= |before| && comp + length <= |before|
    requires Composed(text, before, now, comp, length, was, list, last, r)
    ensures var e := Encode(before[..comp], Searched(was), text, comp);
            && r == (if e.Some? && |e.value.bytes| <= length then |e.value.bytes| else -1)
            && |now| == |before| && |list| == |was|
            && (r >= 0 ==> now[comp..comp + r] == e.value.bytes)
            && (forall i :: 0 <= i < |now| && (i < comp || i >= comp + length) ==> now[i] == before[i])
            && (forall i :: r >= 0 && comp + r <= i < |now| ==> now[i] == before[i])
            && (was == [] || was[0] == NULL ==> list == was)
            && (was != [] && was[0] != NULL && IsList(was) ==>
                 && (forall i :: 0 <= i <= |Names(was)| ==> list[i] == was[i])
                 && (forall i :: 0 <= i < |was| && (last.None? || i >= last.value) ==> list[i] == was[i]))
  {
    if r >= 0 {
      StoredPrefix(before, comp, Encode(before[..comp], Searched(was), text, comp).value.bytes);
    }
  }

  lemma ComposedFully(text: seq<byte>, before: seq<byte>, now: seq<byte>, comp: nat, length: int,
                      was: seq<int>, list: seq<int>, last: Option<nat>, r: int)
    requires comp <= |before| && comp + length <= |before|
    requires var e := Encode(before[..comp], Searched(was), text, comp);
             && e.Some? && r == |e.value.bytes| <= length && now == Stored(before, comp, e.value.bytes)
             && Outside(now, before, comp, comp + length) && ListResult(was, list, e, length, last)
    ensures Composed(text, before, now, comp, length, was, list, last, r)
  {
  }

  lemma NotComposed(text: seq<byte>, before: seq<byte>, now: seq<byte>, comp: nat, length: int,
                    was: seq<int>, list: seq<int>, last: Option<nat>)
    requires comp <= |before| && comp + length <= |before|
    requires var e := Encode(before[..comp], Searched(was), text, comp);
             && !Fits(e, length) && Outside(now, before, comp, comp + length)
             && ListResult(was, list, e, length, last)
    ensures Composed(text, before, now, comp, length, was, list, last, -1)
  {
  }

  /** The end of a name without pointer: the root byte, and the list restored if that does not fit. */
  method FinishName(ghost text: seq<byte>, msg: array<byte>, comp: nat, length: int, ptrs: array?<int>,
                    ghost last: Option<nat>, at: nat, listed: bool, lpp: nat, ghost cpp: nat,
                    ghost before: seq<byte>, ghost was: seq<int>,
                    ghost written: seq<byte>, ghost marks: seq<int>) returns (r: int)
    requires comp <= |before| && comp + length <= |before| == msg.Length
    requires ptrs != null ==> ptrs as object != msg
    requires Laid(msg[..], before, comp, written, at, comp + length)
    requires var e := Encode(before[..comp], Searched(was), text, comp);
             && e.Some? && e.value.bytes == written + [0] && e.value.marks == marks && e.value.target.None?
    requires if listed then ptrs != null && OnList(ptrs[..], was, marks, last, lpp, cpp)
             else (was == [] || was[0] == NULL) && was == if ptrs == null then [] else ptrs[..]
    modifies msg, ptrs
    ensures Composed(text, before, msg[..], comp, length, was, if ptrs == null then [] else ptrs[..], last, r)
  {
    hide *;
    ghost var e := Encode(before[..comp], Searched(was), text, comp);
    Verdict(e, length);
    if !listed {
      ListUntouched(was, e, length, last);
    }
    var cp := at;
    var ok := PutRoot(msg, cp, comp + length, before, comp, written);
    if !ok {
      if listed {
        Restore(ptrs, lpp, last, cpp, was, marks, e, length);
      }
      NotComposed(text, before, msg[..], comp, length, was, if ptrs == null then [] else ptrs[..], last);
      return -1;
    }
    if listed {
      ListMarked(was, ptrs[..], e, length, last, lpp, cpp);
    }
    cp := cp + 1;
    r := cp - comp;
    ComposedFully(text, before, msg[..], comp, length, was, if ptrs == null then [] else ptrs[..], last, r);
  }

  /** "Look to see if we can use pointers": where an entry spells what is left of the text, a pointer
      to it ends the call; else the place goes on the list. */
  method PointOrMark(text: seq<byte>, start: nat, msg: array<byte>, comp: nat, length: int, ptrs: array<int>,
                     last: Option<nat>, at: nat, lpp: nat, cpp: nat, ghost before: seq<byte>,
                     ghost was: seq<int>, ghost written: seq<byte>, ghost marks: seq<int>)
    returns (done: bool, r: int, next: nat)
    requires 0 !in text && start < |text| && comp <= |before| && comp + length <= |before| == msg.Length
    requires ptrs as object != msg && (last.Some? ==> last.value <= ptrs.Length)
    requires IndexOk(before[..comp], Searched(was)) && OnList(ptrs[..], was, marks, last, lpp, cpp)
    requires Laid(msg[..], before, comp, written, at, comp + length) && (written == [] ==> marks == [])
    requires Composing(Encode(before[..comp], Searched(was), text, comp), before[..comp], Searched(was),
                       text[start..], written, marks, at)
    modifies msg, ptrs
    ensures done ==> Composed(text, before, msg[..], comp, length, was, ptrs[..], last, r)
    ensures !done ==>
              && msg[..] == old(msg[..]) && OnList(ptrs[..], was, marks + [at], last, lpp, next)
              && Lookup(before[..comp], Searched(was), text[start..]).None?
  {
    hide *;
    ghost var m, ix := before[..comp], Searched(was);
    ghost var whole := Encode(m, ix, text, comp);
    Verdict(whole, length);
    ScanEnds(text, start);
    LaidFrame(msg[..], before, comp, written, at, comp + length);
    OnListNames(ptrs[..], was, marks, last, lpp, cpp);
    assert msg[..comp] == m;
    var cp: nat, eob: int := at, comp + length;
    var l := DnFind(text, start, msg, comp, ptrs, 1, lpp);
    if l >= 0 {
      ComposingPointer(whole, m, ix, text[start..], written, marks, cp);
      ListMarked(was, ptrs[..], whole, length, last, lpp, cpp);
      var ok := PutPointer(l, msg, cp, eob, before, comp, written);
      if !ok {
        NotComposed(text, before, msg[..], comp, length, was, ptrs[..], last);
        return true, -1, cpp;
      }
      cp := cp + 2;
      ComposedFully(text, before, msg[..], comp, length, was, ptrs[..], last, cp - comp);
      return true, cp - comp, cpp;
    }
    next := SaveMark(ptrs, lpp, cpp, last, cp, was, marks);
    done, r := false, 0;
  }

  /** Compresses `text` into `msg` at `comp`. The names on the list, all of them at offsets below
      `comp`, are what may be pointed to. */
  method DnComp(text: seq<byte>, msg: array<byte>, comp: nat, length: int,
                ptrs: array?<int>, last: Option<nat>) returns (r: int)
    requires 0 !in text
    requires comp <= msg.Length && comp + length <= msg.Length
    requires ptrs != null ==> ptrs.Length > 0 && ptrs as object != msg
    requires ptrs != null && ptrs[0] != NULL ==>
               && IsList(ptrs[..]) && IndexOk(msg[..comp], Names(ptrs[..]))
               && (last.Some? ==> last.value <= ptrs.Length)
    modifies msg, ptrs
    ensures Composed(text, old(msg[..]), msg[..], comp, length,
                     old(if ptrs == null then [] else ptrs[..]), if ptrs == null then [] else ptrs[..], last, r)
  {
    hide *;
    ghost var before, m := msg[..], msg[..comp];
    ghost var was := if ptrs == null then [] else ptrs[..];
    ghost var ix := Searched(was);
    ghost var whole := Encode(m, ix, text, comp);
    ghost var written: seq<byte>, marks: seq<int> := [], [];
    LabelLimit();
    SearchedNames(was);
    LaidNothing(before, comp, comp + length);
    ComposingNothing(m, ix, text, comp);
    Verdict(whole, length);
    ScanEnds(text, 0);
    if was == [] || was[0] == NULL {
      ListUntouched(was, whole, length, last);
    }
    var cp: nat, eob: int := comp, comp + length;
    var listed, lpp, cpp := false, 0, 0;
    if ptrs != null && ptrs[0] != NULL {
      OnListFirst(ptrs[..], last);
      lpp := FindEnd(ptrs);
      cpp := lpp;
      listed := true;
    }
    var c: int, dn := CharAt(text, 0), 1;
    ghost var rooted := false;
    while c != 0
      invariant !rooted
      invariant 0 < dn <= |text| + 1 && c == CharAt(text, dn - 1)
      invariant Laid(msg[..], before, comp, written, cp, eob)
      invariant Composing(whole, m, ix, text[dn - 1..], written, marks, cp)
      invariant written == [] ==> marks == []
      invariant listed <==> was != [] && was[0] != NULL
      invariant if listed then OnList(ptrs[..], was, marks, last, lpp, cpp)
                else ix == [] && (ptrs != null ==> ptrs[..] == was)
      decreases |text| + 1 - dn
    {
      ghost var t := text[dn - 1..];
      CharAtWithin(text, dn - 1);
      ScanEnds(text, dn - 1);
      LaidFrame(msg[..], before, comp, written, cp, eob);
      if listed {
        var done;
        done, r, cpp := PointOrMark(text, dn - 1, msg, comp, length, ptrs, last, cp, lpp, cpp,
                                    before, was, written, marks);
        if done {
          return;
        }
      } else {
        LookupNowhere(m, t);
      }
      ComposingLabel(whole, m, ix, t, written, marks, cp);
      marks := marks + [cp];
      ghost var lab, now := Scan(t).lab, msg[..];
      var ok, end, next := PutLabel(text, dn, msg, cp, eob);
      if !ok {
        OutsideTwice(msg[..], now, before, comp, cp, eob);
        if listed {
          Restore(ptrs, lpp, last, cpp, was, marks, whole, length);
        }
        NotComposed(text, before, msg[..], comp, length, was, if ptrs == null then [] else ptrs[..], last);
        return -1;
      }
      dn := next;
      c := CharAt(text, dn - 1);
      CharAtWithin(text, dn - 1);
      ScanEnds(text, dn - 1);
      if end == cp {
        assert msg[..] == now;
        rooted := true;
        break;
      }
      LaidMore(now, before, comp, written, cp, eob, OneLabel(lab), msg[..]);
      written := written + OneLabel(lab);
      cp := end;
    }
    if !rooted {
      CharAtWithin(text, dn - 1);
      ScanEnds(text, dn - 1);
      ComposingEnd(whole, m, ix, written, marks, cp);
    }
    r := FinishName(text, msg, comp, length, ptrs, last, cp, listed, lpp, cpp, before, was, written, marks);
  }
}
