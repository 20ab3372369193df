/** `rdn_expand`: from a compressed name to its text. */
module Expand {
  import opened Wrappers
  import opened Bits
  import opened Wire
  import opened NameText
  import opened WireName

  /** A name read from a message: its labels, and the bytes it takes where it stands. */
  datatype Name = Name(labels: seq<Label>, size: nat)

  /** What `rdn_expand` reads at `pos` with `checked` bytes already counted. It ends on every
      message: a label moves forward, and a jump is taken only while the count, which it raises,
      is below the message size. */
  function Decode(m: seq<byte>, eom: nat, pos: nat, checked: nat): (r: Option<Name>)
    requires eom < |m|
    ensures r.Some? ==> GoodLabels(r.value.labels)
    decreases if checked < eom then eom - checked else 0, if pos < eom then eom - pos else 0
  {
    if pos >= eom then None
    else if m[pos] == 0 then Some(Name([], 1))
    else if IsLabel(m[pos]) then
      match Decode(m, eom, pos + 1 + m[pos], checked + 1 + m[pos])
      case None => None
      case Some(x) => Some(Name([m[pos + 1..pos + 1 + m[pos]]] + x.labels, 1 + m[pos] + x.size))
    else if IsPointer(m[pos]) && checked + 2 < eom then
      match Decode(m, eom, Target(m, pos), checked + 2)
      case None => None
      case Some(x) => Some(Name(x.labels, 2))
    else None
  }

  /** How many pointers the reader follows from `pos`, whether or not it finds a name in the end: on
      every message, cyclic ones included, the jumps number fewer than half its bytes. */
  function JumpsTaken(m: seq<byte>, eom: nat, pos: nat, checked: nat): (n: nat)
    requires eom < |m|
    ensures n > 0 ==> checked + 2 * n < eom
    decreases if checked < eom then eom - checked else 0, if pos < eom then eom - pos else 0
  {
    if pos >= eom then 0
    else if IsLabel(m[pos]) then JumpsTaken(m, eom, pos + 1 + m[pos], checked + 1 + m[pos])
    else if IsPointer(m[pos]) && checked + 2 < eom && Target(m, pos) < eom then
      1 + JumpsTaken(m, eom, Target(m, pos), checked + 2)
    else 0
  }

  /** Of a name that is read, those are the jumps of its walk. */
  lemma {:induction false} WalkJumps(m: seq<byte>, eom: nat, p: Path, checked: nat)
    requires eom < |m| && Traces(m, eom, p) && Quiet(m, eom, p, checked)
    ensures JumpsTaken(m, eom, p.at, checked) == Jumps(p)
  {
    match p
    case Root(_) =>
    case Segment(at, rest) => WalkJumps(m, eom, rest, checked + 1 + m[at]);
    case Jump(_, rest) => WalkJumps(m, eom, rest, checked + 2);
  }

  /** What is read is a quiet walk. */
  lemma {:induction false} DecodeSound(m: seq<byte>, eom: nat, pos: nat, checked: nat) returns (p: Path)
    requires eom < |m| && Decode(m, eom, pos, checked).Some?
    ensures p.at == pos && Traces(m, eom, p) && Quiet(m, eom, p, checked)
    ensures Decode(m, eom, pos, checked) == Some(Name(PathLabels(m, eom, p), Extent(m, eom, p)))
    decreases if checked < eom then eom - checked else 0, if pos < eom then eom - pos else 0
  {
    if m[pos] == 0 {
      p := Root(pos);
    } else if IsLabel(m[pos]) {
      var q := DecodeSound(m, eom, pos + 1 + m[pos], checked + 1 + m[pos]);
      p := Segment(pos, q);
    } else {
      var q := DecodeSound(m, eom, Target(m, pos), checked + 2);
      p := Jump(pos, q);
    }
  }

  /** Every quiet walk is read. */
  lemma {:induction false} DecodeComplete(m: seq<byte>, eom: nat, p: Path, checked: nat)
    requires eom < |m| && Traces(m, eom, p) && Quiet(m, eom, p, checked)
    ensures Decode(m, eom, p.at, checked) == Some(Name(PathLabels(m, eom, p), Extent(m, eom, p)))
  {
    match p
    case Root(_) =>
    case Segment(at, rest) => DecodeComplete(m, eom, rest, checked + 1 + m[at]);
    case Jump(_, rest) => DecodeComplete(m, eom, rest, checked + 2);
  }

  /** `ls` is what the name at `pos` stands for, the loop detector lets the walk finish, and the
      name takes `size` bytes at `pos`. */
  ghost predicate Expands(m: seq<byte>, eom: nat, pos: nat, ls: seq<Label>, size: nat)
    requires eom < |m|
  {
    exists p: Path :: p.at == pos && Traces(m, eom, p) && Quiet(m, eom, p, 0) &&
                      PathLabels(m, eom, p) == ls && Extent(m, eom, p) == size
  }

  lemma ExpandsIffDecodes(m: seq<byte>, eom: nat, pos: nat, ls: seq<Label>, size: nat)
    requires eom < |m|
    ensures Expands(m, eom, pos, ls, size) <==> Decode(m, eom, pos, 0) == Some(Name(ls, size))
  {
    if Expands(m, eom, pos, ls, size) {
      var p: Path :| p.at == pos && Traces(m, eom, p) && Quiet(m, eom, p, 0) &&
                     PathLabels(m, eom, p) == ls && Extent(m, eom, p) == size;
      DecodeComplete(m, eom, p, 0);
    }
    if Decode(m, eom, pos, 0) == Some(Name(ls, size)) {
      var p := DecodeSound(m, eom, pos, 0);
    }
  }

  /** What is read is what the name stands for, and the jumps taken are those of its walk. In
      particular nothing is read where no name is: see `CycleDenotesNothing` and
      `StuckDenotesNothing`. */
  lemma DecodeDenotes(m: seq<byte>, eom: nat, pos: nat)
    requires eom < |m| && Decode(m, eom, pos, 0).Some?
    ensures Denotes(m, eom, pos, Decode(m, eom, pos, 0).value.labels)
    ensures exists p: Path :: p.at == pos && Traces(m, eom, p) && JumpsTaken(m, eom, pos, 0) == Jumps(p)
  {
    var p := DecodeSound(m, eom, pos, 0);
    WalkJumps(m, eom, p, 0);
  }

  /** A name that stands for labels is read, if its segments lie in the message and do not overlap:
      then only the room for the text can fail. */
  lemma DisjointNamesDecode(m: seq<byte>, eom: nat, p: Path)
    requires eom < |m| && Traces(m, eom, p) && Disjoint(m, eom, p)
    requires forall i :: i in Cells(m, eom, p) ==> i < eom
    ensures Decode(m, eom, p.at, 0) == Some(Name(PathLabels(m, eom, p), Extent(m, eom, p)))
  {
    NoFalseAlarm(m, eom, p);
    DecodeComplete(m, eom, p, 0);
  }

  /** The text of `done + ls` is at least what the first label of `ls` makes it. */
  lemma TextBound(done: seq<Label>, ls: seq<Label>)
    requires ls != []
    ensures |Print(done + ls)| >= |Print(done)| + |Separator(done == [])| + |Escape(ls[0])|
  {
    if done == [] {
      assert done + ls == ls;
    } else {
      PrintAppend(done, ls);
    }
  }

  lemma PrintNothing()
    ensures Print([]) == []
  {
  }

  lemma PrintSnoc(done: seq<Label>, l: Label)
    ensures Print(done + [l]) == Print(done) + Separator(done == []) + Escape(l)
  {
    if done == [] {
      assert done + [l] == [l];
    } else {
      PrintAppend(done, [l]);
    }
  }

  /** One byte of a label: a dot is quoted if the quoting, and the `n` bytes of the label still to
      come, fit. Returns the new end of the text, or -1. */
  method CopyByte(c: byte, n: nat, exp: array<byte>, end: nat, length: nat) returns (r: int)
    requires end + n + 1 < length <= exp.Length
    modifies exp
    ensures r >= 0 <==> end + |Escape([c])| + n < length
    ensures r >= 0 ==> r == end + |Escape([c])| && exp[..r] == old(exp[..end]) + Escape([c])
    ensures forall i :: length <= i < exp.Length ==> exp[i] == old(exp[i])
  {
    var dn := end;
    EscapeByte(c);
    if c == DOT {
      if dn + n + 2 >= length {
        return -1;
      }
      exp[dn] := BACKSLASH;
      dn := dn + 1;
    }
    exp[dn] := c;
    dn := dn + 1;
    r := dn;
  }

  lemma EscapeByte(c: byte)
    ensures Escape([c]) == if c == DOT then [BACKSLASH, DOT] else [c]
  {
  }

  lemma EscapeNothing()
    ensures Escape([]) == []
  {
  }

  /** The label loop: copies the `count` bytes at `start`, quoting dots, and returns the new end of the
      text, or -1 when the label runs to the end of the message or its text does not fit. */
  method CopyLabel(msg: array<byte>, eom: nat, start: nat, count: nat,
                   exp: array<byte>, end: nat, length: nat) returns (r: int)
    requires 1 <= count && start <= eom < msg.Length
    requires exp != msg && end + count < length <= exp.Length
    modifies exp
    ensures r >= 0 <==>
            start + count < eom && end + |Escape(msg[start..start + count])| < length
    ensures r >= 0 ==>
            && r == end + |Escape(msg[start..start + count])|
            && exp[..r] == old(exp[..end]) + Escape(msg[start..start + count])
    ensures forall i :: length <= i < exp.Length ==> exp[i] == old(exp[i])
  {
    hide *;
    EscapeNothing();
    ghost var m := msg[..];
    ghost var pre, lab: Label := exp[..end], [];
    var n: int, cp, dn: int := count, start, end;
    n := n - 1;
    while n >= 0
      invariant m == msg[..]
      invariant -1 <= n < count && cp == start + count - 1 - n <= eom
      invariant cp > start ==> cp < eom
      invariant lab == m[start..cp]
      invariant dn == end + |Escape(lab)| && dn + n + 1 < length
      invariant exp[..dn] == pre + Escape(lab)
      invariant forall i :: length <= i < exp.Length ==> exp[i] == old(exp[i])
      decreases n
    {
      var c := msg[cp];
      if start + count < eom {
        EscapeBound(m, start, cp, start + count);
      }
      EscapeNext(m, start, cp);
      lab := m[start..cp + 1];
      cp := cp + 1;
      dn := CopyByte(c, n, exp, dn, length);
      if dn < 0 || cp >= eom {
        return -1;
      }
      n := n - 1;
    }
    r := dn;
  }

  /** What separates the next label from the text before it. */
  function Separator(first: bool): (r: seq<byte>)
    ensures |r| == if first then 0 else 1
  {
    if first then [] else [DOT]
  }

  /** A separating dot, unless the text is empty, then a label of the message. */
  method PutLabel(msg: array<byte>, eom: nat, start: nat, count: nat,
                  exp: array<byte>, end: nat, length: int) returns (r: int)
    requires 1 <= count && start <= eom < msg.Length
    requires exp != msg && length <= exp.Length && end <= exp.Length
    modifies exp
    ensures r >= 0 <==>
            start + count < eom &&
            end + |Separator(end == 0)| + |Escape(msg[start..start + count])| < length
    ensures r >= 0 ==>
            && r == end + |Separator(end == 0)| + |Escape(msg[start..start + count])|
            && exp[..r] == old(exp[..end]) + Separator(end == 0)
                           + Escape(msg[start..start + count])
    ensures forall i :: 0 <= i < exp.Length && i >= length ==> exp[i] == old(exp[i])
  {
    var dn := end;
    if dn != 0 {
      if dn >= length {
        return -1;
      }
      exp[dn] := DOT;
      dn := dn + 1;
    }
    if dn + count >= length {
      return -1;
    }
    assert exp[..dn] == old(exp[..end]) + Separator(end == 0);
    r := CopyLabel(msg, eom, start, count, exp, dn, length);
  }

  lemma EscapeNext(m: seq<byte>, start: nat, cp: nat)
    requires start <= cp < |m|
    ensures Escape(m[start..cp + 1]) == Escape(m[start..cp]) + Escape([m[cp]])
  {
    assert m[start..cp + 1] == m[start..cp] + [m[cp]];
    EscapeAppend(m[start..cp], [m[cp]]);
  }

  lemma EscapeBound(m: seq<byte>, start: nat, cp: nat, end: nat)
    requires start <= cp < end <= |m|
    ensures |Escape(m[start..end])| >= |Escape(m[start..cp])| + |Escape([m[cp]])| + end - cp - 1
  {
    assert m[start..end] == m[start..cp + 1] + m[cp + 1..end];
    EscapeAppend(m[start..cp + 1], m[cp + 1..end]);
    EscapeNext(m, start, cp);
  }

  /** The offset in a pointer, put together with the masks and shifts of the source. */
  method ReadTarget(msg: array<byte>, at: nat) returns (t: nat)
    requires at + 1 < msg.Length
    ensures t == Target(msg[..], at)
  {
    hide *;
    var n: int, c: int := msg[at], msg[at + 1];
    TargetIs(msg[..], at);
    MaskLow(n);
    MaskByte(c);
    OrShort(n % 64, c);
    t := Or(And(n, 0x3f) * 0x100, And(c, 0xff));
  }

  /** Where the pointer at `at` leads, or -1 when that is outside the message or when the bytes
      counted so far show a loop. */
  method TakePointer(msg: array<byte>, eom: nat, at: nat, counted: nat) returns (r: int)
    requires at < eom < msg.Length
    ensures var t := Target(msg[..], at);
            if t >= eom || counted + 2 >= eom then r == -1 else r == t
  {
    var checked := counted;
    r := ReadTarget(msg, at);
    if r >= eom {
      return -1;
    }
    checked := checked + 2;
    if checked >= eom {
      return -1;
    }
  }

  /** The two top bits of a length byte. */
  method ReadTag(n: byte) returns (t: int)
    ensures t == 0 <==> n < 64
    ensures t == INDIR_MASK <==> n >= 192
  {
    MaskTop(n);
    t := And(n, INDIR_MASK);
  }

  /** What is read in all, when `done` was read before `rest` and either the size is settled or
      `before` bytes precede `rest` in place. */
  ghost function Ahead(done: seq<Label>, len: int, before: nat, rest: Option<Name>): Option<Name>
  {
    match rest
    case None => None
    case Some(x) => Some(Name(done + x.labels, if len < 0 then before + x.size else len))
  }

  lemma NextPointer(m: seq<byte>, eom: nat, pos: nat, checked: nat, done: seq<Label>, len: int, before: nat)
    requires pos < eom < |m| && m[pos] >= 192
    ensures Ahead(done, len, before, Decode(m, eom, pos, checked)) ==
            if Target(m, pos) >= eom || checked + 2 >= eom then None
            else Ahead(done, if len < 0 then before + 2 else len, 0,
                       Decode(m, eom, Target(m, pos), checked + 2))
  {
  }

  /** The label at `pos`: where it runs to the end of the message there is no name, where its text
      does not fit the whole text does not, and else what is read in all is unchanged by moving it
      from what is still to read to what was read. */
  lemma NextLabel(m: seq<byte>, eom: nat, pos: nat, checked: nat, done: seq<Label>, len: int, before: nat)
    returns (l: Label, next: Option<Name>)
    requires pos < eom < |m| && 1 <= m[pos] < 64
    ensures pos + 1 + m[pos] >= eom ==> Ahead(done, len, before, Decode(m, eom, pos, checked)).None?
    ensures pos + 1 + m[pos] < eom ==>
      && l == m[pos + 1..pos + 1 + m[pos]]
      && next == Decode(m, eom, pos + 1 + m[pos], checked + 1 + m[pos])
      && Ahead(done, len, before, Decode(m, eom, pos, checked)) ==
         Ahead(done + [l], len, before + 1 + m[pos], next)
    ensures var r := Ahead(done, len, before, Decode(m, eom, pos, checked));
            r.Some? ==> r.value.labels != [] &&
                        |Print(r.value.labels)| >= |Print(done)| + |Separator(done == [])| + |Escape(l)|
  {
    l, next := [], None;
    if pos + 1 + m[pos] < eom {
      l := m[pos + 1..pos + 1 + m[pos]];
      next := Decode(m, eom, pos + 1 + m[pos], checked + 1 + m[pos]);
      if next.Some? {
        assert done + ([l] + next.value.labels) == (done + [l]) + next.value.labels;
        TextBound(done, [l] + next.value.labels);
      }
    }
  }

  lemma NextRoot(m: seq<byte>, eom: nat, pos: nat, checked: nat, done: seq<Label>, len: int, before: nat)
    requires pos < eom < |m| && m[pos] == 0
    ensures Ahead(done, len, before, Decode(m, eom, pos, checked)) ==
            Some(Name(done, if len < 0 then before + 1 else len))
  {
    assert done + [] == done;
  }

  lemma NextReserved(m: seq<byte>, eom: nat, pos: nat, checked: nat, done: seq<Label>, len: int, before: nat)
    requires pos < eom < |m| && 64 <= m[pos] < 192
    ensures Ahead(done, len, before, Decode(m, eom, pos, checked)).None?
  {
  }

  lemma AheadNothing(rest: Option<Name>)
    ensures Ahead([], -1, 0, rest) == rest
  {
    assert rest.Some? ==> [] + rest.value.labels == rest.value.labels;
  }

  /** `jumps` of the pointers to be followed from `comp` are behind, the others are still ahead. */
  ghost predicate Following(m: seq<byte>, eom: nat, comp: nat, pos: nat, checked: nat, jumps: nat)
    requires eom < |m|
  {
    jumps + JumpsTaken(m, eom, pos, checked) == JumpsTaken(m, eom, comp, 0)
  }

  lemma FollowingAll(m: seq<byte>, eom: nat, comp: nat)
    requires eom < |m|
    ensures Following(m, eom, comp, comp, 0, 0)
  {
  }

  lemma FollowOn(m: seq<byte>, eom: nat, comp: nat, pos: nat, checked: nat, jumps: nat)
    requires pos < eom < |m| && Following(m, eom, comp, pos, checked, jumps)
    ensures jumps <= JumpsTaken(m, eom, comp, 0)
    ensures m[pos] == 0 ==> jumps == JumpsTaken(m, eom, comp, 0)
    ensures 1 <= m[pos] < 64 ==> Following(m, eom, comp, pos + 1 + m[pos], checked + 1 + m[pos], jumps)
    ensures m[pos] >= 192 && Target(m, pos) < eom && checked + 2 < eom ==>
              Following(m, eom, comp, Target(m, pos), checked + 2, jumps + 1)
  {
  }

  /** Expands the compressed name at `comp` into `exp`. It succeeds exactly when there is a name to
      read and its text and NUL fit in `length`; the root name is stored without looking at
      `length`. `jumps` counts the pointers followed. */
  method RdnExpand(msg: array<byte>, eom: nat, comp: nat, exp: array<byte>, length: int)
    returns (r: int, ghost jumps: nat)
    requires comp < eom < msg.Length
    requires exp != msg && exp.Length > 0 && length <= exp.Length
    modifies exp
    ensures var d := Decode(msg[..], eom, comp, 0);
            if d.Some? && (d.value.labels == [] || |Print(d.value.labels)| < length) then
              && r == d.value.size
              && |Print(d.value.labels)| < exp.Length
              && exp[..|Print(d.value.labels)| + 1] == Print(d.value.labels) + [0]
            else
              r == -1
    ensures forall i :: 0 < i < exp.Length && i >= length ==> exp[i] == old(exp[i])
    ensures jumps <= JumpsTaken(msg[..], eom, comp, 0) && (r >= 0 ==> jumps == JumpsTaken(msg[..], eom, comp, 0))
  {
    hide *;
    jumps := 0;
    PrintNothing();
    ghost var m := msg[..];
    ghost var whole := Decode(m, eom, comp, 0);
    ghost var done: seq<Label> := [];
    ghost var before: nat, rest := 0, whole;
    var cp: nat, dn: nat, len: int, checked: nat := comp, 0, -1, 0;
    AheadNothing(whole);
    FollowingAll(m, eom, comp);
    while true
      invariant m == msg[..] && cp < eom
      invariant len < 0 ==> before == cp - comp
      invariant rest == Decode(m, eom, cp, checked)
      invariant whole == Ahead(done, len, before, rest)
      invariant Following(m, eom, comp, cp, checked, jumps)
      invariant if done == [] then dn == 0 else 0 < dn < length
      invariant dn == |Print(done)| < exp.Length && exp[..dn] == Print(done)
      invariant forall i :: 0 <= i < exp.Length && i >= length ==> exp[i] == old(exp[i])
      decreases if checked < eom then eom - checked else 0, eom - cp
    {
      ghost var at := cp;
      var n: int := msg[cp];
      assert n == m[at];
      FollowOn(m, eom, comp, at, checked, jumps);
      cp := cp + 1;
      if n == 0 {
        NextRoot(m, eom, at, checked, done, len, before);
        break;
      }
      var tag := ReadTag(n);
      if tag == 0 {
        checked := checked + n + 1;
        ghost var l, next := NextLabel(m, eom, at, checked - n - 1, done, len, before);
        var end := PutLabel(msg, eom, cp, n, exp, dn, length);
        if end < 0 {
          return -1, jumps;
        }
        PrintSnoc(done, l);
        assert exp[..end] == Print(done) + Separator(done == []) + Escape(l);
        dn := end;
        cp := cp + n;
        done, before, rest := done + [l], before + 1 + n, next;
      } else if tag == INDIR_MASK {
        NextPointer(m, eom, at, checked, done, len, before);
        before := 0;
        if len < 0 {
          len := cp - comp + 1;
        }
        var to := TakePointer(msg, eom, cp - 1, checked);
        if to < 0 {
          return -1, jumps;
        }
        cp := to;
        checked := checked + 2;
        rest := Decode(m, eom, cp, checked);
        jumps := jumps + 1;
      } else {
        NextReserved(m, eom, at, checked, done, len, before);
        return -1, jumps;
      }
    }
    exp[dn] := 0;
    if len < 0 {
      len := cp - comp;
    }
    r := len;
    assert exp[..dn + 1] == exp[..dn] + [0];
  }
}
