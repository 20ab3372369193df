/** What a compressed name in a message means (section 4.1.4 of RFC 1035), for an arbitrary
    message: the walk from a position to a root byte, through labels and pointers. */
module WireName {
  import opened Wrappers
  import opened Wire
  import opened NameText

  /** A finished walk: the positions of its segments, ending at a root byte. */
  datatype Path = Root(at: nat) | Segment(at: nat, rest: Path) | Jump(at: nat, rest: Path)

  predicate IsLabel(n: byte) { 1 <= n <= MAXLABEL }

  predicate IsPointer(n: byte) { n >= 192 }

  /** The offset in the pointer at `p`. */
  function Target(m: seq<byte>, p: nat): nat
    requires p + 1 < |m|
  {
    var hi: int := m[p];
    hi % 64 * 256 + m[p + 1]
  }

  lemma TargetIs(m: seq<byte>, p: nat)
    requires p + 1 < |m|
    ensures IsPointer(m[p]) <==> m[p] >= 192
    ensures Target(m, p) == (m[p] % 64) as int * 256 + m[p + 1] as int
  {
  }

  /** `p` walks the message `m[..eom]`. The cell at `eom` is there to be read: the second byte of
      a pointer that starts on the last byte of the message lies in it. */
  predicate Traces(m: seq<byte>, eom: nat, p: Path)
    requires eom < |m|
  {
    p.at < eom &&
    match p
    case Root(at) => m[at] == 0
    case Segment(at, rest) =>
      IsLabel(m[at]) && rest.at == at + 1 + m[at] && Traces(m, eom, rest)
    case Jump(at, rest) =>
      IsPointer(m[at]) && rest.at == Target(m, at) && Traces(m, eom, rest)
  }

  /** The labels met on a walk, in order. */
  function PathLabels(m: seq<byte>, eom: nat, p: Path): (ls: seq<Label>)
    requires eom < |m| && Traces(m, eom, p)
    ensures GoodLabels(ls)
  {
    match p
    case Root(_) => []
    case Segment(at, rest) =>
      assert Traces(m, eom, rest);
      [m[at + 1..rest.at]] + PathLabels(m, eom, rest)
    case Jump(_, rest) => PathLabels(m, eom, rest)
  }

  /** `m[..eom]` holds at `pos` a compressed name that stands for `ls`. */
  ghost predicate Denotes(m: seq<byte>, eom: nat, pos: nat, ls: seq<Label>)
    requires eom < |m|
  {
    exists p: Path :: p.at == pos && Traces(m, eom, p) && PathLabels(m, eom, p) == ls
  }

  /** The bytes a name takes where it stands: up to its root byte or its first pointer. */
  function Extent(m: seq<byte>, eom: nat, p: Path): (n: nat)
    requires eom < |m| && Traces(m, eom, p)
    ensures n > 0
  {
    match p
    case Root(_) => 1
    case Segment(at, rest) => 1 + m[at] + Extent(m, eom, rest)
    case Jump(_, _) => 2
  }

  function Jumps(p: Path): nat
  {
    match p
    case Root(_) => 0
    case Segment(_, rest) => Jumps(rest)
    case Jump(_, rest) => 1 + Jumps(rest)
  }

  lemma {:induction false} PathUnique(m: seq<byte>, eom: nat, p: Path, q: Path)
    requires eom < |m| && p.at == q.at && Traces(m, eom, p) && Traces(m, eom, q)
    ensures p == q
  {
    if !p.Root? {
      PathUnique(m, eom, p.rest, q.rest);
    }
  }

  /** A name stands for one label list at most. */
  lemma DenotesUnique(m: seq<byte>, eom: nat, pos: nat, ls: seq<Label>, ks: seq<Label>)
    requires eom < |m| && Denotes(m, eom, pos, ls) && Denotes(m, eom, pos, ks)
    ensures ls == ks
  {
    var p: Path :| p.at == pos && Traces(m, eom, p) && PathLabels(m, eom, p) == ls;
    var q: Path :| q.at == pos && Traces(m, eom, q) && PathLabels(m, eom, q) == ks;
    PathUnique(m, eom, p, q);
  }

  // ----- chains that stand for no name

  /** The segment after the one at `pos`, if there is one and it starts inside the message. */
  function Hop(m: seq<byte>, eom: nat, pos: nat): (r: Option<nat>)
    requires eom < |m|
    ensures r.Some? ==> r.value < eom
  {
    if pos >= eom then None
    else if IsLabel(m[pos]) && pos + 1 + m[pos] < eom then Some(pos + 1 + m[pos])
    else if IsPointer(m[pos]) && Target(m, pos) < eom then Some(Target(m, pos))
    else None
  }

  function Hops(m: seq<byte>, eom: nat, pos: nat, k: nat): Option<nat>
    requires eom < |m|
    decreases k
  {
    if k == 0 then Some(pos)
    else
      match Hop(m, eom, pos)
      case None => None
      case Some(q) => Hops(m, eom, q, k - 1)
  }

  function Segments(p: Path): nat
  {
    if p.Root? then 0 else 1 + Segments(p.rest)
  }

  /** Every hop stays on the walk. */
  lemma {:induction false} HopsOnPath(m: seq<byte>, eom: nat, p: Path, k: nat) returns (q: Path)
    requires eom < |m| && Traces(m, eom, p) && Hops(m, eom, p.at, k).Some?
    ensures Traces(m, eom, q) && q.at == Hops(m, eom, p.at, k).value
    ensures Segments(q) + k == Segments(p)
  {
    if k == 0 {
      q := p;
    } else {
      q := HopsOnPath(m, eom, p.rest, k - 1);
    }
  }

  /** A chain that comes back to where it was stands for no name. */
  lemma CycleDenotesNothing(m: seq<byte>, eom: nat, pos: nat, j: nat, k: nat, ls: seq<Label>)
    requires eom < |m| && k > 0
    requires Hops(m, eom, pos, j).Some?
    requires Hops(m, eom, Hops(m, eom, pos, j).value, k) == Hops(m, eom, pos, j)
    ensures !Denotes(m, eom, pos, ls)
  {
    if Denotes(m, eom, pos, ls) {
      var p: Path :| p.at == pos && Traces(m, eom, p) && PathLabels(m, eom, p) == ls;
      var q := HopsOnPath(m, eom, p, j);
      var r := HopsOnPath(m, eom, q, k);
      PathUnique(m, eom, q, r);
      assert false;
    }
  }

  /** A chain that gets stuck before a root byte stands for no name: a reserved tag, a jump out of
      the message, a label that runs to the end of the message. */
  lemma StuckDenotesNothing(m: seq<byte>, eom: nat, pos: nat, k: nat, ls: seq<Label>)
    requires eom < |m|
    requires Hops(m, eom, pos, k).Some?
    requires var q := Hops(m, eom, pos, k).value; q >= eom || (m[q] != 0 && Hop(m, eom, q).None?)
    ensures !Denotes(m, eom, pos, ls)
  {
    if Denotes(m, eom, pos, ls) {
      var p: Path :| p.at == pos && Traces(m, eom, p) && PathLabels(m, eom, p) == ls;
      var q := HopsOnPath(m, eom, p, k);
      assert false;
    }
  }

  // ----- the loop detector

  /** The detector of `rdn_expand` stays quiet along `p`: after each pointer, the bytes counted so
      far are fewer than the message has. */
  predicate Quiet(m: seq<byte>, eom: nat, p: Path, checked: nat)
    requires eom < |m| && Traces(m, eom, p)
  {
    match p
    case Root(_) => true
    case Segment(at, rest) => Quiet(m, eom, rest, checked + 1 + m[at])
    case Jump(_, rest) => checked + 2 < eom && Quiet(m, eom, rest, checked + 2)
  }

  /** The sizes of the segments up to the last jump and with it; 0 where there is no jump. */
  function ToLastJump(m: seq<byte>, eom: nat, p: Path): nat
    requires eom < |m| && Traces(m, eom, p)
  {
    match p
    case Root(_) => 0
    case Segment(at, rest) => if Jumps(rest) == 0 then 0 else 1 + m[at] + ToLastJump(m, eom, rest)
    case Jump(_, rest) => 2 + ToLastJump(m, eom, rest)
  }

  /** When the detector fires: exactly when there is a jump and the segments up to the last one have,
      together with what was counted before, at least as many bytes as the message. */
  lemma {:induction false} QuietExactly(m: seq<byte>, eom: nat, p: Path, checked: nat)
    requires eom < |m| && Traces(m, eom, p)
    ensures Quiet(m, eom, p, checked) <==> Jumps(p) == 0 || checked + ToLastJump(m, eom, p) < eom
    ensures 2 * Jumps(p) <= ToLastJump(m, eom, p)
  {
    match p
    case Root(_) =>
    case Segment(at, rest) => QuietExactly(m, eom, rest, checked + 1 + m[at]);
    case Jump(_, rest) => QuietExactly(m, eom, rest, checked + 2);
  }

  function Range(lo: nat, hi: nat): (s: set<nat>)
    requires lo <= hi
    ensures forall i :: i in s <==> lo <= i < hi
    ensures |s| == hi - lo
    decreases hi
  {
    if lo == hi then {} else Range(lo, hi - 1) + {hi - 1}
  }

  /** The bytes of the segment a walk starts with. */
  function HeadCells(m: seq<byte>, eom: nat, p: Path): set<nat>
    requires eom < |m| && Traces(m, eom, p)
  {
    match p
    case Root(at) => {at}
    case Segment(at, rest) => Range(at, rest.at)
    case Jump(at, _) => {at, at + 1}
  }

  function Cells(m: seq<byte>, eom: nat, p: Path): set<nat>
    requires eom < |m| && Traces(m, eom, p)
  {
    HeadCells(m, eom, p) + if p.Root? then {} else Cells(m, eom, p.rest)
  }

  /** No byte belongs to two segments of the walk. */
  predicate Disjoint(m: seq<byte>, eom: nat, p: Path)
    requires eom < |m| && Traces(m, eom, p)
  {
    p.Root? || (HeadCells(m, eom, p) !! Cells(m, eom, p.rest) && Disjoint(m, eom, p.rest))
  }

  /** The sizes of the segments, added up. */
  function Weight(m: seq<byte>, eom: nat, p: Path): (n: nat)
    requires eom < |m| && Traces(m, eom, p)
    ensures n > 0
  {
    match p
    case Root(_) => 1
    case Segment(at, rest) => 1 + m[at] + Weight(m, eom, rest)
    case Jump(_, rest) => 2 + Weight(m, eom, rest)
  }

  lemma {:induction false} SubsetSize(a: set<nat>, b: set<nat>)
    requires a <= b
    ensures |a| <= |b|
  {
    if a != {} {
      var x :| x in a;
      SubsetSize(a - {x}, b - {x});
    }
  }

  lemma {:induction false} DisjointWeight(m: seq<byte>, eom: nat, p: Path)
    requires eom < |m| && Traces(m, eom, p) && Disjoint(m, eom, p)
    ensures |Cells(m, eom, p)| == Weight(m, eom, p)
  {
    if !p.Root? {
      DisjointWeight(m, eom, p.rest);
    }
  }

  lemma {:induction false} JumpsWeighLess(m: seq<byte>, eom: nat, p: Path)
    requires eom < |m| && Traces(m, eom, p)
    ensures ToLastJump(m, eom, p) < Weight(m, eom, p)
  {
    if !p.Root? {
      JumpsWeighLess(m, eom, p.rest);
    }
  }

  /** No false alarm: the detector stays quiet on a name whose segments lie in the message and do
      not overlap. */
  lemma NoFalseAlarm(m: seq<byte>, eom: nat, p: Path)
    requires eom < |m| && Traces(m, eom, p) && Disjoint(m, eom, p)
    requires forall i :: i in Cells(m, eom, p) ==> i < eom
    ensures Quiet(m, eom, p, 0)
  {
    SubsetSize(Cells(m, eom, p), Range(0, eom));
    DisjointWeight(m, eom, p);
    JumpsWeighLess(m, eom, p);
    QuietExactly(m, eom, p, 0);
  }

  /** Overlap can set the detector off on a name that has a meaning: here the second label is read
      out of the bytes of the first. */
  lemma FalseAlarm()
    ensures var m: seq<byte> := [3, 1, 120, 0, 192, 1, 0];
            && Denotes(m, 6, 0, [[1, 120, 0], [120]])
            && forall p: Path :: p.at == 0 && Traces(m, 6, p) ==> !Quiet(m, 6, p, 0)
  {
    var m: seq<byte> := [3, 1, 120, 0, 192, 1, 0];
    var p := Segment(0, Jump(4, Segment(1, Root(3))));
    assert Traces(m, 6, p.rest.rest);
    assert m[2..3] == [120] && m[1..4] == [1, 120, 0];
    assert PathLabels(m, 6, p.rest.rest) == [[120]];
    assert Traces(m, 6, p);
    assert PathLabels(m, 6, p) == [[1, 120, 0], [120]];
    forall q: Path | q.at == 0 && Traces(m, 6, q) ensures !Quiet(m, 6, q, 0) {
      PathUnique(m, 6, p, q);
      assert !Quiet(m, 6, p.rest, 4);
    }
  }
}
