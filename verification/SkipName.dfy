/** `__dn_skipname`: the size of a compressed name without reading it. */
module SkipName {
  import opened Wrappers
  import opened Wire
  import opened WireName
  import opened Expand

  /** The size of what stands at `pos`, or None at a reserved tag. */
  function Skip(m: seq<byte>, eom: nat, pos: nat): Option<nat>
    requires eom <= |m|
    decreases if pos < eom then eom - pos else 0
  {
    if pos >= eom then Some(0)
    else if m[pos] == 0 then Some(1)
    else if m[pos] < 64 then
      match Skip(m, eom, pos + 1 + m[pos])
      case None => None
      case Some(n) => Some(1 + m[pos] + n)
    else if m[pos] >= 192 then Some(2)
    else None
  }

  /** The fast form agrees with the walk of any name, quiet or not. */
  lemma {:induction false} SkipAgrees(m: seq<byte>, eom: nat, p: Path)
    requires eom < |m| && Traces(m, eom, p)
    ensures Skip(m, eom, p.at) == Some(Extent(m, eom, p))
  {
    if p.Segment? {
      SkipAgrees(m, eom, p.rest);
    }
  }

  /** Whenever `rdn_expand` finds a name, `__dn_skipname` returns the same size. */
  lemma SkipAgreesWithExpand(m: seq<byte>, eom: nat, pos: nat)
    requires eom < |m| && Decode(m, eom, pos, 0).Some?
    ensures Skip(m, eom, pos) == Some(Decode(m, eom, pos, 0).value.size)
  {
    var p := DecodeSound(m, eom, pos, 0);
    SkipAgrees(m, eom, p);
  }

  /** Where `k` labels from `pos` on lead, each of 1 to 63 bytes and starting inside the message. */
  function AfterLabels(m: seq<byte>, eom: nat, pos: nat, k: nat): (r: Option<nat>)
    requires eom <= |m|
    ensures r.Some? ==> r.value >= pos
    decreases k
  {
    if k == 0 then Some(pos)
    else if pos < eom && 1 <= m[pos] <= 63 then AfterLabels(m, eom, pos + 1 + m[pos], k - 1)
    else None
  }

  /** `k` labels lead to a byte inside the message with a reserved tag. */
  predicate Reserved(m: seq<byte>, eom: nat, pos: nat, k: nat)
    requires eom <= |m|
  {
    var q := AfterLabels(m, eom, pos, k);
    q.Some? && q.value < eom && 64 <= m[q.value] <= 191
  }

  /** What stops the labels decides: the end of the message, where it may be cut off, the root byte, a
      pointer, or a reserved tag. */
  lemma {:induction false} SkipEnds(m: seq<byte>, eom: nat, pos: nat, k: nat)
    requires eom <= |m| && AfterLabels(m, eom, pos, k).Some?
    ensures var q := AfterLabels(m, eom, pos, k).value;
            && (q >= eom ==> Skip(m, eom, pos) == Some(q - pos))
            && (q < eom && m[q] == 0 ==> Skip(m, eom, pos) == Some(q - pos + 1))
            && (q < eom && m[q] >= 192 ==> Skip(m, eom, pos) == Some(q - pos + 2))
            && (q < eom && 64 <= m[q] <= 191 ==> Skip(m, eom, pos).None?)
    decreases k
  {
    if k > 0 {
      SkipEnds(m, eom, pos + 1 + m[pos], k - 1);
    }
  }

  lemma {:induction false} LabelsStop(m: seq<byte>, eom: nat, pos: nat) returns (k: nat)
    requires eom <= |m|
    ensures AfterLabels(m, eom, pos, k).Some?
    ensures var q := AfterLabels(m, eom, pos, k).value; q >= eom || m[q] == 0 || m[q] >= 64
    decreases if pos < eom then eom - pos else 0
  {
    if pos < eom && 1 <= m[pos] <= 63 {
      k := LabelsStop(m, eom, pos + 1 + m[pos]);
      k := k + 1;
    } else {
      k := 0;
    }
  }

  /** It gives up exactly where the labels lead to a reserved tag. */
  lemma SkipRefusesExactly(m: seq<byte>, eom: nat, pos: nat)
    requires eom <= |m|
    ensures Skip(m, eom, pos).None? <==> exists k: nat :: Reserved(m, eom, pos, k)
  {
    var k := LabelsStop(m, eom, pos);
    SkipEnds(m, eom, pos, k);
    if Skip(m, eom, pos).None? {
      assert Reserved(m, eom, pos, k);
    }
    if j: nat :| Reserved(m, eom, pos, j) {
      SkipEnds(m, eom, pos, j);
    }
  }

  method DnSkipName(msg: seq<byte>, comp: nat, eom: nat) returns (r: int)
    requires eom <= |msg|
    ensures match Skip(msg, eom, comp)
            case None => r == -1
            case Some(n) => r == n
  {
    var cp := comp;
    while cp < eom
      invariant comp <= cp
      invariant Skip(msg, eom, comp) ==
                match Skip(msg, eom, cp)
                case None => None
                case Some(n) => Some(cp - comp + n)
      decreases eom - cp
    {
      var n: int := msg[cp];
      cp := cp + 1;
      if n == 0 {
        break;
      }
      var tag := ReadTag(n);
      if tag == 0 {
        cp := cp + n;
      } else if tag == INDIR_MASK {
        cp := cp + 1;
        break;
      } else {
        return -1;
      }
    }
    r := cp - comp;
  }
}
