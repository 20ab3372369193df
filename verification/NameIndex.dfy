/** The compression index of `dn_comp`: offsets of names already in the message, and what each
    stands for. */
module NameIndex {
  import opened Wrappers
  import opened Wire
  import opened NameText
  import opened WireName
  import opened Expand

  /** The labels at `pos` when every pointer goes strictly backward: the run of labels that was
      entered at `start` stays below `hi`, and the pointer that ends it leads to a prior
      occurrence, whose own run lies wholly below `start`. `dn_comp` never points at a root. */
  function Resolve(m: seq<byte>, start: nat, hi: nat, pos: nat): (r: Option<seq<Label>>)
    requires start <= pos && hi <= |m|
    ensures r.Some? ==> pos < hi && GoodLabels(r.value)
    ensures r.Some? && m[pos] != 0 ==> r.value != []
    decreases start, if pos < hi then hi - pos else 0
  {
    if pos >= hi then None
    else if m[pos] == 0 then Some([])
    else if IsLabel(m[pos]) && pos + 1 + m[pos] < hi then
      match Resolve(m, start, hi, pos + 1 + m[pos])
      case None => None
      case Some(ls) => Some([m[pos + 1..pos + 1 + m[pos]]] + ls)
    else if IsPointer(m[pos]) && pos + 1 < hi && Target(m, pos) < start && m[Target(m, pos)] != 0 then
      Resolve(m, Target(m, pos), start, Target(m, pos))
    else None
  }

  /** What the name at offset `e` of the message `m` stands for. */
  function Known(m: seq<byte>, e: nat): (r: Option<seq<Label>>)
    ensures r.Some? ==> e < |m| && GoodLabels(r.value)
  {
    Resolve(m, e, |m|, e)
  }

  predicate StandsFor(m: seq<byte>, e: int, ls: seq<Label>)
  {
    e >= 0 && Known(m, e) == Some(ls)
  }

  /** The meaning of a name survives any growth of the message. */
  lemma {:induction false} ResolveGrows(m: seq<byte>, m': seq<byte>, start: nat, hi: nat, hi': nat, pos: nat)
    requires start <= pos && hi <= |m| && hi <= hi' <= |m'| && m[..hi] == m'[..hi]
    requires Resolve(m, start, hi, pos).Some?
    ensures Resolve(m', start, hi', pos) == Resolve(m, start, hi, pos)
    decreases start, if pos < hi then hi - pos else 0
  {
    assert m[pos] == m[..hi][pos] == m'[..hi][pos] == m'[pos];
    if m[pos] == 0 {
    } else if IsLabel(m[pos]) {
      var next := pos + 1 + m[pos];
      assert m[pos + 1..next] == m[..hi][pos + 1..next] == m'[..hi][pos + 1..next] == m'[pos + 1..next];
      ResolveGrows(m, m', start, hi, hi', next);
    } else {
      assert m[pos + 1] == m[..hi][pos + 1] == m'[..hi][pos + 1] == m'[pos + 1];
      var t := Target(m, pos);
      assert m[t] == m[..hi][t] == m'[..hi][t] == m'[t];
      assert m[..start] == m[..hi][..start] == m'[..hi][..start] == m'[..start];
      ResolveGrows(m, m', t, start, start, t);
    }
  }

  /** A name entered at one of its later labels. */
  lemma {:induction false} ResolveFromInside(m: seq<byte>, start: nat, start': nat, hi: nat, pos: nat)
    requires start <= start' <= pos && hi <= |m|
    requires Resolve(m, start, hi, pos).Some?
    ensures Resolve(m, start', hi, pos) == Resolve(m, start, hi, pos)
    decreases hi - pos
  {
    if m[pos] == 0 {
    } else if IsLabel(m[pos]) {
      ResolveFromInside(m, start, start', hi, pos + 1 + m[pos]);
    } else {
      ResolveGrows(m, m, Target(m, pos), start, start', Target(m, pos));
    }
  }

  /** A resolved name is one the expander reads: its walk exists, and the loop detector stays quiet
      because the runs nest, so the bytes counted never overlap. */
  lemma {:induction false} ResolvedDecodes(m: seq<byte>, eom: nat, start: nat, hi: nat, pos: nat, checked: nat)
    requires start <= pos && hi <= eom < |m|
    requires Resolve(m, start, hi, pos).Some?
    requires checked + hi <= eom + pos - start
    ensures var d := Decode(m, eom, pos, checked);
            d.Some? && d.value.labels == Resolve(m, start, hi, pos).value
    decreases start, hi - pos
  {
    if m[pos] == 0 {
    } else if IsLabel(m[pos]) {
      ResolvedDecodes(m, eom, start, hi, pos + 1 + m[pos], checked + 1 + m[pos]);
    } else {
      ResolvedDecodes(m, eom, Target(m, pos), start, Target(m, pos), checked + 2);
    }
  }

  /** Every entry of the index names something, and what it names came from C strings. */
  predicate IndexOk(m: seq<byte>, ix: seq<int>)
  {
    forall i :: 0 <= i < |ix| ==>
      0 <= ix[i] < |m| && Known(m, ix[i]).Some? && NulFree(Known(m, ix[i]).value)
  }

  lemma IndexGrows(m: seq<byte>, m': seq<byte>, ix: seq<int>)
    requires IndexOk(m, ix) && m <= m'
    ensures IndexOk(m', ix)
    ensures forall i :: 0 <= i < |ix| ==> Known(m', ix[i]) == Known(m, ix[i])
  {
    forall i | 0 <= i < |ix|
      ensures Known(m', ix[i]) == Known(m, ix[i])
    {
      KnownGrows(m, m', ix[i]);
    }
  }

  lemma KnownGrows(m: seq<byte>, m': seq<byte>, e: nat)
    requires m <= m' && Known(m, e).Some?
    ensures Known(m', e) == Known(m, e)
  {
    assert m[..|m|] == m'[..|m|];
    ResolveGrows(m, m', e, |m|, |m'|, e);
  }

  /** `e` names the labels that `t` spells, as `dn_find` compares them. */
  predicate Matches(m: seq<byte>, e: int, t: seq<byte>)
  {
    e >= 0 && Known(m, e).Some? && Reads(t, Known(m, e).value)
  }

  /** The first entry that matches. */
  function Lookup(m: seq<byte>, ix: seq<int>, t: seq<byte>): (r: Option<nat>)
    ensures r.Some? ==> r.value in ix && Matches(m, r.value, t)
  {
    if ix == [] then None
    else if Matches(m, ix[0], t) then Some(ix[0])
    else Lookup(m, ix[1..], t)
  }

  lemma {:induction false} LookupFirst(m: seq<byte>, ix: seq<int>, t: seq<byte>, i: nat)
    requires i < |ix| && Matches(m, ix[i], t)
    requires forall j :: 0 <= j < i ==> !Matches(m, ix[j], t)
    ensures Lookup(m, ix, t) == Some(ix[i])
  {
    if i > 0 {
      assert !Matches(m, ix[0], t);
      forall j | 0 <= j < i - 1 ensures !Matches(m, ix[1..][j], t) {
        assert ix[1..][j] == ix[j + 1];
      }
      LookupFirst(m, ix[1..], t, i - 1);
    }
  }

  lemma {:induction false} LookupNothing(m: seq<byte>, ix: seq<int>, t: seq<byte>)
    ensures Lookup(m, ix, t).None? <==> forall j :: 0 <= j < |ix| ==> !Matches(m, ix[j], t)
  {
    if ix != [] {
      LookupNothing(m, ix[1..], t);
      assert forall j :: 0 < j < |ix| ==> ix[1..][j - 1] == ix[j];
    }
  }

  /** The search finds the text's label list exactly when the text is regular and some entry names
      that list; and then it returns the first such entry. */
  lemma LookupIsExact(m: seq<byte>, ix: seq<int>, t: seq<byte>)
    requires IndexOk(m, ix)
    ensures Lookup(m, ix, t).Some? <==>
            Regular(t) && Parse(t).Some? && exists i :: 0 <= i < |ix| && Known(m, ix[i]) == Parse(t)
    ensures forall i | 0 <= i < |ix| && Regular(t) && Known(m, ix[i]) == Parse(t) &&
                       (forall j :: 0 <= j < i ==> Known(m, ix[j]) != Parse(t)) ::
              Lookup(m, ix, t) == Some(ix[i])
  {
    forall i | 0 <= i < |ix|
      ensures Matches(m, ix[i], t) <==> Regular(t) && Known(m, ix[i]) == Parse(t)
    {
      ReadsIffParses(t, Known(m, ix[i]).value);
    }
    LookupNothing(m, ix, t);
    forall i | 0 <= i < |ix| && Regular(t) && Known(m, ix[i]) == Parse(t) &&
               (forall j :: 0 <= j < i ==> Known(m, ix[j]) != Parse(t))
      ensures Lookup(m, ix, t) == Some(ix[i])
    {
      LookupFirst(m, ix, t, i);
    }
  }
}
