/** The strings in the data of a record: what a reader finds of what `build_rr` was given. */
module StringData {
  import opened Wrappers
  import opened Wire
  import opened Qnames
  import opened Record
  import opened Reader

  /** Strings as they should be written: each behind its length. */
  function AllCounted(ss: seq<seq<byte>>): (r: seq<byte>)
    ensures |r| == StringsSize(ss)
  {
    if ss == [] then [] else Counted(ss[0]) + AllCounted(ss[1..])
  }

  /** A reader of counted strings, up to the end of the data. */
  function ReadStrings(x: seq<byte>): Option<seq<seq<byte>>>
  {
    if x == [] then Some([])
    else if 1 + x[0] > |x| then None
    else
      match ReadStrings(x[1 + x[0]..])
      case None => None
      case Some(ss) => Some([x[1..1 + x[0]]] + ss)
  }

  lemma {:induction false} CountedIsRead(ss: seq<seq<byte>>)
    requires forall s :: s in ss ==> |s| <= 127
    ensures ReadStrings(AllCounted(ss)) == Some(ss)
  {
    hide *;
    if ss == [] {
      NothingIsRead();
    } else {
      var s, more := ss[0], ss[1..];
      assert ss == [s] + more && s in ss;
      CountedIsRead(more);
      AllCountedStep(s, more);
      OneIsRead(s, AllCounted(more));
    }
  }

  lemma NothingIsRead()
    ensures AllCounted([]) == [] && ReadStrings([]) == Some([])
  {
  }

  lemma OneIsRead(s: seq<byte>, more: seq<byte>)
    requires |s| <= 127 && ReadStrings(more).Some?
    ensures ReadStrings([|s|] + s + more) == Some([s] + ReadStrings(more).value)
  {
    var x := [|s|] + s + more;
    assert x[1..1 + |s|] == s && x[1 + |s|..] == more;
  }

  lemma {:induction false} ReadIsCounted(x: seq<byte>)
    ensures ReadStrings(x).Some? ==> AllCounted(ReadStrings(x).value) == x
    decreases |x|
  {
    hide *;
    ReadingIs(x);
    if x == [] {
      NothingIsRead();
    } else if 1 + x[0] <= |x| && ReadStrings(x).Some? {
      var n: nat := x[0];
      var s := x[1..1 + n];
      ReadIsCounted(x[1 + n..]);
      AllCountedStep(s, ReadStrings(x[1 + n..]).value);
      assert x == [x[0]] + s + x[1 + n..];
    }
  }

  lemma ReadingIs(x: seq<byte>)
    ensures x == [] ==> ReadStrings(x) == Some([])
    ensures x != [] && 1 + x[0] > |x| ==> ReadStrings(x).None?
    ensures x != [] && 1 + x[0] <= |x| ==>
              ReadStrings(x) == match ReadStrings(x[1 + x[0]..])
                                case None => None
                                case Some(ss) => Some([x[1..1 + x[0]]] + ss)
  {
  }

  /** How many bytes are not zero. */
  function NonZeros(x: seq<byte>): (n: nat)
    ensures n <= |x|
  {
    if x == [] then 0 else (if x[0] != 0 then 1 else 0) + NonZeros(x[1..])
  }

  lemma {:induction false} NonZerosAppend(a: seq<byte>, b: seq<byte>)
    ensures NonZeros(a + b) == NonZeros(a) + NonZeros(b)
  {
    if a == [] {
      assert a + b == b;
    } else {
      assert (a + b)[1..] == a[1..] + b;
      NonZerosAppend(a[1..], b);
    }
  }

  lemma {:induction false} NonZerosFull(s: seq<byte>)
    requires 0 !in s
    ensures NonZeros(s) == |s|
  {
    if s != [] {
      assert s[0] in s;
      NonZerosFull(s[1..]);
    }
  }

  /** All strings but the last are empty. */
  predicate OnlyLast(ss: seq<seq<byte>>)
  {
    forall i :: 0 <= i < |ss| - 1 ==> ss[i] == []
  }

  lemma OnlyLastStep(s: seq<byte>, more: seq<seq<byte>>)
    ensures OnlyLast([s] + more) <==> more == [] || (s == [] && OnlyLast(more))
  {
    var ss := [s] + more;
    assert forall i :: 0 <= i < |more| ==> more[i] == ss[i + 1];
    assert forall i :: 0 < i < |ss| ==> ss[i] == more[i - 1];
    assert more != [] && OnlyLast(ss) ==> ss[0] == [];
  }

  lemma NonZerosStored(b: seq<byte>, s: seq<byte>)
    requires |s| < |b| && 0 !in s
    ensures |Stored(b, 0, s + [0])| == |b|
    ensures NonZeros(Stored(b, 0, s + [0])) <= |s| + NonZeros(b)
    ensures s != [] ==> Stored(b, 0, s + [0])[0] != 0
  {
    hide NonZeros;
    var n := |s| + 1;
    assert Stored(b, 0, s + [0]) == (s + [0]) + b[n..];
    assert b == b[..n] + b[n..];
    NonZerosAppend(b[..n], b[n..]);
    NonZerosAppend(s + [0], b[n..]);
    NonZerosAppend(s, [0]);
    NonZerosFull(s);
    NonZerosFirst([0]);
    assert s != [] ==> s[0] in s;
  }

  lemma NonZerosFirst(x: seq<byte>)
    requires x != []
    ensures NonZeros(x) == (if x[0] != 0 then 1 else 0) + NonZeros(x[1..])
    ensures x == [0] ==> NonZeros(x) == 0
  {
  }

  lemma NonZerosCounted(s: seq<byte>, more: seq<seq<byte>>)
    requires |s| <= 127 && 0 !in s
    ensures NonZeros(AllCounted([s] + more)) == (if s == [] then 0 else 1 + |s|) + NonZeros(AllCounted(more))
  {
    assert ([s] + more)[1..] == more;
    var x := s + AllCounted(more);
    assert AllCounted([s] + more) == [|s|] + x;
    assert ([|s|] + x)[1..] == x;
    NonZerosAppend(s, AllCounted(more));
    NonZerosFull(s);
  }

  lemma OverlaidStep(b: seq<byte>, s: seq<byte>, more: seq<seq<byte>>)
    requires |b| > StringsSize([s] + more) && |s| <= 127
    ensures |b| >= |s| + 2 && |b| - 1 > StringsSize(more) && |Stored(b[1..], 0, s + [0])| == |b| - 1
    ensures Overlaid(b, [s] + more) == [|s|] + Overlaid(Stored(b[1..], 0, s + [0]), more)
    ensures StringsSize([s] + more) == 1 + |s| + StringsSize(more)
  {
    assert ([s] + more)[1..] == more;
  }

  /** Writing one string over another destroys a byte of it. */
  lemma {:induction false} OverlaidLoses(b: seq<byte>, ss: seq<seq<byte>>)
    requires |b| > StringsSize(ss) && forall s :: s in ss ==> |s| <= 127 && 0 !in s
    ensures NonZeros(Overlaid(b, ss)) <= NonZeros(b) + NonZeros(AllCounted(ss))
    ensures (ss != [] && b[0] != 0) || !OnlyLast(ss) ==>
              NonZeros(Overlaid(b, ss)) < NonZeros(b) + NonZeros(AllCounted(ss))
    decreases |ss|
  {
    hide *;
    if ss == [] {
      NoStrings(b);
    } else {
      var s, more := ss[0], ss[1..];
      assert ss == [s] + more && s in ss;
      OnlyLastStep(s, more);
      OverlaidStep(b, s, more);
      NonZerosStored(b[1..], s);
      NonZerosCounted(s, more);
      var b' := Stored(b[1..], 0, s + [0]);
      OverlaidLoses(b', more);
      NonZerosFirst(b);
      NonZerosFirst(Overlaid(b, ss));
      assert Overlaid(b, ss)[1..] == Overlaid(b', more);
    }
  }

  lemma NoStrings(b: seq<byte>)
    requires b != []
    ensures StringsSize([]) == 0 && Overlaid(b, []) == b && NonZeros(AllCounted([])) == 0 && OnlyLast([])
    ensures AllCounted([]) == []
  {
  }

  lemma {:induction false} OverlaidKeeps(n: nat, ss: seq<seq<byte>>)
    requires n > StringsSize(ss) && OnlyLast(ss) && forall s :: s in ss ==> |s| <= 127
    ensures Overlaid(Zeros(n), ss) == AllCounted(ss) + Zeros(n - StringsSize(ss))
    decreases |ss|
  {
    hide *;
    ZerosAre(n);
    if ss == [] {
      NoStrings(Zeros(n));
      assert [] + Zeros(n) == Zeros(n);
    } else {
      var s, more := ss[0], ss[1..];
      assert ss == [s] + more && s in ss;
      OnlyLastStep(s, more);
      OverlaidStep(Zeros(n), s, more);
      AllCountedStep(s, more);
      StoredInZeros(n - 1, s);
      if more == [] {
        NoStrings(s + Zeros(n - 1 - |s|));
      } else {
        assert [] + Zeros(n - 1) == Zeros(n - 1);
        OverlaidKeeps(n - 1, more);
      }
    }
  }

  lemma ZerosAre(n: nat)
    ensures n > 0 ==> Zeros(n) != [] && Zeros(n)[1..] == Zeros(n - 1) && Zeros(n)[n - 1] == 0
  {
  }

  lemma AllCountedStep(s: seq<byte>, more: seq<seq<byte>>)
    requires |s| < 256
    ensures AllCounted([s] + more) == [|s|] + s + AllCounted(more)
    ensures |AllCounted(more)| == StringsSize(more)
  {
    assert ([s] + more)[1..] == more;
  }

  lemma StoredInZeros(n: nat, s: seq<byte>)
    requires |s| < n
    ensures Stored(Zeros(n), 0, s + [0]) == s + Zeros(n - |s|)
  {
  }

  /** The strings of a record read back exactly when all but the last are empty; the frame is kept in
      any case. */
  lemma StringsReadBack(ss: seq<seq<byte>>)
    requires forall s :: s in ss ==> |s| <= 127 && 0 !in s
    ensures ReadStrings(RData(Strings(ss))) == Some(ss) <==> OnlyLast(ss)
    ensures Framed(Strings(ss))
  {
    hide *;
    var n := StringsSize(ss);
    var w := Overlaid(Zeros(n + 1), ss);
    StringsDataIs(ss);
    CountedIsRead(ss);
    ReadIsCounted(RData(Strings(ss)));
    ZerosAre(n + 1);
    if OnlyLast(ss) {
      OverlaidKeeps(n + 1, ss);
      assert w[..n] == AllCounted(ss);
    } else {
      OverlaidLoses(Zeros(n + 1), ss);
      NoNonZeros(n + 1);
      OverlaidEnd(Zeros(n + 1), ss);
      assert w == w[..n] + [0];
      NonZerosAppend(w[..n], [0]);
      NonZerosFirst([0]);
    }
  }

  lemma StringsDataIs(ss: seq<seq<byte>>)
    ensures RData(Strings(ss)) == Overlaid(Zeros(StringsSize(ss) + 1), ss)[..StringsSize(ss)]
    ensures |AllCounted(ss)| == StringsSize(ss) && Framed(Strings(ss))
  {
  }

  /** The failing case: "y" is written over "x", and what is left does not read as strings. */
  lemma StringsCollide()
    ensures RData(Strings([[120], [121]])) == [1, 1, 121, 0] && ReadStrings([1, 1, 121, 0]).None?
  {
    var ss: seq<seq<byte>> := [[120], [121]];
    assert ss[1..] == [[121]] && StringsSize([[121]]) == 2 && StringsSize(ss) == 4;
    assert Stored(Zeros(5)[1..], 0, [120] + [0]) == [120, 0, 0, 0];
    assert Stored([120, 0, 0, 0][1..], 0, [121] + [0]) == [121, 0, 0];
    OverlaidStep(Zeros(5), [120], [[121]]);
    OverlaidStep([120, 0, 0, 0], [121], []);
    assert [[120]] + [[121]] == ss && [[121]] + [] == [[121]];
    assert [1, 1, 121, 0][2..] == [121, 0];
  }

  lemma {:induction false} NoNonZeros(n: nat)
    ensures NonZeros(Zeros(n)) == 0
  {
    if n > 0 {
      assert Zeros(n)[1..] == Zeros(n - 1);
      NoNonZeros(n - 1);
    }
  }
}
