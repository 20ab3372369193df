/** `do_res_search`: a record list becomes a response message (section 4.1.1 of RFC 1035). */
module Response {
  import opened Wrappers
  import opened Wire
  import opened NameText
  import opened Expand
  import opened SkipName
  import opened Qnames
  import opened Record
  import opened Reader

  const MAX_MSG_SIZE: nat := 0x8000
  const HEADER_SIZE: nat := 12

  /** The pass for the section `pass` takes this record. The answers also take the records of the
      question section when a PTR record was asked for. */
  predicate Selected(r: Rr, pass: Section, qtype: ushort)
  {
    r.section == pass || (pass.Answer? && qtype == TYPE_PTR && r.section.Question?)
  }

  /** The records a pass takes, in list order. */
  function Chosen(rs: seq<Rr>, pass: Section, qtype: ushort): (cs: seq<Rr>)
    ensures |cs| <= |rs|
    ensures forall c :: c in cs ==> c in rs && Selected(c, pass, qtype)
  {
    if rs == [] then []
    else
      var r := rs[|rs| - 1];
      Chosen(rs[..|rs| - 1], pass, qtype) + if Selected(r, pass, qtype) then [r] else []
  }

  /** The bytes of several records. */
  function RrsBytes(rs: seq<Rr>, qclass: ushort): seq<byte>
  {
    if rs == [] then []
    else RrsBytes(rs[..|rs| - 1], qclass) + RrBytes(rs[|rs| - 1], qclass)
  }

  /** The order of the passes. */
  function AllChosen(rs: seq<Rr>, qtype: ushort): seq<Rr>
  {
    Chosen(rs, Answer, qtype) + Chosen(rs, Authority, qtype) + Chosen(rs, Additional, qtype)
  }

  // ----- the passes partition the list

  lemma ChosenStep(front: seq<Rr>, r: Rr, pass: Section, qtype: ushort)
    ensures Chosen(front + [r], pass, qtype) ==
            Chosen(front, pass, qtype) + if Selected(r, pass, qtype) then [r] else []
  {
    assert (front + [r])[..|front|] == front;
  }

  lemma ChosenNothing(pass: Section, qtype: ushort)
    ensures Chosen([], pass, qtype) == []
  {
  }

  lemma {:induction false} ChosenAppend(a: seq<Rr>, b: seq<Rr>, pass: Section, qtype: ushort)
    ensures Chosen(a + b, pass, qtype) == Chosen(a, pass, qtype) + Chosen(b, pass, qtype)
  {
    hide *;
    if b == [] {
      ChosenNothing(pass, qtype);
      assert a + b == a;
    } else {
      var front, r := b[..|b| - 1], b[|b| - 1];
      assert b == front + [r] && a + b == (a + front) + [r];
      ChosenAppend(a, front, pass, qtype);
      ChosenStep(front, r, pass, qtype);
      ChosenStep(a + front, r, pass, qtype);
    }
  }

  /** The records no pass takes: those of the question section, unless a PTR record was asked for. */
  predicate Dropped(r: Rr, qtype: ushort)
  {
    r.section.Question? && qtype != TYPE_PTR
  }

  function Taken(rs: seq<Rr>, qtype: ushort): seq<Rr>
  {
    if rs == [] then []
    else
      var r := rs[|rs| - 1];
      Taken(rs[..|rs| - 1], qtype) + if Dropped(r, qtype) then [] else [r]
  }

  /** The three passes together take every record that is not dropped, each once. (Each pass keeps
      the order of the list: it is a filter, as `ChosenAppend` shows.) */
  lemma {:induction false} PassesPartition(rs: seq<Rr>, qtype: ushort)
    ensures multiset(AllChosen(rs, qtype)) == multiset(Taken(rs, qtype))
  {
    if rs != [] {
      var front, r := rs[..|rs| - 1], rs[|rs| - 1];
      PassesPartition(front, qtype);
      PassesTakeOne(front, r, qtype);
      assert rs == front + [r];
    }
  }

  /** The next record goes to one pass, or is dropped. */
  lemma PassesTakeOne(front: seq<Rr>, r: Rr, qtype: ushort)
    ensures multiset(AllChosen(front + [r], qtype)) ==
            multiset(AllChosen(front, qtype)) + if Dropped(r, qtype) then multiset{} else multiset{r}
    ensures multiset(Taken(front + [r], qtype)) ==
            multiset(Taken(front, qtype)) + if Dropped(r, qtype) then multiset{} else multiset{r}
  {
    hide *;
    ChosenLast(front, r, Answer, qtype);
    ChosenLast(front, r, Authority, qtype);
    ChosenLast(front, r, Additional, qtype);
    TakenLast(front, r, qtype);
    AllChosenIs(front, qtype);
    AllChosenIs(front + [r], qtype);
    OnePassEach(r, qtype);
  }

  lemma ChosenLast(front: seq<Rr>, r: Rr, pass: Section, qtype: ushort)
    ensures multiset(Chosen(front + [r], pass, qtype)) ==
            multiset(Chosen(front, pass, qtype)) + if Selected(r, pass, qtype) then multiset{r} else multiset{}
  {
    assert (front + [r])[..|front|] == front;
  }

  lemma TakenLast(front: seq<Rr>, r: Rr, qtype: ushort)
    ensures multiset(Taken(front + [r], qtype)) ==
            multiset(Taken(front, qtype)) + if Dropped(r, qtype) then multiset{} else multiset{r}
  {
    assert (front + [r])[..|front|] == front;
  }

  lemma AllChosenIs(rs: seq<Rr>, qtype: ushort)
    ensures AllChosen(rs, qtype) ==
            Chosen(rs, Answer, qtype) + Chosen(rs, Authority, qtype) + Chosen(rs, Additional, qtype)
    ensures multiset(AllChosen(rs, qtype)) ==
            multiset(Chosen(rs, Answer, qtype)) + multiset(Chosen(rs, Authority, qtype))
            + multiset(Chosen(rs, Additional, qtype))
  {
  }

  /** A record is taken by one pass, or dropped. */
  lemma OnePassEach(r: Rr, qtype: ushort)
    ensures Dropped(r, qtype) ==>
              !Selected(r, Answer, qtype) && !Selected(r, Authority, qtype) && !Selected(r, Additional, qtype)
    ensures !Dropped(r, qtype) ==>
              || (Selected(r, Answer, qtype) && !Selected(r, Authority, qtype) && !Selected(r, Additional, qtype))
              || (!Selected(r, Answer, qtype) && Selected(r, Authority, qtype) && !Selected(r, Additional, qtype))
              || (!Selected(r, Answer, qtype) && !Selected(r, Authority, qtype) && Selected(r, Additional, qtype))
  {
  }

  // ----- the sections of the records taken, by section and number

  /** The authority and the additional pass take exactly the records of those sections, and the answer
      pass those of the answer section and, when type 12 (PTR) was asked for, of the question
      section; each as often as it is in the list. */
  lemma {:induction false} SectionsTaken(rs: seq<Rr>, qtype: ushort, r: Rr)
    ensures multiset(Chosen(rs, Authority, qtype))[r] == if r.section == Authority then multiset(rs)[r] else 0
    ensures multiset(Chosen(rs, Additional, qtype))[r] == if r.section == Additional then multiset(rs)[r] else 0
    ensures multiset(Chosen(rs, Answer, qtype))[r] ==
            if r.section == Answer || (r.section == Question && qtype == 12) then multiset(rs)[r] else 0
  {
    if rs != [] {
      var front, x := rs[..|rs| - 1], rs[|rs| - 1];
      assert rs == front + [x];
      SectionsTaken(front, qtype, r);
      ChosenLast(front, x, Answer, qtype);
      ChosenLast(front, x, Authority, qtype);
      ChosenLast(front, x, Additional, qtype);
      SelectedExactly(x, qtype);
    }
  }

  lemma SelectedExactly(r: Rr, qtype: ushort)
    ensures Selected(r, Authority, qtype) <==> r.section == Authority
    ensures Selected(r, Additional, qtype) <==> r.section == Additional
    ensures Selected(r, Answer, qtype) <==> r.section == Answer || (r.section == Question && qtype == 12)
  {
  }

  /** The places in the list of the records of a section. */
  function PlacesOf(rs: seq<Rr>, section: Section): (ks: set<nat>)
    ensures forall k: nat :: k in ks <==> k < |rs| && rs[k].section == section
  {
    set k: nat | k < |rs| && rs[k].section == section
  }

  lemma PlacesMore(front: seq<Rr>, r: Rr, section: Section)
    ensures |PlacesOf(front + [r], section)| == |PlacesOf(front, section)| + if r.section == section then 1 else 0
  {
    var a, b := PlacesOf(front, section), PlacesOf(front + [r], section);
    if r.section == section {
      assert b == a + {|front|};
    } else {
      assert b == a;
    }
  }

  /** How many records the passes take. */
  lemma {:induction false} SectionSizes(rs: seq<Rr>, qtype: ushort)
    ensures |Chosen(rs, Authority, qtype)| == |PlacesOf(rs, Authority)|
    ensures |Chosen(rs, Additional, qtype)| == |PlacesOf(rs, Additional)|
    ensures |Chosen(rs, Answer, qtype)| ==
            |PlacesOf(rs, Answer)| + if qtype == 12 then |PlacesOf(rs, Question)| else 0
  {
    if rs == [] {
      assert PlacesOf(rs, Authority) == {} && PlacesOf(rs, Additional) == {};
      assert PlacesOf(rs, Answer) == {} && PlacesOf(rs, Question) == {};
    } else {
      var front, r := rs[..|rs| - 1], rs[|rs| - 1];
      assert rs == front + [r];
      SectionSizes(front, qtype);
      ChosenStep(front, r, Answer, qtype);
      ChosenStep(front, r, Authority, qtype);
      ChosenStep(front, r, Additional, qtype);
      PlacesMore(front, r, Answer);
      PlacesMore(front, r, Authority);
      PlacesMore(front, r, Additional);
      PlacesMore(front, r, Question);
      SelectedExactly(r, qtype);
    }
  }

  /** The order of the message: the answers, then the authorities, then the additional records. */
  lemma PartsInOrder(rs: seq<Rr>, qtype: ushort, k: nat)
    requires k < |AllChosen(rs, qtype)|
    ensures var an := |PlacesOf(rs, Answer)| + if qtype == 12 then |PlacesOf(rs, Question)| else 0;
            var ns := |PlacesOf(rs, Authority)|;
            var section := AllChosen(rs, qtype)[k].section;
            if k < an then section == Answer || (section == Question && qtype == 12)
            else if k < an + ns then section == Authority
            else section == Additional
  {
    SectionSizes(rs, qtype);
    var r := AllChosen(rs, qtype)[k];
    SelectedExactly(r, qtype);
    var a, n := Chosen(rs, Answer, qtype), Chosen(rs, Authority, qtype);
    if k < |a| {
      assert r == a[k];
    } else if k < |a| + |n| {
      assert r == n[k - |a|];
    } else {
      assert r == Chosen(rs, Additional, qtype)[k - |a| - |n|];
    }
  }

  // ----- the message

  /** The header: id; response, authoritative, recursion desired and available, primary; the counts. */
  function Header(id: ushort, recurse: bool, primary: bool, an: ushort, ns: ushort, ar: ushort): (r: seq<byte>)
    ensures |r| == HEADER_SIZE
  {
    ShortBytes(id) + [0x84 + if recurse then 1 else 0, 0x80 + if primary then 0x40 else 0]
    + ShortBytes(1) + ShortBytes(an) + ShortBytes(ns) + ShortBytes(ar)
  }

  function QuestionBytes(name: seq<byte>, qtype: ushort, qclass: ushort): seq<byte>
  {
    Qname(name) + ShortBytes(qtype) + ShortBytes(qclass)
  }

  datatype Query = Query(name: seq<byte>, qtype: ushort, qclass: ushort)

  function Body(q: Query, rs: seq<Rr>): seq<byte>
  {
    QuestionBytes(q.name, q.qtype, q.qclass)
    + RrsBytes(Chosen(rs, Answer, q.qtype), q.qclass)
    + RrsBytes(Chosen(rs, Authority, q.qtype), q.qclass)
    + RrsBytes(Chosen(rs, Additional, q.qtype), q.qclass)
  }

  function Count(rs: seq<Rr>, pass: Section, qtype: ushort): ushort
  {
    |Chosen(rs, pass, qtype)| % 0x1_0000
  }

  function Message(id: ushort, recurse: bool, primary: bool, q: Query, rs: seq<Rr>): seq<byte>
  {
    Header(id, recurse, primary, Count(rs, Answer, q.qtype), Count(rs, Authority, q.qtype),
           Count(rs, Additional, q.qtype))
    + Body(q, rs)
  }

  /** The records fit the fixed buffer, with a cell for the NUL that a string brings along. */
  predicate FitsBuffer(q: Query, rs: seq<Rr>)
  {
    HEADER_SIZE + |Body(q, rs)| + (if exists r :: r in rs && r.data.Strings? then 1 else 0) <= MAX_MSG_SIZE
  }

  lemma ChosenNext(rs: seq<Rr>, k: nat, pass: Section, qtype: ushort)
    requires k < |rs|
    ensures Chosen(rs[..k + 1], pass, qtype) ==
            Chosen(rs[..k], pass, qtype) + if Selected(rs[k], pass, qtype) then [rs[k]] else []
  {
    assert rs[..k + 1][..k] == rs[..k];
  }

  lemma RrsNext(rs: seq<Rr>, r: Rr, qclass: ushort)
    ensures RrsBytes(rs + [r], qclass) == RrsBytes(rs, qclass) + RrBytes(r, qclass)
  {
    assert (rs + [r])[..|rs|] == rs;
  }

  /** No prefix of the list needs more room than the list. */
  lemma {:induction false} RrsGrow(rs: seq<Rr>, k: nat, pass: Section, qtype: ushort, qclass: ushort)
    requires k <= |rs|
    ensures |RrsBytes(Chosen(rs[..k], pass, qtype), qclass)| <= |RrsBytes(Chosen(rs, pass, qtype), qclass)|
    decreases |rs| - k
  {
    hide *;
    if k < |rs| {
      RrsGrow(rs, k + 1, pass, qtype, qclass);
      ChosenNext(rs, k, pass, qtype);
      if Selected(rs[k], pass, qtype) {
        RrsNext(Chosen(rs[..k], pass, qtype), rs[k], qclass);
      } else {
        assert Chosen(rs[..k], pass, qtype) + [] == Chosen(rs[..k], pass, qtype);
      }
    } else {
      assert rs[..k] == rs;
    }
  }

  /** In the middle of a pass: the records of `rs[..k]` are written from `at` on. */
  ghost predicate Passing(now: seq<byte>, before: seq<byte>, at: nat, rs: seq<Rr>, k: nat,
                          pass: Section, q: Query, cp: nat, n: nat)
  {
    k <= |rs| &&
    var cs := Chosen(rs[..k], pass, q.qtype);
    && at + |RrsBytes(cs, q.qclass)| <= |before|
    && now == Stored(before, at, RrsBytes(cs, q.qclass))
    && cp == at + |RrsBytes(cs, q.qclass)| && n == |cs| && ZeroFrom(now, cp)
  }

  lemma PassingFirst(before: seq<byte>, at: nat, rs: seq<Rr>, pass: Section, q: Query)
    requires at <= |before| && ZeroFrom(before, at)
    ensures Passing(before, before, at, rs, 0, pass, q, at, 0)
  {
    StoreNothing(before, at);
  }

  lemma PassingBy(now: seq<byte>, before: seq<byte>, at: nat, rs: seq<Rr>, k: nat,
                  pass: Section, q: Query, cp: nat, n: nat)
    requires Passing(now, before, at, rs, k, pass, q, cp, n) && k < |rs|
    ensures !Selected(rs[k], pass, q.qtype) ==> Passing(now, before, at, rs, k + 1, pass, q, cp, n)
  {
    ChosenNext(rs, k, pass, q.qtype);
    assert Chosen(rs[..k], pass, q.qtype) + [] == Chosen(rs[..k], pass, q.qtype);
  }

  lemma PassingRoom(now: seq<byte>, before: seq<byte>, at: nat, rs: seq<Rr>, k: nat,
                    pass: Section, q: Query, cp: nat, n: nat)
    requires Passing(now, before, at, rs, k, pass, q, cp, n) && k < |rs|
    ensures |now| == |before| && ZeroFrom(now, cp)
    ensures Selected(rs[k], pass, q.qtype) ==>
              cp + |RrBytes(rs[k], q.qclass)| <= at + |RrsBytes(Chosen(rs, pass, q.qtype), q.qclass)|
  {
    StoredPrefix(before, at, RrsBytes(Chosen(rs[..k], pass, q.qtype), q.qclass));
    if Selected(rs[k], pass, q.qtype) {
      ChosenNext(rs, k, pass, q.qtype);
      RrsNext(Chosen(rs[..k], pass, q.qtype), rs[k], q.qclass);
      RrsGrow(rs, k + 1, pass, q.qtype, q.qclass);
    }
  }

  lemma PassingOn(now: seq<byte>, before: seq<byte>, at: nat, rs: seq<Rr>, k: nat,
                  pass: Section, q: Query, cp: nat, n: nat, now': seq<byte>)
    requires Passing(now, before, at, rs, k, pass, q, cp, n) && k < |rs| && Selected(rs[k], pass, q.qtype)
    requires cp + |RrBytes(rs[k], q.qclass)| <= |now| && now' == Stored(now, cp, RrBytes(rs[k], q.qclass))
    requires ZeroFrom(now', cp + |RrBytes(rs[k], q.qclass)|)
    ensures Passing(now', before, at, rs, k + 1, pass, q, cp + |RrBytes(rs[k], q.qclass)|, n + 1)
  {
    var cs := Chosen(rs[..k], pass, q.qtype);
    ChosenNext(rs, k, pass, q.qtype);
    RrsNext(cs, rs[k], q.qclass);
    StoredPrefix(before, at, RrsBytes(cs, q.qclass));
    StoreMore(before, at, RrsBytes(cs, q.qclass), RrBytes(rs[k], q.qclass));
  }

  lemma PassingLast(now: seq<byte>, before: seq<byte>, at: nat, rs: seq<Rr>,
                    pass: Section, q: Query, cp: nat, n: nat)
    requires Passing(now, before, at, rs, |rs|, pass, q, cp, n)
    ensures var cs := Chosen(rs, pass, q.qtype);
            && at + |RrsBytes(cs, q.qclass)| <= |before|
            && now == Stored(before, at, RrsBytes(cs, q.qclass))
            && cp == at + |RrsBytes(cs, q.qclass)| && n == |cs| && ZeroFrom(now, cp)
  {
    assert rs[..|rs|] == rs;
  }

  lemma RoomIs(r: Rr, qclass: ushort)
    ensures RrRoom(r, qclass) == |RrBytes(r, qclass)| + if r.data.Strings? then 1 else 0
  {
  }

  /** One pass over the list. */
  method PutSection(answer: array<byte>, at: nat, rs: seq<Rr>, q: Query, pass: Section)
    returns (n: nat, cp: nat)
    requires forall r :: r in rs ==> WellTyped(r)
    requires at + |RrsBytes(Chosen(rs, pass, q.qtype), q.qclass)|
             + (if exists r :: r in rs && r.data.Strings? then 1 else 0) <= answer.Length
    requires ZeroFrom(answer[..], at)
    modifies answer
    ensures n == |Chosen(rs, pass, q.qtype)|
    ensures cp == at + |RrsBytes(Chosen(rs, pass, q.qtype), q.qclass)|
    ensures answer[..] == Stored(old(answer[..]), at, RrsBytes(Chosen(rs, pass, q.qtype), q.qclass))
    ensures ZeroFrom(answer[..], cp)
  {
    hide *;
    ghost var before := answer[..];
    PassingFirst(before, at, rs, pass, q);
    n, cp := 0, at;
    for k := 0 to |rs|
      invariant Passing(answer[..], before, at, rs, k, pass, q, cp, n)
    {
      ghost var now := answer[..];
      PassingBy(now, before, at, rs, k, pass, q, cp, n);
      PassingRoom(now, before, at, rs, k, pass, q, cp, n);
      if Selected(rs[k], pass, q.qtype) {
        assert rs[k] in rs;
        RoomIs(rs[k], q.qclass);
        var i := BuildRr(answer, cp, rs[k], q.qclass);
        PassingOn(now, before, at, rs, k, pass, q, cp, n, answer[..]);
        cp := cp + i;
        n := n + 1;
      }
    }
    PassingLast(answer[..], before, at, rs, pass, q, cp, n);
  }

  /** The first bytes of a buffer of zeros. */
  ghost predicate Holds(now: seq<byte>, head: seq<byte>, body: seq<byte>)
  {
    && |head| == HEADER_SIZE && |head| + |body| <= |now|
    && now[..|head| + |body|] == head + body
    && ZeroFrom(now, |head| + |body|)
  }

  lemma HoldsMore(now: seq<byte>, head: seq<byte>, body: seq<byte>, more: seq<byte>, now': seq<byte>)
    requires Holds(now, head, body) && |head| + |body| + |more| <= |now|
    requires now' == Stored(now, |head| + |body|, more)
    ensures Holds(now', head, body + more)
  {
    var h := |head| + |body|;
    assert now'[..h + |more|] == now[..h] + more;
    ZeroAfter(now, h, more);
  }

  /** A count is filled into the header after what it counts. */
  lemma HoldsCount(now: seq<byte>, head: seq<byte>, body: seq<byte>, at: nat, x: seq<byte>, now': seq<byte>)
    requires Holds(now, head, body) && at + |x| <= HEADER_SIZE && now' == Stored(now, at, x)
    ensures |head| == HEADER_SIZE && Holds(now', Stored(head, at, x), body)
  {
    var h := |head| + |body|;
    var M, N := now'[..h], Stored(head, at, x) + body;
    assert |M| == |N|;
    forall k | 0 <= k < h ensures M[k] == N[k] {
      assert now[k] == now[..h][k] == (head + body)[k];
    }
  }

  function FirstHeader(id: ushort, recurse: bool, primary: bool): (r: seq<byte>)
    ensures |r| == HEADER_SIZE
  {
    ShortBytes(id) + [0x84 + if recurse then 1 else 0, 0x80 + if primary then 0x40 else 0]
    + ShortBytes(1) + Zeros(6)
  }

  lemma HeaderFilled(id: ushort, recurse: bool, primary: bool, an: ushort, ns: ushort, ar: ushort)
    ensures var h := FirstHeader(id, recurse, primary);
            Stored(Stored(Stored(h, 6, ShortBytes(an)), 8, ShortBytes(ns)), 10, ShortBytes(ar)) ==
            Header(id, recurse, primary, an, ns, ar)
  {
  }

  lemma HoldsAll(now: seq<byte>, head: seq<byte>, body: seq<byte>)
    requires Holds(now, head, body)
    ensures |head + body| <= |now| && now[..|head + body|] == head + body
  {
  }

  lemma HoldsRoom(now: seq<byte>, head: seq<byte>, body: seq<byte>)
    requires Holds(now, head, body)
    ensures |head| == HEADER_SIZE == 12 && HEADER_SIZE + |body| <= |now| && ZeroFrom(now, HEADER_SIZE + |body|)
  {
  }

  method PutHeader(answer: array<byte>, id: ushort, recurse: bool, primary: bool)
    requires answer.Length == MAX_MSG_SIZE && ZeroFrom(answer[..], 0)
    modifies answer
    ensures Holds(answer[..], FirstHeader(id, recurse, primary), [])
  {
    hide *;
    ghost var b := answer[..];
    ghost var flags: seq<byte> := [0x84 + if recurse then 1 else 0, 0x80 + if primary then 0x40 else 0];
    BufferSize();
    PutShort(id, answer, 0);
    ghost var now := answer[..];
    answer[2] := 0x84 + if recurse then 1 else 0;
    answer[3] := 0x80 + if primary then 0x40 else 0;
    StoreTwo(now, 2, flags[0], flags[1], answer[..]);
    assert [flags[0], flags[1]] == flags;
    StoreMore(b, 0, ShortBytes(id), flags);
    PutShort(1, answer, 4);
    StoreMore(b, 0, ShortBytes(id) + flags, ShortBytes(1));
    StoreGap(b, 0, ShortBytes(id) + flags + ShortBytes(1), 6);
    HeaderHeld(b, id, recurse, primary);
  }

  lemma BufferSize()
    ensures MAX_MSG_SIZE == 0x8000 && HEADER_SIZE == 12
  {
  }

  lemma StoreTwo(b: seq<byte>, at: nat, x: byte, y: byte, now: seq<byte>)
    requires at + 2 <= |b| && now == b[at := x][at + 1 := y]
    ensures now == Stored(b, at, [x, y])
  {
  }

  lemma HeaderHeld(b: seq<byte>, id: ushort, recurse: bool, primary: bool)
    requires |b| >= HEADER_SIZE && ZeroFrom(b, 0)
    ensures Holds(Stored(b, 0, FirstHeader(id, recurse, primary)), FirstHeader(id, recurse, primary), [])
    ensures FirstHeader(id, recurse, primary) ==
            ShortBytes(id) + [0x84 + if recurse then 1 else 0, 0x80 + if primary then 0x40 else 0]
            + ShortBytes(1) + Zeros(6)
  {
    var h := FirstHeader(id, recurse, primary);
    ZeroAfter(b, 0, h);
    assert h + [] == h;
    assert Stored(b, 0, h)[..|h|] == h;
  }

  lemma QuestionIs(q: Query)
    ensures QuestionBytes(q.name, q.qtype, q.qclass) == Qname(q.name) + ShortBytes(q.qtype) + ShortBytes(q.qclass)
  {
  }

  /** The question entry. */
  method PutQuestion(answer: array<byte>, at: nat, q: Query) returns (cp: nat)
    requires 0 !in q.name && at + |QuestionBytes(q.name, q.qtype, q.qclass)| <= answer.Length
    modifies answer
    ensures answer[..] == Stored(old(answer[..]), at, QuestionBytes(q.name, q.qtype, q.qclass))
    ensures cp == at + |QuestionBytes(q.name, q.qtype, q.qclass)|
  {
    hide *;
    QuestionIs(q);
    ghost var b := answer[..];
    var i := PutQname(answer, at, q.name);
    cp := at + i;
    PutShort(q.qtype, answer, cp);
    StoreMore(b, at, Qname(q.name), ShortBytes(q.qtype));
    cp := cp + 2;
    PutShort(q.qclass, answer, cp);
    StoreMore(b, at, Qname(q.name) + ShortBytes(q.qtype), ShortBytes(q.qclass));
    cp := cp + 2;
  }

  /** One pass, and its count in the header. */
  method AddSection(answer: array<byte>, at: nat, rs: seq<Rr>, q: Query, pass: Section, field: nat,
                    ghost head: seq<byte>, ghost body: seq<byte>) returns (cp: nat)
    requires forall r :: r in rs ==> WellTyped(r)
    requires Holds(answer[..], head, body) && at == HEADER_SIZE + |body| && field + 2 <= HEADER_SIZE
    requires at + |RrsBytes(Chosen(rs, pass, q.qtype), q.qclass)|
             + (if exists r :: r in rs && r.data.Strings? then 1 else 0) <= answer.Length
    modifies answer
    ensures Holds(answer[..], Stored(head, field, ShortBytes(Count(rs, pass, q.qtype))),
                  body + RrsBytes(Chosen(rs, pass, q.qtype), q.qclass))
    ensures cp == at + |RrsBytes(Chosen(rs, pass, q.qtype), q.qclass)|
  {
    hide *;
    ghost var rr := RrsBytes(Chosen(rs, pass, q.qtype), q.qclass);
    HoldsRoom(answer[..], head, body);
    CountIs(rs, pass, q.qtype);
    ghost var now := answer[..];
    var n: nat;
    n, cp := PutSection(answer, at, rs, q, pass);
    HoldsMore(now, head, body, rr, answer[..]);
    HoldsRoom(answer[..], head, body + rr);
    now := answer[..];
    PutShort(n % 0x1_0000, answer, field);
    HoldsCount(now, head, body + rr, field, ShortBytes(n % 0x1_0000), answer[..]);
  }

  lemma CountIs(rs: seq<Rr>, pass: Section, qtype: ushort)
    ensures Count(rs, pass, qtype) == |Chosen(rs, pass, qtype)| % 0x1_0000
  {
  }

  /** The part of the resolver state that a query uses: the last query id and two option bits. */
  class Resolver {
    var id: ushort
    var recurse: bool
    var primary: bool

    constructor (recurse: bool, primary: bool)
      ensures id == 0 && this.recurse == recurse && this.primary == primary
    {
      id := 0;
      this.recurse := recurse;
      this.primary := primary;
    }

    /** `status` and `rs` are what the system's lookup returned. The whole answer, of which the
        caller's buffer gets as much as fits, is the message with the next query id. */
    method DoResSearch(q: Query, status: int, rs: seq<Rr>, retanswer: array<byte>, retanswerlen: nat,
                       anslen: int) returns (st: int, len: int)
      requires 0 !in q.name && retanswerlen <= retanswer.Length
      requires status == 0 ==> FitsBuffer(q, rs) && forall r :: r in rs ==> WellTyped(r)
      modifies this`id, retanswer
      ensures st == status
      ensures status != 0 ==> len == anslen && id == old(id) && retanswer[..] == old(retanswer[..])
      ensures status == 0 ==>
        var m := Message(id, recurse, primary, q, rs);
        && id == (old(id) + 1) % 0x1_0000
        && len == |m|
        && retanswer[..] ==
           Stored(old(retanswer[..]), 0, m[..if |m| <= retanswerlen then |m| else retanswerlen])
    {
      hide *;
      st, len := status, anslen;
      if status != 0 {
        return;
      }
      FitsBufferIs(q, rs);
      BodyIs(q, rs);
      ghost var h0 := FirstHeader((id + 1) % 0x1_0000, recurse, primary);
      ghost var b0 := QuestionBytes(q.name, q.qtype, q.qclass);
      ghost var ra := RrsBytes(Chosen(rs, Answer, q.qtype), q.qclass);
      ghost var rn := RrsBytes(Chosen(rs, Authority, q.qtype), q.qclass);
      ghost var rd := RrsBytes(Chosen(rs, Additional, q.qtype), q.qclass);
      var answer := NewBuffer();
      id := (id + 1) % 0x1_0000;
      PutHeader(answer, id, recurse, primary);
      HoldsRoom(answer[..], h0, []);
      ghost var now := answer[..];
      var cp := PutQuestion(answer, 12, q);
      HoldsMore(now, h0, [], b0, answer[..]);
      assert [] + b0 == b0;
      ghost var h1 := Stored(h0, 6, ShortBytes(Count(rs, Answer, q.qtype)));
      StoredSize(h0, 6, ShortBytes(Count(rs, Answer, q.qtype)));
      ghost var h2 := Stored(h1, 8, ShortBytes(Count(rs, Authority, q.qtype)));
      StoredSize(h1, 8, ShortBytes(Count(rs, Authority, q.qtype)));
      ghost var h3 := Stored(h2, 10, ShortBytes(Count(rs, Additional, q.qtype)));
      StoredSize(h2, 10, ShortBytes(Count(rs, Additional, q.qtype)));
      cp := AddSection(answer, cp, rs, q, Answer, 6, h0, b0);
      cp := AddSection(answer, cp, rs, q, Authority, 8, h1, b0 + ra);
      cp := AddSection(answer, cp, rs, q, Additional, 10, h2, b0 + ra + rn);
      MessageIs(id, recurse, primary, q, rs);
      HoldsAll(answer[..], h3, b0 + ra + rn + rd);
      len := cp;
      ghost var m := Message(id, recurse, primary, q, rs);
      assert answer[..len] == m && m[..|m|] == m;
      if len > retanswerlen {
        assert answer[..retanswerlen] == answer[..len][..retanswerlen];
        CopyBytes(answer[..retanswerlen], retanswer, 0);
      } else {
        CopyBytes(answer[..len], retanswer, 0);
      }
    }
  }

  method NewBuffer() returns (answer: array<byte>)
    ensures fresh(answer) && answer.Length == MAX_MSG_SIZE && ZeroFrom(answer[..], 0)
  {
    answer := new byte[MAX_MSG_SIZE](_ => 0);
  }

  lemma FitsBufferIs(q: Query, rs: seq<Rr>)
    ensures HEADER_SIZE == 12 && MAX_MSG_SIZE == 0x8000
    ensures FitsBuffer(q, rs) <==>
            HEADER_SIZE + |Body(q, rs)| + (if exists r :: r in rs && r.data.Strings? then 1 else 0) <= MAX_MSG_SIZE
  {
  }

  lemma BodyIs(q: Query, rs: seq<Rr>)
    ensures Body(q, rs) ==
            QuestionBytes(q.name, q.qtype, q.qclass)
            + RrsBytes(Chosen(rs, Answer, q.qtype), q.qclass)
            + RrsBytes(Chosen(rs, Authority, q.qtype), q.qclass)
            + RrsBytes(Chosen(rs, Additional, q.qtype), q.qclass)
  {
  }

  lemma MessageIs(id: ushort, recurse: bool, primary: bool, q: Query, rs: seq<Rr>)
    ensures var an, ns, ar := ShortBytes(Count(rs, Answer, q.qtype)), ShortBytes(Count(rs, Authority, q.qtype)),
                              ShortBytes(Count(rs, Additional, q.qtype));
            Message(id, recurse, primary, q, rs) ==
            Stored(Stored(Stored(FirstHeader(id, recurse, primary), 6, an), 8, ns), 10, ar) + Body(q, rs)
  {
    HeaderFilled(id, recurse, primary, Count(rs, Answer, q.qtype), Count(rs, Authority, q.qtype),
                 Count(rs, Additional, q.qtype));
  }

  // ----- reading the message back

  /** What a reader of a whole message visits: the places of its questions and of its records, and
      where it stands at the end. */
  datatype Visited = Visited(questions: seq<nat>, records: seq<nat>, end: nat)

  /** `n` questions from `at` on: each a name to be skipped, a type and a class. */
  function VisitQuestions(M: seq<byte>, eom: nat, at: nat, n: nat): Option<(seq<nat>, nat)>
    requires eom < |M|
    decreases n
  {
    if n == 0 then Some(([], at))
    else
      match Skip(M, eom, at)
      case None => None
      case Some(size) =>
        if at + size + 4 > eom then None
        else
          match VisitQuestions(M, eom, at + size + 4, n - 1)
          case None => None
          case Some(v) => Some(([at] + v.0, v.1))
  }

  function VisitRecords(M: seq<byte>, eom: nat, at: nat, n: nat): Option<(seq<nat>, nat)>
    requires eom < |M|
    decreases n
  {
    if n == 0 then Some(([], at))
    else
      match ReadFields(M, eom, at)
      case None => None
      case Some(f) =>
        match VisitRecords(M, eom, NextRecord(f), n - 1)
        case None => None
        case Some(v) => Some(([at] + v.0, v.1))
  }

  /** The reader: it starts behind the header and goes by the counts in the header alone. */
  function Visit(M: seq<byte>, eom: nat): Option<Visited>
    requires eom < |M|
  {
    if eom < HEADER_SIZE then None
    else
      match VisitQuestions(M, eom, HEADER_SIZE, ShortAt(M, 4))
      case None => None
      case Some(q) =>
        match VisitRecords(M, eom, q.1, ShortAt(M, 6) + ShortAt(M, 8) + ShortAt(M, 10))
        case None => None
        case Some(v) => Some(Visited(q.0, v.0, v.1))
  }

  /** A record that reads back: a plain owner name, and a type that keeps the frame. */
  predicate Readable(r: Rr)
  {
    WellTyped(r) && PlainName(r.name) && Framed(r.data) && |RData(r.data)| < 0x1_0000
  }

  /** The record at `at` is `r`. */
  predicate IsRecord(M: seq<byte>, eom: nat, at: nat, r: Rr, qclass: ushort)
    requires eom < |M|
  {
    var f := ReadFields(M, eom, at);
    && PlainName(r.name) && Decode(M, eom, at, 0) == Some(Name(Parse(r.name).value, |Qname(r.name)|))
    && f.Some?
    && f.value.rtype == r.rtype && f.value.rclass == qclass && f.value.ttl == r.ttl
    && f.value.length == |RData(r.data)| && At(M, f.value.data, RData(r.data))
  }

  lemma RrsLast(rs: seq<Rr>, qclass: ushort)
    ensures rs == [] ==> RrsBytes(rs, qclass) == []
    ensures rs != [] ==>
              RrsBytes(rs, qclass) == RrsBytes(rs[..|rs| - 1], qclass) + RrBytes(rs[|rs| - 1], qclass)
  {
  }

  lemma {:induction false} RrsAppend(a: seq<Rr>, b: seq<Rr>, qclass: ushort)
    ensures RrsBytes(a + b, qclass) == RrsBytes(a, qclass) + RrsBytes(b, qclass)
  {
    hide *;
    RrsLast(b, qclass);
    if b == [] {
      assert a + b == a;
    } else {
      RrsLast(a + b, qclass);
      assert (a + b)[..|a + b| - 1] == a + b[..|b| - 1];
      RrsAppend(a, b[..|b| - 1], qclass);
    }
  }

  /** The records of the list are visited in turn. */
  lemma {:induction false} VisitsRecords(M: seq<byte>, eom: nat, at: nat, rs: seq<Rr>, qclass: ushort)
    requires forall r :: r in rs ==> Readable(r)
    requires at + |RrsBytes(rs, qclass)| <= eom < |M| && At(M, at, RrsBytes(rs, qclass))
    ensures var v := VisitRecords(M, eom, at, |rs|);
            && v.Some? && v.value.1 == at + |RrsBytes(rs, qclass)| && |v.value.0| == |rs|
            && forall k :: 0 <= k < |rs| ==> IsRecord(M, eom, v.value.0[k], rs[k], qclass)
    decreases |rs|
  {
    hide *;
    if rs == [] {
      RrsLast(rs, qclass);
      VisitsNothing(M, eom, at);
    } else {
      var r, more := rs[0], rs[1..];
      assert rs == [r] + more && r in rs;
      RrsAppend([r], more, qclass);
      RrsOne(r, qclass);
      Apart(M, at, RrBytes(r, qclass), RrsBytes(more, qclass));
      ReadableReads(M, eom, at, r, qclass);
      VisitsRecords(M, eom, at + |RrBytes(r, qclass)|, more, qclass);
      VisitsOneMore(M, eom, at, |more|);
    }
  }

  lemma VisitsNothing(M: seq<byte>, eom: nat, at: nat)
    requires eom < |M|
    ensures VisitRecords(M, eom, at, 0) == Some(([], at))
  {
  }

  lemma VisitsOneMore(M: seq<byte>, eom: nat, at: nat, n: nat)
    requires eom < |M| && ReadFields(M, eom, at).Some?
    requires VisitRecords(M, eom, NextRecord(ReadFields(M, eom, at).value), n).Some?
    ensures var v := VisitRecords(M, eom, NextRecord(ReadFields(M, eom, at).value), n).value;
            VisitRecords(M, eom, at, n + 1) == Some(([at] + v.0, v.1))
  {
  }

  lemma RrsOne(r: Rr, qclass: ushort)
    ensures RrsBytes([r], qclass) == RrBytes(r, qclass)
  {
    assert RrsBytes([r][..0], qclass) == [];
  }

  lemma ReadableReads(M: seq<byte>, eom: nat, at: nat, r: Rr, qclass: ushort)
    requires Readable(r) && at + |RrBytes(r, qclass)| <= eom < |M| && At(M, at, RrBytes(r, qclass))
    ensures IsRecord(M, eom, at, r, qclass)
    ensures ReadFields(M, eom, at).Some? && NextRecord(ReadFields(M, eom, at).value) == at + |RrBytes(r, qclass)|
  {
    RrReads(M, eom, at, r, qclass);
  }

  /** The header reads back: the id; a response, authoritative, of a standard query without error, the
      recursion bits and the primary bit; one question; and the numbers of records by their sections.
      `x` is whatever lies behind the message. */
  lemma HeaderReadsBack(id: ushort, recurse: bool, primary: bool, q: Query, rs: seq<Rr>, x: byte)
    requires FitsBuffer(q, rs)
    ensures var M := Message(id, recurse, primary, q, rs) + [x];
            && |M| > 12
            && ShortAt(M, 0) == id && ShortAt(M, 4) == 1
            && M[2] == 0x84 + (if recurse then 1 else 0) && M[3] == 0x80 + (if primary then 0x40 else 0)
            && ShortAt(M, 6) == |PlacesOf(rs, Answer)| + (if q.qtype == 12 then |PlacesOf(rs, Question)| else 0)
            && ShortAt(M, 8) == |PlacesOf(rs, Authority)|
            && ShortAt(M, 10) == |PlacesOf(rs, Additional)|
            && ShortAt(M, 6) + ShortAt(M, 8) + ShortAt(M, 10) == |AllChosen(rs, q.qtype)|
  {
    hide *;
    MessageParts(id, recurse, primary, q, rs, x);
    CountsAreExact(q, rs);
    SectionSizes(rs, q.qtype);
    BufferSize();
    HeaderReads(Message(id, recurse, primary, q, rs) + [x], id, recurse, primary,
                Count(rs, Answer, q.qtype), Count(rs, Authority, q.qtype), Count(rs, Additional, q.qtype));
  }

  /** The question reads back: the name, stepped over by `__dn_skipname`, then type and class. */
  lemma QuestionReadsBack(id: ushort, recurse: bool, primary: bool, q: Query, rs: seq<Rr>, x: byte)
    requires PlainName(q.name)
    ensures var m := Message(id, recurse, primary, q, rs);
            var n := |Qname(q.name)|;
            && HEADER_SIZE + n + 4 <= |m|
            && Decode(m + [x], |m|, HEADER_SIZE, 0) == Some(Name(Parse(q.name).value, n))
            && Skip(m + [x], |m|, HEADER_SIZE) == Some(n)
            && ShortAt(m + [x], HEADER_SIZE + n) == q.qtype && ShortAt(m + [x], HEADER_SIZE + n + 2) == q.qclass
  {
    hide *;
    MessageParts(id, recurse, primary, q, rs, x);
    QuestionReads(Message(id, recurse, primary, q, rs) + [x], |Message(id, recurse, primary, q, rs)|, q);
  }

  /** The message as a whole reads back: a reader that starts behind the header, takes the counts
      from the header and steps with `__dn_skipname`, `_getshort` and RDLENGTH visits one question,
      then exactly the chosen records in the order of the passes, and stops at the end. `x` is
      whatever lies behind the message. */
  lemma MessageReadsBack(id: ushort, recurse: bool, primary: bool, q: Query, rs: seq<Rr>, x: byte)
    requires FitsBuffer(q, rs) && PlainName(q.name)
    requires forall r :: r in AllChosen(rs, q.qtype) ==> Readable(r)
    ensures var m, all := Message(id, recurse, primary, q, rs), AllChosen(rs, q.qtype);
            var v := Visit(m + [x], |m|);
            && v.Some? && v.value.questions == [HEADER_SIZE] && v.value.end == |m|
            && |v.value.records| == |all|
            && forall k :: 0 <= k < |all| ==> IsRecord(m + [x], |m|, v.value.records[k], all[k], q.qclass)
  {
    hide *;
    var m := Message(id, recurse, primary, q, rs);
    var all := AllChosen(rs, q.qtype);
    MessageParts(id, recurse, primary, q, rs, x);
    HeaderReadsBack(id, recurse, primary, q, rs, x);
    QuestionReads(m + [x], |m|, q);
    VisitsRecords(m + [x], |m|, HEADER_SIZE + |Qname(q.name)| + 4, all, q.qclass);
    VisitsQuestion(m + [x], |m|, |Qname(q.name)|, |all|);
  }

  /** The parts of a visit, when the header announces one question. */
  lemma VisitsQuestion(M: seq<byte>, eom: nat, size: nat, n: nat)
    requires HEADER_SIZE + size + 4 <= eom < |M| && Skip(M, eom, HEADER_SIZE) == Some(size)
    requires ShortAt(M, 4) == 1 && ShortAt(M, 6) + ShortAt(M, 8) + ShortAt(M, 10) == n
    requires VisitRecords(M, eom, HEADER_SIZE + size + 4, n).Some?
    ensures var v := VisitRecords(M, eom, HEADER_SIZE + size + 4, n).value;
            Visit(M, eom) == Some(Visited([HEADER_SIZE], v.0, v.1))
  {
    var at := HEADER_SIZE + size + 4;
    var none: seq<nat> := [];
    assert VisitQuestions(M, eom, at, 0) == Some((none, at));
    assert [HEADER_SIZE] + none == [HEADER_SIZE];
    assert VisitQuestions(M, eom, HEADER_SIZE, 1) == Some(([HEADER_SIZE], at));
  }

  lemma MessageParts(id: ushort, recurse: bool, primary: bool, q: Query, rs: seq<Rr>, x: byte)
    ensures var m := Message(id, recurse, primary, q, rs);
            var qb, all := QuestionBytes(q.name, q.qtype, q.qclass), RrsBytes(AllChosen(rs, q.qtype), q.qclass);
            && |m| == HEADER_SIZE + |qb| + |all|
            && At(m + [x], 0, Header(id, recurse, primary, Count(rs, Answer, q.qtype),
                                     Count(rs, Authority, q.qtype), Count(rs, Additional, q.qtype)))
            && At(m + [x], HEADER_SIZE, qb) && At(m + [x], HEADER_SIZE + |qb|, all)
  {
    hide *;
    var h := Header(id, recurse, primary, Count(rs, Answer, q.qtype), Count(rs, Authority, q.qtype),
                    Count(rs, Additional, q.qtype));
    var a, n, d := Chosen(rs, Answer, q.qtype), Chosen(rs, Authority, q.qtype), Chosen(rs, Additional, q.qtype);
    var qb, all := QuestionBytes(q.name, q.qtype, q.qclass), RrsBytes(AllChosen(rs, q.qtype), q.qclass);
    var m := Message(id, recurse, primary, q, rs);
    RrsAppend(a + n, d, q.qclass);
    RrsAppend(a, n, q.qclass);
    AllChosenIs(rs, q.qtype);
    BodyIs(q, rs);
    MessageSplits(id, recurse, primary, q, rs);
    assert Body(q, rs) == qb + all;
    assert m + [x] == h + (qb + (all + [x]));
    WholeAt(m + [x]);
    Apart(m + [x], 0, h, qb + (all + [x]));
    Apart(m + [x], |h|, qb, all + [x]);
    Apart(m + [x], |h| + |qb|, all, [x]);
  }

  lemma MessageSplits(id: ushort, recurse: bool, primary: bool, q: Query, rs: seq<Rr>)
    ensures Message(id, recurse, primary, q, rs) ==
            Header(id, recurse, primary, Count(rs, Answer, q.qtype), Count(rs, Authority, q.qtype),
                   Count(rs, Additional, q.qtype)) + Body(q, rs)
  {
  }

  lemma WholeAt(M: seq<byte>)
    ensures At(M, 0, M)
  {
  }

  lemma HeaderReads(M: seq<byte>, id: ushort, recurse: bool, primary: bool, an: ushort, ns: ushort, ar: ushort)
    requires At(M, 0, Header(id, recurse, primary, an, ns, ar))
    ensures |M| >= HEADER_SIZE == 12
    ensures ShortAt(M, 0) == id && ShortAt(M, 4) == 1
    ensures ShortAt(M, 6) == an && ShortAt(M, 8) == ns && ShortAt(M, 10) == ar
    ensures M[2] == 0x84 + (if recurse then 1 else 0) && M[3] == 0x80 + (if primary then 0x40 else 0)
  {
    var h := Header(id, recurse, primary, an, ns, ar);
    assert h[..2] == ShortBytes(id) && h[4..6] == ShortBytes(1);
    assert h[6..8] == ShortBytes(an) && h[8..10] == ShortBytes(ns) && h[10..12] == ShortBytes(ar);
    assert M[..12] == h;
    ShortRoundTrip(id, h, 0);
    ShortRoundTrip(1, h, 4);
    ShortRoundTrip(an, h, 6);
    ShortRoundTrip(ns, h, 8);
    ShortRoundTrip(ar, h, 10);
    assert forall k :: 0 <= k < 12 ==> M[k] == M[..12][k];
  }

  lemma QuestionReads(M: seq<byte>, eom: nat, q: Query)
    requires PlainName(q.name) && At(M, HEADER_SIZE, QuestionBytes(q.name, q.qtype, q.qclass))
    requires HEADER_SIZE + |QuestionBytes(q.name, q.qtype, q.qclass)| <= eom < |M|
    ensures var n := |Qname(q.name)|;
            && |QuestionBytes(q.name, q.qtype, q.qclass)| == n + 4
            && Decode(M, eom, HEADER_SIZE, 0) == Some(Name(Parse(q.name).value, n))
            && Skip(M, eom, HEADER_SIZE) == Some(n)
            && ShortAt(M, HEADER_SIZE + n) == q.qtype && ShortAt(M, HEADER_SIZE + n + 2) == q.qclass
  {
    hide *;
    QuestionIs(q);
    Apart(M, HEADER_SIZE, Qname(q.name) + ShortBytes(q.qtype), ShortBytes(q.qclass));
    Apart(M, HEADER_SIZE, Qname(q.name), ShortBytes(q.qtype));
    NameIsAt(M, eom, HEADER_SIZE, q.name);
    ShortIsAt(M, HEADER_SIZE + |Qname(q.name)|, q.qtype);
    ShortIsAt(M, HEADER_SIZE + |Qname(q.name)| + 2, q.qclass);
  }

  lemma {:induction false} RrsBytesCount(rs: seq<Rr>, qclass: ushort)
    ensures |rs| <= |RrsBytes(rs, qclass)|
  {
    hide *;
    RrsLast(rs, qclass);
    if rs != [] {
      RrsBytesCount(rs[..|rs| - 1], qclass);
      RoomOfTail(rs[|rs| - 1], qclass);
    }
  }

  /** In a message of that size no count is cut. */
  lemma CountsAreExact(q: Query, rs: seq<Rr>)
    requires FitsBuffer(q, rs)
    ensures Count(rs, Answer, q.qtype) == |Chosen(rs, Answer, q.qtype)|
    ensures Count(rs, Authority, q.qtype) == |Chosen(rs, Authority, q.qtype)|
    ensures Count(rs, Additional, q.qtype) == |Chosen(rs, Additional, q.qtype)|
    ensures |AllChosen(rs, q.qtype)| ==
            |Chosen(rs, Answer, q.qtype)| + |Chosen(rs, Authority, q.qtype)| + |Chosen(rs, Additional, q.qtype)|
  {
    hide *;
    FitsBufferIs(q, rs);
    BodyIs(q, rs);
    AllChosenIs(rs, q.qtype);
    CountIs(rs, Answer, q.qtype);
    CountIs(rs, Authority, q.qtype);
    CountIs(rs, Additional, q.qtype);
    RrsBytesCount(Chosen(rs, Answer, q.qtype), q.qclass);
    RrsBytesCount(Chosen(rs, Authority, q.qtype), q.qclass);
    RrsBytesCount(Chosen(rs, Additional, q.qtype), q.qclass);
  }
}
