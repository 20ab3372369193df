/** Which names are asked for: the search list of `res_init`, and the order of `res_search`. */
module SearchList {
  import opened Wrappers
  import opened Wire
  import opened Qnames

  const MAXDNSRCH: nat := 6
  const MAXDFLSRCH: nat := 3
  const LOCALDOMAINPARTS: nat := 2

  function Dots(t: seq<byte>): nat
  {
    if t == [] then 0 else Dots(t[..|t| - 1]) + if t[|t| - 1] == DOT then 1 else 0
  }

  lemma {:induction false} DotsAppend(a: seq<byte>, b: seq<byte>)
    ensures Dots(a + b) == Dots(a) + Dots(b)
  {
    if b == [] {
      assert a + b == a;
    } else {
      assert (a + b)[..|a + b| - 1] == a + b[..|b| - 1];
      DotsAppend(a, b[..|b| - 1]);
    }
  }

  lemma {:induction false} NoDots(t: seq<byte>)
    ensures Dots(t) == 0 <==> DOT !in t
  {
    if t != [] {
      NoDots(t[..|t| - 1]);
      assert t == t[..|t| - 1] + [t[|t| - 1]];
    }
  }

  lemma OneDot()
    ensures Dots([DOT]) == 1
  {
    assert [DOT][..0] == [];
  }

  lemma DotsPastFirst(t: seq<byte>)
    ensures var n := FirstDot(t);
            if n == |t| then Dots(t) == 0 else Dots(t) == 1 + Dots(t[n + 1..])
  {
    hide *;
    var n := FirstDot(t);
    NoDots(t[..n]);
    if n == |t| {
      assert t[..n] == t;
    } else {
      assert t == t[..n] + ([DOT] + t[n + 1..]);
      DotsAppend(t[..n], [DOT] + t[n + 1..]);
      DotsAppend([DOT], t[n + 1..]);
      OneDot();
    }
  }

  /** The place after the `k`th dot. */
  function AfterDots(t: seq<byte>, k: nat): (p: nat)
    requires k <= Dots(t)
    ensures p <= |t| && Dots(t[p..]) == Dots(t) - k
    ensures k > 0 ==> p > 0 && t[p - 1] == DOT
  {
    if k == 0 then
      assert t[0..] == t;
      0
    else
      PastDot(t, AfterDots(t, k - 1));
      AfterDots(t, k - 1) + FirstDot(t[AfterDots(t, k - 1)..]) + 1
  }

  lemma PastDot(t: seq<byte>, p: nat)
    requires p <= |t| && Dots(t[p..]) > 0
    ensures var q := p + FirstDot(t[p..]);
            q < |t| && t[q] == DOT && Dots(t[q + 1..]) == Dots(t[p..]) - 1
  {
    hide *;
    DotsPastFirst(t[p..]);
    assert p + FirstDot(t[p..]) < |t| ==> t[p..][FirstDot(t[p..]) + 1..] == t[p + FirstDot(t[p..]) + 1..];
  }

  lemma AfterDotsNext(t: seq<byte>, k: nat)
    requires k + 1 <= Dots(t)
    ensures AfterDots(t, k + 1) == AfterDots(t, k) + FirstDot(t[AfterDots(t, k)..]) + 1
  {
  }

  lemma AfterDotsFirst(t: seq<byte>)
    ensures AfterDots(t, 0) == 0
  {
  }

  lemma AfterDotsGrow(t: seq<byte>, k: nat)
    requires k + 1 <= Dots(t)
    ensures AfterDots(t, k) < AfterDots(t, k + 1)
  {
  }

  /** How many entries the list has. */
  function Entries(domain: seq<byte>): (n: nat)
    ensures 1 <= n <= MAXDFLSRCH
  {
    if Dots(domain) < LOCALDOMAINPARTS then 1
    else if Dots(domain) == LOCALDOMAINPARTS then 2
    else 3
  }

  /** Counts the dots of a string. */
  method CountDots(t: seq<byte>) returns (n: nat)
    requires 0 !in t
    ensures n == Dots(t)
  {
    var cp := 0;
    n := 0;
    while CharAt(t, cp) != 0
      invariant cp <= |t| && n == Dots(t[..cp])
      decreases |t| - cp
    {
      assert t[..cp + 1][..cp] == t[..cp];
      if t[cp] == DOT {
        n := n + 1;
      }
      cp := cp + 1;
    }
    assert t[..cp] == t;
  }

  lemma Limits(domain: seq<byte>)
    ensures MAXDNSRCH == 6 && MAXDFLSRCH == 3 && LOCALDOMAINPARTS == 2
    ensures Entries(domain) == if Dots(domain) < 2 then 1 else if Dots(domain) == 2 then 2 else 3
  {
  }

  /** Fills the search list: entry `k` is where the domain goes on after its `k`th dot. */
  method BuildSearchList(defdname: seq<byte>, dnsrch: array<int>)
    requires 0 !in defdname && dnsrch.Length == MAXDNSRCH + 1
    modifies dnsrch
    ensures forall k :: 0 <= k < Entries(defdname) ==>
              k <= Dots(defdname) && dnsrch[k] == AfterDots(defdname, k)
    ensures dnsrch[Entries(defdname)] == NULL
  {
    hide *;
    Limits(defdname);
    AfterDotsFirst(defdname);
    var pp: nat, cp: nat := 0, 0;
    dnsrch[pp] := 0;
    pp := pp + 1;
    var n := CountDots(defdname);
    while n >= LOCALDOMAINPARTS && pp < MAXDFLSRCH
      invariant 1 <= pp <= 3 && n == Dots(defdname) - (pp - 1) && pp <= Entries(defdname)
      invariant cp == AfterDots(defdname, pp - 1)
      invariant forall k :: 0 <= k < pp ==> k <= Dots(defdname) && dnsrch[k] == AfterDots(defdname, k)
      decreases n
    {
      AfterDotsNext(defdname, pp - 1);
      cp := FindDot(defdname, cp);
      cp := cp + 1;
      dnsrch[pp] := cp;
      pp := pp + 1;
      n := n - 1;
    }
    dnsrch[pp] := NULL;
  }

  /** The list has one to three entries; each is a suffix of the domain that starts at a label, each
      shorter than the one before, and all but the first keep at least two labels. */
  lemma SearchListShape(domain: seq<byte>, k: nat)
    requires k < Entries(domain)
    ensures k <= Dots(domain)
    ensures k == 0 ==> AfterDots(domain, k) == 0
    ensures k > 0 ==> domain[AfterDots(domain, k) - 1] == DOT
    ensures k > 0 ==> AfterDots(domain, k - 1) < AfterDots(domain, k)
    ensures k > 0 ==> Dots(domain[AfterDots(domain, k)..]) >= 1
    ensures Entries(domain) == if Dots(domain) < 2 then 1 else if Dots(domain) == 2 then 2 else 3
  {
    if k > 0 {
      AfterDotsGrow(domain, k - 1);
    }
  }

  // ----- res_search

  /** The names that are asked for, in order. A name without dots is tried as its alias first, if it
      has one, then in each domain of the list, if that option is set; and every name at last as it
      is. */
  function Candidates(name: seq<byte>, alias: Option<seq<byte>>, domains: seq<seq<byte>>, defnames: bool)
    : (cs: seq<seq<byte>>)
    ensures cs != []
  {
    AliasNames(name, alias) + DomainNames(name, domains, defnames) + [name]
  }

  function AliasNames(name: seq<byte>, alias: Option<seq<byte>>): (cs: seq<seq<byte>>)
  {
    if Dots(name) == 0 && alias.Some? && alias.value != [] then [alias.value] else []
  }

  function DomainNames(name: seq<byte>, domains: seq<seq<byte>>, defnames: bool): (cs: seq<seq<byte>>)
  {
    if Dots(name) == 0 && defnames then seq(|domains|, k requires 0 <= k < |domains| => name + [DOT] + domains[k])
    else []
  }

  /** The answer to the first name that has one, or -1. */
  function FirstHit(cs: seq<seq<byte>>, lookup: seq<byte> -> Option<nat>): int
  {
    if cs == [] then -1
    else if lookup(cs[0]).Some? then lookup(cs[0]).value
    else FirstHit(cs[1..], lookup)
  }

  lemma {:induction false} FirstHitIsFirst(cs: seq<seq<byte>>, lookup: seq<byte> -> Option<nat>, k: nat)
    requires k <= |cs| && forall j :: 0 <= j < k ==> lookup(cs[j]).None?
    ensures FirstHit(cs, lookup) == FirstHit(cs[k..], lookup)
    ensures k < |cs| && lookup(cs[k]).Some? ==> FirstHit(cs, lookup) == lookup(cs[k]).value
    ensures k == |cs| ==> FirstHit(cs, lookup) == -1
  {
    if k == 0 {
      assert cs[0..] == cs;
    } else {
      assert lookup(cs[0]).None?;
      assert forall j :: 0 <= j < k - 1 ==> cs[1..][j] == cs[j + 1];
      FirstHitIsFirst(cs[1..], lookup, k - 1);
      assert cs[1..][k - 1..] == cs[k..];
    }
  }

  /** The domains on a list of places in `defdname`. */
  function Domains(defdname: seq<byte>, places: seq<int>): seq<seq<byte>>
    requires forall p :: p in places ==> 0 <= p <= |defdname|
  {
    seq(|places|, k requires 0 <= k < |places| =>
      assert places[k] in places;
      defdname[places[k]..])
  }

  /** The first `k` names were asked for and had no answer. */
  ghost predicate Unanswered(cs: seq<seq<byte>>, lookup: seq<byte> -> Option<nat>, k: nat)
  {
    k <= |cs| && forall j :: 0 <= j < k ==> lookup(cs[j]).None?
  }

  lemma UnansweredFirst(cs: seq<seq<byte>>, lookup: seq<byte> -> Option<nat>)
    ensures Unanswered(cs, lookup, 0)
  {
  }

  lemma AskNext(cs: seq<seq<byte>>, lookup: seq<byte> -> Option<nat>, k: nat)
    requires k < |cs| && Unanswered(cs, lookup, k)
    ensures lookup(cs[k]).Some? ==> FirstHit(cs, lookup) == lookup(cs[k]).value
    ensures lookup(cs[k]).None? ==> Unanswered(cs, lookup, k + 1) && (k + 1 == |cs| ==> FirstHit(cs, lookup) == -1)
  {
    FirstHitIsFirst(cs, lookup, k);
    if lookup(cs[k]).None? {
      FirstHitIsFirst(cs, lookup, k + 1);
    }
  }

  /** Where each name stands among those that are asked for. */
  lemma CandidatesAre(name: seq<byte>, alias: Option<seq<byte>>, defdname: seq<byte>, places: seq<int>,
                      defnames: bool)
    requires forall k :: 0 <= k < |places| ==> 0 <= places[k] <= |defdname|
    ensures var domains := Domains(defdname, places);
            var cs, f := Candidates(name, alias, domains, defnames), |AliasNames(name, alias)|;
            && f == (if Dots(name) == 0 && alias.Some? && alias.value != [] then 1 else 0)
            && (f == 1 ==> cs[0] == alias.value)
            && |cs| == f + (if Dots(name) == 0 && defnames then |places| else 0) + 1
            && (forall k :: 0 <= k < |places| && |cs| > f + 1 ==> cs[f + k] == name + [DOT] + defdname[places[k]..])
            && cs[|cs| - 1] == name
  {
  }

  lemma NullIsNoPlace()
    ensures NULL < 0
  {
  }

  /** Asks for one name after the other until one is answered. */
  method ResSearch(name: seq<byte>, alias: Option<seq<byte>>, defdname: seq<byte>, dnsrch: array<int>,
                   ghost count: nat, defnames: bool, lookup: seq<byte> -> Option<nat>) returns (r: int)
    requires 0 !in name && count < dnsrch.Length && dnsrch[count] == NULL
    requires forall k :: 0 <= k < count ==> 0 <= dnsrch[k] <= |defdname|
    ensures r == FirstHit(Candidates(name, alias, Domains(defdname, dnsrch[..count]), defnames), lookup)
  {
    hide *;
    var n := CountDots(name);
    ghost var cs := Candidates(name, alias, Domains(defdname, dnsrch[..count]), defnames);
    ghost var asked := 0;
    CandidatesAre(name, alias, defdname, dnsrch[..count], defnames);
    UnansweredFirst(cs, lookup);
    NullIsNoPlace();
    if n == 0 && alias.Some? && alias.value != [] {
      AskNext(cs, lookup, asked);
      var status := lookup(alias.value);
      if status.Some? {
        return status.value;
      }
      asked := 1;
    }
    if n == 0 && defnames {
      ghost var first := asked;
      var domain := 0;
      while dnsrch[domain] != NULL
        invariant domain <= count && asked == first + domain && Unanswered(cs, lookup, asked)
        decreases count - domain
      {
        AskNext(cs, lookup, asked);
        var queryname := name + [DOT] + defdname[dnsrch[domain]..];
        assert queryname == cs[first + domain];
        var status := lookup(queryname);
        if status.Some? {
          return status.value;
        }
        domain, asked := domain + 1, asked + 1;
      }
    }
    AskNext(cs, lookup, asked);
    var status := lookup(name);
    if status.None? {
      return -1;
    }
    return status.value;
  }
}
