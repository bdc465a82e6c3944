/**
 * What agreement guarantees: verdicts depend on sets of (address, source) pairs alone, more
 * readings only move them up, and peers establish an address only from three different networks.
 */
module Agreement {
  import opened Prelude
  import opened Scope
  import opened Grammar
  import opened Establish

  ghost function PairSet(pairs: seq<Pair>): set<Pair> {
    set p | p in pairs
  }

  ghost function SourceSet(pairs: seq<Pair>): set<string> {
    set p | p in pairs :: p.1
  }

  ghost predicate Unanimous(pairs: seq<Pair>, ip: IpAddr) {
    pairs != [] && forall p :: p in pairs ==> p.0 == ip
  }

  /** Two sources, or three if all of them are peers. */
  ghost predicate Enough(pairs: seq<Pair>) {
    && |SourceSet(pairs)| >= MIN_INDEPENDENT_CLASSES
    && ((exists p :: p in pairs && !IsPeerSource(p.1)) || |SourceSet(pairs)| >= PEER_ONLY_MIN_CLASSES)
  }

  // ----- what the walk over sorted vectors amounts to -----

  lemma ClassesAreSources(pairs: seq<Pair>)
    ensures var classes := SortedDistinct(Sources(pairs), StringKey);
            && |classes| == |SourceSet(pairs)|
            && forall s :: s in classes <==> exists p :: p in pairs && p.1 == s
  {
    var classes := SortedDistinct(Sources(pairs), StringKey);
    KeysInjective();
    SortedDistinctSorts(Sources(pairs), StringKey);
    SortedSize(classes, StringKey);
    forall s ensures s in classes <==> exists p :: p in pairs && p.1 == s {
      if s in classes {
        var i :| 0 <= i < |pairs| && Sources(pairs)[i] == s;
        assert pairs[i] in pairs;
      }
      if p :| p in pairs && p.1 == s {
        var i :| 0 <= i < |pairs| && pairs[i] == p;
        assert Sources(pairs)[i] == s;
      }
    }
    assert (set y | y in classes) == SourceSet(pairs);
  }

  lemma AddrsAreIps(pairs: seq<Pair>)
    ensures var addrs := SortedDistinct(Ips(pairs), IpKey);
            && StrictlySorted(addrs, IpKey)
            && forall a :: a in addrs <==> exists p :: p in pairs && p.0 == a
  {
    var addrs := SortedDistinct(Ips(pairs), IpKey);
    KeysInjective();
    SortedDistinctSorts(Ips(pairs), IpKey);
    forall a ensures a in addrs <==> exists p :: p in pairs && p.0 == a {
      if a in addrs {
        var i :| 0 <= i < |pairs| && Ips(pairs)[i] == a;
        assert pairs[i] in pairs;
      }
      if p :| p in pairs && p.0 == a {
        var i :| 0 <= i < |pairs| && pairs[i] == p;
        assert Ips(pairs)[i] == a;
      }
    }
  }

  lemma OneIffUnanimous(pairs: seq<Pair>)
    requires pairs != []
    ensures |SortedDistinct(Ips(pairs), IpKey)| <= 1 <==> Unanimous(pairs, pairs[0].0)
  {
    var addrs := SortedDistinct(Ips(pairs), IpKey);
    AddrsAreIps(pairs);
    if |addrs| <= 1 {
      OneAddress(pairs);
      forall p | p in pairs ensures p.0 == pairs[0].0 {
        assert p.0 in addrs;
      }
    }
    if |addrs| > 1 {
      LessIrreflexive(IpKey(addrs[0]));
      assert addrs[0] in addrs && addrs[1] in addrs && addrs[0] != addrs[1];
    }
  }

  /** The addresses named, in order and each once. */
  ghost predicate ListsAddresses(pairs: seq<Pair>, addrs: seq<IpAddr>) {
    StrictlySorted(addrs, IpKey) && forall a :: a in addrs <==> exists p :: p in pairs && p.0 == a
  }

  ghost predicate OnlyPeerSources(pairs: seq<Pair>) {
    forall p :: p in pairs ==> IsPeerSource(p.1)
  }

  lemma AddressesListed(pairs: seq<Pair>, addrs: seq<IpAddr>)
    ensures ListsAddresses(pairs, addrs) <==> addrs == SortedDistinct(Ips(pairs), IpKey)
  {
    hide SortedDistinct, Ips;
    AddrsAreIps(pairs);
    if ListsAddresses(pairs, addrs) {
      SortedUnique(addrs, SortedDistinct(Ips(pairs), IpKey), IpKey);
    }
  }

  /** Every verdict with its fields, characterised by the set of pairs. */
  lemma VerdictIff(pairs: seq<Pair>)
    ensures FamilyVerdictOf(pairs) == NoReadings <==> pairs == []
    ensures FamilyVerdictOf(pairs).Disagreement? <==> pairs != [] && !Unanimous(pairs, pairs[0].0)
    ensures forall addrs :: FamilyVerdictOf(pairs) == Disagreement(addrs)
              <==> pairs != [] && !Unanimous(pairs, pairs[0].0) && ListsAddresses(pairs, addrs)
    ensures FamilyVerdictOf(pairs).Insufficient? <==> pairs != [] && Unanimous(pairs, pairs[0].0) && !Enough(pairs)
    ensures forall n, peerOnly :: FamilyVerdictOf(pairs) == Insufficient(n, peerOnly)
              <==> pairs != [] && Unanimous(pairs, pairs[0].0) && !Enough(pairs)
                   && n == |SourceSet(pairs)| && peerOnly == OnlyPeerSources(pairs)
    ensures forall ip, scope :: FamilyVerdictOf(pairs) == NotGlobal(ip, scope)
              <==> Unanimous(pairs, ip) && Enough(pairs) && scope == ScopeOfIp(ip) && scope != GlobalUnicast
    ensures forall ip, n :: FamilyVerdictOf(pairs) == Established(ip, n)
              <==> Unanimous(pairs, ip) && Enough(pairs) && n == |SourceSet(pairs)| && ScopeOfIp(ip) == GlobalUnicast
  {
    hide SortedDistinct, IsPeerSource, ScopeOfIp, ListsAddresses;
    if pairs != [] {
      OneIffUnanimous(pairs);
      ClassesAreSources(pairs);
      assert pairs[0] in pairs;
      forall addrs ensures ListsAddresses(pairs, addrs) <==> addrs == SortedDistinct(Ips(pairs), IpKey) {
        AddressesListed(pairs, addrs);
      }
    }
  }

  // ----- order, repetition and spelling do not matter -----

  lemma SameSetSameVerdict(pairs: seq<Pair>, pairs': seq<Pair>)
    requires PairSet(pairs) == PairSet(pairs')
    ensures FamilyVerdictOf(pairs) == FamilyVerdictOf(pairs')
  {
    hide IsPeerSource, ScopeOfIp;
    assert forall p :: p in pairs <==> p in PairSet(pairs);
    assert forall p :: p in pairs' <==> p in PairSet(pairs');
    assert pairs != [] ==> pairs[0] in PairSet(pairs);
    assert pairs' != [] ==> pairs'[0] in PairSet(pairs');
    if pairs != [] && pairs' != [] {
      SameAddrs(pairs, pairs');
      SameClasses(pairs, pairs');
      if |SortedDistinct(Ips(pairs), IpKey)| <= 1 {
        OneAddress(pairs);
        OneAddress(pairs');
      }
    }
  }

  lemma SameAddrs(pairs: seq<Pair>, pairs': seq<Pair>)
    requires forall p :: p in pairs <==> p in pairs'
    ensures SortedDistinct(Ips(pairs), IpKey) == SortedDistinct(Ips(pairs'), IpKey)
  {
    hide SortedDistinct;
    AddrsAreIps(pairs);
    AddrsAreIps(pairs');
    SortedUnique(SortedDistinct(Ips(pairs), IpKey), SortedDistinct(Ips(pairs'), IpKey), IpKey);
  }

  lemma SameClasses(pairs: seq<Pair>, pairs': seq<Pair>)
    requires forall p :: p in pairs <==> p in pairs'
    ensures SortedDistinct(Sources(pairs), StringKey) == SortedDistinct(Sources(pairs'), StringKey)
  {
    hide SortedDistinct;
    ClassesAreSources(pairs);
    ClassesAreSources(pairs');
    KeysInjective();
    SortedDistinctSorts(Sources(pairs), StringKey);
    SortedDistinctSorts(Sources(pairs'), StringKey);
    SortedUnique(SortedDistinct(Sources(pairs), StringKey), SortedDistinct(Sources(pairs'), StringKey), StringKey);
  }

  /** What the readings say, without order, repetition, ports, reporters or address spelling. */
  ghost function Says(readings: seq<Reading>): set<Pair> {
    set r | r in readings :: (FoldIp(r.addr.ip), r.source)
  }

  lemma {:induction false} FamilyPairsAre(readings: seq<Reading>, v4: bool)
    ensures PairSet(FamilyPairs(readings, v4)) == set p | p in Says(readings) && p.0.V4? == v4
  {
    if readings != [] {
      var past, r := Front(readings), Last(readings);
      var p := (FoldIp(r.addr.ip), r.source);
      FamilyPairsAre(past, v4);
      assert readings == past + [r];
      assert Says(readings) == Says(past) + {p};
      assert PairSet(FamilyPairs(readings, v4)) == PairSet(FamilyPairs(past, v4)) + if p.0.V4? == v4 then {p} else {};
    }
  }

  /** Readings that say the same set of things get the same verdicts. */
  lemma OrderFree(readings: seq<Reading>, readings': seq<Reading>)
    requires Says(readings) == Says(readings')
    ensures VerdictsOf(readings) == VerdictsOf(readings')
  {
    hide FamilyVerdictOf, FamilyPairs;
    FamilyPairsAre(readings, true);
    FamilyPairsAre(readings', true);
    SameSetSameVerdict(FamilyPairs(readings, true), FamilyPairs(readings', true));
    FamilyPairsAre(readings, false);
    FamilyPairsAre(readings', false);
    SameSetSameVerdict(FamilyPairs(readings, false), FamilyPairs(readings', false));
  }

  // ----- more readings only move a verdict up -----

  function Rank(v: FamilyVerdict): nat {
    match v
    case NoReadings => 0
    case Insufficient(_, _) => 1
    case NotGlobal(_, _) => 2
    case Established(_, _) => 2
    case Disagreement(_) => 3
  }

  /**
   * `v'` may follow `v`: higher up, or the same judgement of the same address by no fewer sources.
   * Counted sources never become fewer, peers alone may become others too but not the other way
   * round, and addresses in disagreement stay in it.
   */
  predicate Follows(v: FamilyVerdict, v': FamilyVerdict) {
    && Rank(v) <= Rank(v')
    && match v
       case NoReadings => true
       case Insufficient(n, peerOnly) =>
         && (v'.Insufficient? ==> v'.classes >= n && (v'.peerOnly ==> peerOnly))
         && (v'.Established? ==> v'.classes >= n)
       case NotGlobal(ip, scope) => v' == v || v'.Disagreement?
       case Established(ip, n) => (v'.Established? && v'.ip == ip && v'.classes >= n) || v'.Disagreement?
       case Disagreement(addrs) => v'.Disagreement? && forall a :: a in addrs ==> a in v'.addrs
  }

  lemma MoreIsMore(pairs: seq<Pair>, pairs': seq<Pair>)
    requires PairSet(pairs) <= PairSet(pairs')
    ensures Follows(FamilyVerdictOf(pairs), FamilyVerdictOf(pairs'))
  {
    hide FamilyVerdictOf, IsPeerSource, ScopeOfIp, Enough;
    forall p | p in pairs ensures p in pairs' {
      assert p in PairSet(pairs);
      assert p in PairSet(pairs');
    }
    VerdictIff(pairs);
    VerdictIff(pairs');
    SubsetSize(SourceSet(pairs), SourceSet(pairs'));
    if pairs != [] {
      assert pairs[0] in pairs && pairs[0] in pairs';
      EnoughGrows(pairs, pairs');
    }
  }

  lemma EnoughGrows(pairs: seq<Pair>, pairs': seq<Pair>)
    requires forall p :: p in pairs ==> p in pairs'
    ensures Enough(pairs) ==> Enough(pairs')
  {
    hide IsPeerSource;
    SubsetSize(SourceSet(pairs), SourceSet(pairs'));
  }

  /**
   * A further reading moves a family's verdict from nothing to insufficient to a judgement to
   * disagreement, and never from one established address to another.
   */
  lemma Monotone(readings: seq<Reading>, more: seq<Reading>)
    ensures Follows(VerdictsOf(readings).ipv4, VerdictsOf(readings + more).ipv4)
    ensures Follows(VerdictsOf(readings).ipv6, VerdictsOf(readings + more).ipv6)
  {
    hide FamilyVerdictOf, FamilyPairs, Follows;
    forall p | p in Says(readings) ensures p in Says(readings + more) {
      var r :| r in readings && p == (FoldIp(r.addr.ip), r.source);
      assert r in readings + more;
    }
    FamilyPairsAre(readings, true);
    FamilyPairsAre(readings + more, true);
    MoreIsMore(FamilyPairs(readings, true), FamilyPairs(readings + more, true));
    FamilyPairsAre(readings, false);
    FamilyPairsAre(readings + more, false);
    MoreIsMore(FamilyPairs(readings, false), FamilyPairs(readings + more, false));
  }

  // ----- peers alone -----

  /** The source string a consumer gives a peer at this transport address. */
  function PeerSource(peer: IpAddr): string {
    Print(PeerClass(peer))
  }

  lemma PeerSourceIsPeer(peer: IpAddr)
    ensures IsPeerSource(PeerSource(peer))
  {
    hide Print, Parse;
    ParsePrint(PeerClass(peer));
  }

  /** Two peers count as one source exactly when they share an IPv4 /16 or an IPv6 /32. */
  lemma PeerSourcesAreGroups(p: IpAddr, q: IpAddr)
    ensures PeerSource(p) == PeerSource(q) <==> SameGroup(p, q)
  {
    hide Print, SameGroup;
    PrintInjective(PeerClass(p), PeerClass(q));
    PeerClassIsGroup(p, q);
  }

  ghost predicate OnlyPeers(pairs: seq<Pair>) {
    forall p :: p in pairs ==> exists peer :: p.1 == PeerSource(peer)
  }

  /** Some reading came from a peer at `peer`. */
  ghost predicate HeardFrom(pairs: seq<Pair>, peer: IpAddr) {
    exists p :: p in pairs && p.1 == PeerSource(peer)
  }

  ghost predicate ThreeNetworks(pairs: seq<Pair>) {
    exists p, q, r ::
      && HeardFrom(pairs, p) && HeardFrom(pairs, q) && HeardFrom(pairs, r)
      && !SameGroup(p, q) && !SameGroup(p, r) && !SameGroup(q, r)
  }

  lemma ThreeDistinct<T>(s: set<T>) returns (a: T, b: T, c: T)
    requires |s| >= 3
    ensures a in s && b in s && c in s && a != b && a != c && b != c
  {
    a :| a in s;
    assert |s - {a}| >= 2;
    b :| b in s - {a};
    assert |s - {a} - {b}| >= 1;
    c :| c in s - {a} - {b};
  }

  lemma DifferentNetworks(p: IpAddr, q: IpAddr, r: IpAddr)
    ensures !SameGroup(p, q) && !SameGroup(p, r) && !SameGroup(q, r)
       <==> PeerSource(p) != PeerSource(q) && PeerSource(p) != PeerSource(r) && PeerSource(q) != PeerSource(r)
  {
    hide PeerSource, SameGroup;
    PeerSourcesAreGroups(p, q);
    PeerSourcesAreGroups(p, r);
    PeerSourcesAreGroups(q, r);
  }

  lemma ThreeNetworksIffThreeSources(pairs: seq<Pair>)
    requires OnlyPeers(pairs)
    ensures ThreeNetworks(pairs) <==> |SourceSet(pairs)| >= 3
  {
    hide PeerSource, SameGroup;
    var all := SourceSet(pairs);
    if ThreeNetworks(pairs) {
      var p, q, r :| HeardFrom(pairs, p) && HeardFrom(pairs, q) && HeardFrom(pairs, r)
                     && !SameGroup(p, q) && !SameGroup(p, r) && !SameGroup(q, r);
      DifferentNetworks(p, q, r);
      SubsetSize({PeerSource(p), PeerSource(q), PeerSource(r)}, all);
    }
    if |all| >= 3 {
      var a, b, c := ThreeDistinct(all);
      var p :| a == PeerSource(p);
      var q :| b == PeerSource(q);
      var r :| c == PeerSource(r);
      DifferentNetworks(p, q, r);
      assert HeardFrom(pairs, p) && HeardFrom(pairs, q) && HeardFrom(pairs, r);
    }
  }

  lemma OnlyPeersAreEnough(pairs: seq<Pair>)
    requires OnlyPeers(pairs)
    ensures Enough(pairs) <==> ThreeNetworks(pairs)
  {
    hide PeerSource, IsPeerSource, ThreeNetworks;
    ThreeNetworksIffThreeSources(pairs);
    forall p | p in pairs ensures IsPeerSource(p.1) {
      var peer :| p.1 == PeerSource(peer);
      PeerSourceIsPeer(peer);
    }
  }

  function VerdictOn(readings: seq<Reading>, v4: bool): FamilyVerdict {
    if v4 then VerdictsOf(readings).ipv4 else VerdictsOf(readings).ipv6
  }

  /**
   * When only peers were asked, an address is established exactly when all of them named it, it is
   * global, and they sit in three pairwise different networks.
   */
  lemma PeersNeedThreeNetworks(readings: seq<Reading>, v4: bool, ip: IpAddr)
    requires OnlyPeers(FamilyPairs(readings, v4))
    ensures var pairs := FamilyPairs(readings, v4);
            (exists n :: VerdictOn(readings, v4) == Established(ip, n))
            <==> Unanimous(pairs, ip) && ScopeOfIp(ip) == GlobalUnicast && ThreeNetworks(pairs)
  {
    hide FamilyVerdictOf, FamilyPairs, ThreeNetworks, OnlyPeers, ScopeOfIp;
    var pairs := FamilyPairs(readings, v4);
    VerdictIff(pairs);
    OnlyPeersAreEnough(pairs);
    if Unanimous(pairs, ip) && ScopeOfIp(ip) == GlobalUnicast && ThreeNetworks(pairs) {
      assert VerdictOn(readings, v4) == Established(ip, |SourceSet(pairs)|);
    }
  }

  /** One truthful reading in the family, and nothing but the truth can be established. */
  lemma OneTruthfulReading(readings: seq<Reading>, r: Reading, v4: bool)
    requires r in readings && FoldIp(r.addr.ip).V4? == v4
    ensures VerdictOn(readings, v4).Established? ==> VerdictOn(readings, v4).ip == FoldIp(r.addr.ip)
  {
    hide FamilyVerdictOf, FamilyPairs, Enough, ScopeOfIp;
    var pairs, p := FamilyPairs(readings, v4), (FoldIp(r.addr.ip), r.source);
    FamilyPairsAre(readings, v4);
    assert p in Says(readings);
    assert p in PairSet(pairs);
    VerdictIff(pairs);
  }

  // ----- sources are counted as strings, not as classes -----

  ghost function ClassSet(sources: set<string>): set<Option<SourceClass>> {
    set s | s in sources :: Parse(s)
  }

  ghost predicate AllPlain(sources: set<string>) {
    forall s :: s in sources ==> Parse(s).Some? && PlainNumerals(s)
  }

  /** As long as every source is spelled the way the printer spells it, the two counts agree. */
  lemma {:induction false} PlainSourcesCount(sources: set<string>)
    requires AllPlain(sources)
    ensures |ClassSet(sources)| == |sources|
    decreases |sources|
  {
    hide Parse, PlainNumerals;
    if sources != {} {
      var s :| s in sources;
      var rest := sources - {s};
      PlainSourcesCount(rest);
      forall r | r in rest ensures Parse(r) != Parse(s) {
        PlainIsUnique(r, s);
      }
      assert Parse(s) !in ClassSet(rest);
      assert sources == rest + {s};
      assert ClassSet(sources) == ClassSet(rest) + {Parse(s)};
    }
  }

  /** For plainly spelled sources the number in a verdict is the number of classes behind it. */
  lemma EstablishedCountsClasses(pairs: seq<Pair>, ip: IpAddr, n: nat)
    requires AllPlain(SourceSet(pairs)) && FamilyVerdictOf(pairs) == Established(ip, n)
    ensures n == |ClassSet(SourceSet(pairs))|
  {
    hide FamilyVerdictOf, AllPlain;
    VerdictIff(pairs);
    PlainSourcesCount(SourceSet(pairs));
  }

  /** One peer group under three spellings. */
  function OneGroupThrice(a: SocketAddr): seq<Reading> {
    [Reading("peer:v4:1.2", None, a), Reading("peer:v4:+1.2", None, a), Reading("peer:v4:01.2", None, a)]
  }

  /**
   * Otherwise they need not: three readings of one IPv4 /16 establish any global address, although
   * peers alone are to need three networks.
   */
  lemma OneGroupEstablishes(a: SocketAddr)
    requires ScopeOfIp(FoldIp(a.ip)) == GlobalUnicast
    ensures var readings, ip := OneGroupThrice(a), FoldIp(a.ip);
            && VerdictOn(readings, ip.V4?) == Established(ip, 3)
            && |ClassSet(SourceSet(FamilyPairs(readings, ip.V4?)))| == 1
            && forall r :: r in readings ==> Parse(r.source) == Some(PeerV4(1, 2))
  {
    hide Parse, FamilyVerdictOf, ScopeOfIp, FoldIp, FamilyPairs, SourceSet, Unanimous, Enough, ClassSet;
    var readings, ip := OneGroupThrice(a), FoldIp(a.ip);
    var s0, s1, s2 := "peer:v4:1.2", "peer:v4:+1.2", "peer:v4:01.2";
    OneClassThreeStrings();
    ThreePairs(readings[0], readings[1], readings[2], ip.V4?);
    assert |s0| == 11 && |s1| == 12 && |s2| == 12 && s1[8] != s2[8];
    ThreeSources(ip, s0, s1, s2);
    VerdictIff([(ip, s0), (ip, s1), (ip, s2)]);
  }

  /** One address from three sources that are all of one class. */
  lemma ThreeSources(ip: IpAddr, s0: string, s1: string, s2: string)
    requires s0 != s1 && s0 != s2 && s1 != s2
    ensures var pairs := [(ip, s0), (ip, s1), (ip, s2)];
            && Unanimous(pairs, ip) && Enough(pairs) && |SourceSet(pairs)| == 3
            && (Parse(s0) == Parse(s1) == Parse(s2) ==> |ClassSet(SourceSet(pairs))| == 1)
  {
    hide Parse, IsPeerSource;
    var pairs := [(ip, s0), (ip, s1), (ip, s2)];
    assert SourceSet(pairs) == {s0, s1, s2} by {
      assert pairs[0] in pairs && pairs[1] in pairs && pairs[2] in pairs;
    }
    if Parse(s0) == Parse(s1) == Parse(s2) {
      assert ClassSet(SourceSet(pairs)) == {Parse(s0)};
    }
  }

  lemma ThreePairs(p: Reading, q: Reading, r: Reading, v4: bool)
    requires FoldIp(p.addr.ip).V4? == FoldIp(q.addr.ip).V4? == FoldIp(r.addr.ip).V4? == v4
    ensures FamilyPairs([p, q, r], v4)
         == [(FoldIp(p.addr.ip), p.source), (FoldIp(q.addr.ip), q.source), (FoldIp(r.addr.ip), r.source)]
  {
    hide FoldIp;
    assert Front([p, q, r]) == [p, q] && Front([p, q]) == [p] && Front([p]) == [];
    assert FamilyPairs([p], v4) == [(FoldIp(p.addr.ip), p.source)];
    assert FamilyPairs([p, q], v4) == [(FoldIp(p.addr.ip), p.source), (FoldIp(q.addr.ip), q.source)];
  }
}
