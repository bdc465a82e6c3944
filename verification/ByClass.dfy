/**
 * The verdicts again, by the classes behind the readings instead of by their strings: which sources
 * are peers, and how many classes of which kind establish an address.
 */
module ByClass {
  import opened Prelude
  import opened Scope
  import opened Grammar
  import opened Establish
  import opened Agreement

  // ----- which sources are peers -----

  /** Two octets of an IPv4 peer, in any of its three spellings, and four of any other IPv6 peer. */
  lemma PeerClassIs(ip: IpAddr)
    ensures forall o: Octets4 :: ip == V4(o) || ip == V6(MappedForm(o)) || ip == V6(CompatibleForm(o)) ==>
              PeerClass(ip) == PeerV4(o[0], o[1])
    ensures ip.V6? && IsNative(ip) ==>
              && PeerClass(ip).PeerV6?
              && Be16(PeerClass(ip).h0) == ip.o16[..2] && Be16(PeerClass(ip).h1) == ip.o16[2..4]
  {
    hide MappedForm, CompatibleForm, FoldIp, IsNative;
    forall o: Octets4 | ip == V4(o) || ip == V6(MappedForm(o)) || ip == V6(CompatibleForm(o))
      ensures PeerClass(ip) == PeerV4(o[0], o[1])
    {
      FoldsToIff(ip, o);
    }
    FoldsToItselfIff(ip);
  }

  /** A peer whose class is this one. */
  function SomePeer(c: SourceClass): IpAddr
    requires c.PeerV4? || c.PeerV6?
  {
    match c
    case PeerV4(a, b) => V4([a, b, 0, 0])
    case PeerV6(h0, h1) => V6(Be16(h0) + Be16(h1) + [1, 0, 0, 0, 0, 0, 0, 0, 0, 0, 0, 0])
  }

  lemma SomePeerHasClass(c: SourceClass)
    requires c.PeerV4? || c.PeerV6?
    ensures PeerClass(SomePeer(c)) == c
  {
    if c.PeerV6? {
      var o := SomePeer(c).o16;
      assert o[4] == 1 && o[..10][4] == 1;
      Be16RoundTrip(c.h0);
      Be16RoundTrip(c.h1);
    }
  }

  /** A source is a peer exactly if it parses to the class of some transport address. */
  lemma IsPeerSourceIff(source: string)
    ensures IsPeerSource(source) <==> exists ip :: Parse(source) == Some(PeerClass(ip))
  {
    hide Parse, PeerClass;
    if Parse(source).Some? {
      var c := Parse(source).value;
      PeersAreClasses(c);
    }
  }

  lemma PeersAreClasses(c: SourceClass)
    ensures c.PeerV4? || c.PeerV6? <==> exists ip :: c == PeerClass(ip)
  {
    if c.PeerV4? || c.PeerV6? {
      SomePeerHasClass(c);
    }
  }

  /** In particular among printed classes: the peers are those that some transport address has. */
  lemma PeersPrinted(c: SourceClass)
    ensures IsPeerSource(Print(c)) <==> exists ip :: c == PeerClass(ip)
    ensures IsPeerSource(Print(c)) <==> !c.Operator? && !c.Relay? && !c.Public?
  {
    hide Parse, Print, PeerClass;
    ParsePrint(c);
    IsPeerSourceIff(Print(c));
    PeersAreClasses(c);
  }

  // ----- how many classes of which kind -----

  ghost predicate OfFamily(r: Reading, v4: bool) {
    FoldIp(r.addr.ip).V4? == v4
  }

  /** These classes, and no others, are the sources of the family's readings. */
  ghost predicate Behind(readings: seq<Reading>, v4: bool, classes: set<SourceClass>) {
    && (forall r :: r in readings && OfFamily(r, v4) ==> exists c :: c in classes && r.source == Print(c))
    && (forall c :: c in classes ==> exists r :: r in readings && OfFamily(r, v4) && r.source == Print(c))
  }

  /** There is a reading of the family, and every one names this address. */
  ghost predicate AllSay(readings: seq<Reading>, v4: bool, ip: IpAddr) {
    && (exists r :: r in readings && OfFamily(r, v4))
    && forall r :: r in readings && OfFamily(r, v4) ==> FoldIp(r.addr.ip) == ip
  }

  ghost predicate Vouched(classes: set<SourceClass>) {
    || |classes| >= 3
    || (|classes| >= 2 && exists c :: c in classes && (c.Operator? || c.Relay? || c.Public?))
  }

  ghost function Printed(classes: set<SourceClass>): set<string> {
    set c | c in classes :: Print(c)
  }

  lemma {:induction false} PrintedSize(classes: set<SourceClass>)
    ensures |Printed(classes)| == |classes|
    decreases |classes|
  {
    hide Print;
    if classes != {} {
      var c :| c in classes;
      var rest := classes - {c};
      PrintedSize(rest);
      forall d | d in rest ensures Print(d) != Print(c) {
        PrintInjective(d, c);
      }
      assert Print(c) !in Printed(rest);
      assert Printed(classes) == Printed(rest) + {Print(c)};
    }
  }

  /** The family's pairs, found among its readings. */
  lemma PairsAreReadings(readings: seq<Reading>, v4: bool)
    ensures forall p :: p in FamilyPairs(readings, v4)
              <==> exists r :: r in readings && OfFamily(r, v4) && p == (FoldIp(r.addr.ip), r.source)
  {
    hide FoldIp, FamilyPairs;
    FamilyPairsAre(readings, v4);
    assert forall p :: p in FamilyPairs(readings, v4) <==> p in PairSet(FamilyPairs(readings, v4));
  }

  lemma SourcesArePrinted(readings: seq<Reading>, v4: bool, classes: set<SourceClass>)
    requires Behind(readings, v4, classes)
    ensures SourceSet(FamilyPairs(readings, v4)) == Printed(classes)
  {
    hide FoldIp, FamilyPairs, Print, OfFamily, Behind, SourceSet, Printed;
    forall s ensures s in SourceSet(FamilyPairs(readings, v4)) <==> s in Printed(classes) {
      SourceOfReading(readings, v4, s);
      PrintedIff(classes, s);
      SameSources(readings, v4, classes, s);
    }
  }

  lemma PrintedIff(classes: set<SourceClass>, s: string)
    ensures s in Printed(classes) <==> exists c :: c in classes && s == Print(c)
  {
    hide Print;
  }

  lemma SourceOfReading(readings: seq<Reading>, v4: bool, s: string)
    ensures s in SourceSet(FamilyPairs(readings, v4)) <==> exists r :: r in readings && OfFamily(r, v4) && r.source == s
  {
    hide FoldIp, FamilyPairs, OfFamily;
    PairsAreReadings(readings, v4);
    if r :| r in readings && OfFamily(r, v4) && r.source == s {
      assert (FoldIp(r.addr.ip), r.source) in FamilyPairs(readings, v4);
    }
  }

  lemma SameSources(readings: seq<Reading>, v4: bool, classes: set<SourceClass>, s: string)
    requires Behind(readings, v4, classes)
    ensures (exists r :: r in readings && OfFamily(r, v4) && r.source == s)
       <==> exists c :: c in classes && s == Print(c)
  {
    hide Print, OfFamily;
  }

  lemma AllSayIsUnanimous(readings: seq<Reading>, v4: bool, ip: IpAddr)
    ensures AllSay(readings, v4, ip) <==> Unanimous(FamilyPairs(readings, v4), ip)
  {
    hide FoldIp, FamilyPairs, OfFamily;
    var pairs := FamilyPairs(readings, v4);
    PairsAreReadings(readings, v4);
    if AllSay(readings, v4, ip) {
      var r :| r in readings && OfFamily(r, v4);
      assert (FoldIp(r.addr.ip), r.source) in pairs;
    }
    if Unanimous(pairs, ip) {
      assert pairs[0] in pairs;
      forall r | r in readings && OfFamily(r, v4) ensures FoldIp(r.addr.ip) == ip {
        assert (FoldIp(r.addr.ip), r.source) in pairs;
      }
    }
  }

  lemma VouchedIsEnough(readings: seq<Reading>, v4: bool, classes: set<SourceClass>)
    requires Behind(readings, v4, classes)
    ensures |SourceSet(FamilyPairs(readings, v4))| == |classes|
    ensures Vouched(classes) <==> Enough(FamilyPairs(readings, v4))
    ensures (forall c :: c in classes ==> c.PeerV4? || c.PeerV6?) <==> OnlyPeerSources(FamilyPairs(readings, v4))
  {
    hide FamilyPairs, Print, IsPeerSource, Behind;
    var pairs := FamilyPairs(readings, v4);
    SourcesArePrinted(readings, v4, classes);
    PrintedSize(classes);
    forall c ensures IsPeerSource(Print(c)) <==> c.PeerV4? || c.PeerV6? {
      PeersPrinted(c);
    }
    assert forall p :: p in pairs ==> p.1 in SourceSet(pairs);
    forall c | c in classes ensures exists p :: p in pairs && p.1 == Print(c) {
      assert Print(c) in SourceSet(pairs);
    }
  }

  /**
   * Readings whose sources are printed classes establish an address exactly if all of them name it,
   * it is global, and the classes behind them are three, or two of which one is an operator, a
   * relay or public. Short of that they are too few, and a verdict that they are says how many.
   */
  lemma EstablishedIff(readings: seq<Reading>, v4: bool, ip: IpAddr, n: nat, classes: set<SourceClass>)
    requires Behind(readings, v4, classes)
    ensures VerdictOn(readings, v4) == Established(ip, n)
       <==> AllSay(readings, v4, ip) && ScopeOfIp(ip) == GlobalUnicast && Vouched(classes) && n == |classes|
    ensures forall peerOnly ::
              VerdictOn(readings, v4) == Insufficient(n, peerOnly)
              <==> (exists a :: AllSay(readings, v4, a)) && !Vouched(classes) && n == |classes|
                   && peerOnly == forall c :: c in classes ==> c.PeerV4? || c.PeerV6?
    ensures forall scope ::
              VerdictOn(readings, v4) == NotGlobal(ip, scope)
              <==> AllSay(readings, v4, ip) && Vouched(classes) && scope == ScopeOfIp(ip) && scope != GlobalUnicast
  {
    hide FamilyVerdictOf, FamilyPairs, Behind, AllSay, Vouched, ScopeOfIp, Enough, OnlyPeerSources;
    var pairs := FamilyPairs(readings, v4);
    VerdictIff(pairs);
    VouchedIsEnough(readings, v4, classes);
    forall a ensures AllSay(readings, v4, a) <==> Unanimous(pairs, a) {
      AllSayIsUnanimous(readings, v4, a);
    }
    if a :| AllSay(readings, v4, a) {
      assert Unanimous(pairs, a) && pairs[0] in pairs;
    }
    if pairs != [] && Unanimous(pairs, pairs[0].0) {
      assert AllSay(readings, v4, pairs[0].0);
    }
  }

  // ----- who disagrees -----

  /** The first octet in which two addresses of a family differ decides. */
  ghost predicate Lower(x: IpAddr, y: IpAddr) {
    var s, t := Octets(x), Octets(y);
    exists k :: 0 <= k < |s| && |s| == |t| && s[..k] == t[..k] && s[k] < t[k]
  }

  ghost predicate Ascending(addrs: seq<IpAddr>) {
    forall i, j :: 0 <= i < j < |addrs| ==> Lower(addrs[i], addrs[j])
  }

  /** The first difference decides which of two equally long sequences comes first. */
  lemma {:induction false} LessIff(s: seq<int>, t: seq<int>)
    requires |s| == |t|
    ensures Less(s, t) <==> exists k :: 0 <= k < |s| && s[..k] == t[..k] && s[k] < t[k]
  {
    if s != [] {
      LessIff(s[1..], t[1..]);
      if s[0] == t[0] && Less(s[1..], t[1..]) {
        var k :| 0 <= k < |s| - 1 && s[1..][..k] == t[1..][..k] && s[1..][k] < t[1..][k];
        assert s[..k + 1] == [s[0]] + s[1..][..k] && t[..k + 1] == [t[0]] + t[1..][..k];
      }
      if k :| 0 <= k < |s| && s[..k] == t[..k] && s[k] < t[k] {
        if k > 0 {
          assert s[..k][0] == s[0] && t[..k][0] == t[0];
          assert s[1..][..k - 1] == s[..k][1..] && t[1..][..k - 1] == t[..k][1..];
        }
      }
    }
  }

  lemma KeyOrderIs(x: IpAddr, y: IpAddr)
    requires x.V4? == y.V4?
    ensures Less(IpKey(x), IpKey(y)) <==> Lower(x, y)
  {
    LessIff(Octets(x), Octets(y));
    assert IpKey(x)[1..] == Octets(x) && IpKey(y)[1..] == Octets(y);
  }

  ghost predicate Named(readings: seq<Reading>, v4: bool, ip: IpAddr) {
    exists r :: r in readings && OfFamily(r, v4) && FoldIp(r.addr.ip) == ip
  }

  lemma NamedIff(readings: seq<Reading>, v4: bool, ip: IpAddr)
    ensures Named(readings, v4, ip) <==> exists p :: p in FamilyPairs(readings, v4) && p.0 == ip
    ensures Named(readings, v4, ip) ==> ip.V4? == v4
  {
    hide FamilyPairs, FoldIp;
    PairsAreReadings(readings, v4);
    if r :| r in readings && OfFamily(r, v4) && FoldIp(r.addr.ip) == ip {
      assert (FoldIp(r.addr.ip), r.source) in FamilyPairs(readings, v4);
    }
  }

  /**
   * Two addresses of a family are in disagreement, whoever named them, and the verdict lists every
   * address named, each once and in ascending order of octets.
   */
  lemma DisagreementIff(readings: seq<Reading>, v4: bool, addrs: seq<IpAddr>)
    ensures VerdictOn(readings, v4) == Disagreement(addrs)
       <==> |addrs| >= 2 && Ascending(addrs) && forall ip :: ip in addrs <==> Named(readings, v4, ip)
    ensures VerdictOn(readings, v4) == NoReadings <==> forall ip :: !Named(readings, v4, ip)
  {
    hide FamilyVerdictOf, FamilyPairs, Named, Lower, Less, IpKey;
    var pairs := FamilyPairs(readings, v4);
    VerdictIff(pairs);
    forall ip ensures Named(readings, v4, ip) <==> exists p :: p in pairs && p.0 == ip {
      NamedIff(readings, v4, ip);
    }
    if pairs != [] {
      assert pairs[0] in pairs;
      assert Named(readings, v4, pairs[0].0);
    }
    if forall ip :: ip in addrs <==> Named(readings, v4, ip) {
      OrdersAgree(readings, v4, addrs);
      SeveralIffNotUnanimous(pairs, addrs);
    }
  }

  lemma OrdersAgree(readings: seq<Reading>, v4: bool, addrs: seq<IpAddr>)
    requires forall ip :: ip in addrs <==> Named(readings, v4, ip)
    ensures Ascending(addrs) <==> StrictlySorted(addrs, IpKey)
  {
    hide Named, Lower, Less, IpKey;
    forall i, j | 0 <= i < j < |addrs| ensures Lower(addrs[i], addrs[j]) <==> Less(IpKey(addrs[i]), IpKey(addrs[j])) {
      assert addrs[i] in addrs && addrs[j] in addrs;
      NamedIff(readings, v4, addrs[i]);
      NamedIff(readings, v4, addrs[j]);
      KeyOrderIs(addrs[i], addrs[j]);
    }
  }

  lemma SeveralIffNotUnanimous(pairs: seq<Pair>, addrs: seq<IpAddr>)
    requires forall ip :: ip in addrs <==> exists p :: p in pairs && p.0 == ip
    ensures StrictlySorted(addrs, IpKey) ==> (|addrs| >= 2 <==> pairs != [] && !Unanimous(pairs, pairs[0].0))
  {
    hide Less, IpKey;
    if StrictlySorted(addrs, IpKey) && |addrs| >= 2 {
      LessIrreflexive(IpKey(addrs[0]));
      assert addrs[0] in addrs && addrs[1] in addrs;
    }
    if pairs != [] && !Unanimous(pairs, pairs[0].0) {
      assert pairs[0] in pairs;
      var p :| p in pairs && p.0 != pairs[0].0;
      assert pairs[0].0 in addrs && p.0 in addrs;
    }
  }
}
