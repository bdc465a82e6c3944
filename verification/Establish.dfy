/**
 * Agreement: how untrusted readings of a node's own address combine into one verdict per address
 * family, and why the verdict depends on nothing but which source named which address.
 */
module Establish {
  import opened Prelude
  import opened Scope
  import opened Grammar

  const MIN_INDEPENDENT_CLASSES: nat := 2
  const PEER_ONLY_MIN_CLASSES: nat := 3

  datatype Reading = Reading(source: string, reporter: Option<string>, addr: SocketAddr)

  datatype FamilyVerdict =
    | NoReadings
    | Disagreement(addrs: seq<IpAddr>)
    | Insufficient(classes: nat, peerOnly: bool)
    | NotGlobal(ip: IpAddr, scope: Scope)
    | Established(ip: IpAddr, classes: nat)

  datatype Verdicts = Verdicts(ipv6: FamilyVerdict, ipv4: FamilyVerdict)

  /** Which source named which folded address. */
  type Pair = (IpAddr, string)

  // ----- sorting and deduplicating -----

  /** Lexicographic order. */
  predicate Less(a: seq<int>, b: seq<int>) {
    if b == [] then false
    else if a == [] then true
    else a[0] < b[0] || (a[0] == b[0] && Less(a[1..], b[1..]))
  }

  /** The derived order of addresses: family, then octets. */
  function IpKey(ip: IpAddr): seq<int> {
    match ip
    case V4(o) => [4] + o
    case V6(o) => [6] + o
  }

  function StringKey(s: string): seq<int> {
    seq(|s|, i requires 0 <= i < |s| => s[i] as int)
  }

  function Insert<T(==)>(sorted: seq<T>, x: T, key: T -> seq<int>): seq<T> {
    if sorted == [] then [x]
    else if sorted[0] == x then sorted
    else if Less(key(x), key(sorted[0])) then [x] + sorted
    else [sorted[0]] + Insert(sorted[1..], x, key)
  }

  /** `sort` then `dedup`. */
  function SortedDistinct<T(==)>(s: seq<T>, key: T -> seq<int>): seq<T> {
    if s == [] then [] else Insert(SortedDistinct(Front(s), key), Last(s), key)
  }

  ghost predicate StrictlySorted<T>(s: seq<T>, key: T -> seq<int>) {
    forall i, j :: 0 <= i < j < |s| ==> Less(key(s[i]), key(s[j]))
  }

  ghost predicate Injective<T(!new)>(key: T -> seq<int>) {
    forall x, y :: key(x) == key(y) ==> x == y
  }

  lemma {:induction false} LessIrreflexive(a: seq<int>)
    ensures !Less(a, a)
  {
    if a != [] {
      LessIrreflexive(a[1..]);
    }
  }

  lemma {:induction false} LessTransitive(a: seq<int>, b: seq<int>, c: seq<int>)
    requires Less(a, b) && Less(b, c)
    ensures Less(a, c)
  {
    if a != [] && a[0] == b[0] == c[0] {
      LessTransitive(a[1..], b[1..], c[1..]);
    }
  }

  lemma {:induction false} LessTotal(a: seq<int>, b: seq<int>)
    ensures a == b || Less(a, b) || Less(b, a)
  {
    if a != [] && b != [] && a[0] == b[0] {
      LessTotal(a[1..], b[1..]);
      if a[1..] == b[1..] {
        assert a == [a[0]] + a[1..] == b;
      }
    }
  }

  lemma {:induction false} InsertSorts<T(!new)>(s: seq<T>, x: T, key: T -> seq<int>)
    requires StrictlySorted(s, key) && Injective(key)
    ensures StrictlySorted(Insert(s, x, key), key)
    ensures forall y :: y in Insert(s, x, key) <==> y in s || y == x
  {
    if s != [] && s[0] != x {
      LessTotal(key(x), key(s[0]));
      if Less(key(x), key(s[0])) {
        forall j | 0 <= j < |s| ensures Less(key(x), key(s[j])) {
          if j > 0 {
            LessTransitive(key(x), key(s[0]), key(s[j]));
          }
        }
      } else {
        InsertSorts(s[1..], x, key);
        var r := Insert(s[1..], x, key);
        forall j | 0 <= j < |r| ensures Less(key(s[0]), key(r[j])) {
          assert r[j] in r;
        }
      }
    }
  }

  lemma {:induction false} SortedDistinctSorts<T(!new)>(s: seq<T>, key: T -> seq<int>)
    requires Injective(key)
    ensures StrictlySorted(SortedDistinct(s, key), key)
    ensures forall y :: y in SortedDistinct(s, key) <==> y in s
  {
    if s != [] {
      SortedDistinctSorts(Front(s), key);
      InsertSorts(SortedDistinct(Front(s), key), Last(s), key);
      assert s == Front(s) + [Last(s)];
    }
  }

  /** A strictly sorted sequence is determined by what is in it. */
  lemma {:induction false} SortedUnique<T(!new)>(s: seq<T>, t: seq<T>, key: T -> seq<int>)
    requires StrictlySorted(s, key) && StrictlySorted(t, key)
    requires forall y :: y in s <==> y in t
    ensures s == t
  {
    assert s != [] ==> s[0] in t;
    assert t != [] ==> t[0] in s;
    if s != [] {
      HeadsAgree(s, t, key);
      TailsAgree(s, t, key);
      TailsAgree(t, s, key);
      SortedUnique(s[1..], t[1..], key);
      assert s == [s[0]] + s[1..] && t == [t[0]] + t[1..];
    }
  }

  lemma HeadsAgree<T(!new)>(s: seq<T>, t: seq<T>, key: T -> seq<int>)
    requires s != [] && t != [] && StrictlySorted(s, key) && StrictlySorted(t, key)
    requires forall y :: y in s <==> y in t
    ensures s[0] == t[0]
  {
    assert s[0] in t && t[0] in s;
    var i :| 0 <= i < |t| && t[i] == s[0];
    var j :| 0 <= j < |s| && s[j] == t[0];
    if i > 0 && j > 0 {
      LessTransitive(key(s[0]), key(t[0]), key(s[0]));
      LessIrreflexive(key(s[0]));
    }
  }

  lemma TailsAgree<T(!new)>(s: seq<T>, t: seq<T>, key: T -> seq<int>)
    requires s != [] && t != [] && StrictlySorted(s, key) && s[0] == t[0]
    requires forall y :: y in s <==> y in t
    ensures forall y :: y in s[1..] ==> y in t[1..]
  {
    forall y | y in s[1..] ensures y in t[1..] {
      var i :| 1 <= i < |s| && s[i] == y;
      LessIrreflexive(key(y));
      assert y in t;
    }
  }

  lemma {:induction false} SortedSize<T(!new)>(s: seq<T>, key: T -> seq<int>)
    requires StrictlySorted(s, key)
    ensures |s| == |set y | y in s|
  {
    var all := set y | y in s;
    if s != [] {
      var tail := set y | y in s[1..];
      SortedSize(s[1..], key);
      LessIrreflexive(key(s[0]));
      assert s[0] !in tail;
      assert all == tail + {s[0]};
    }
  }

  lemma KeysInjective()
    ensures Injective(IpKey) && Injective(StringKey)
  {
    forall x, y | IpKey(x) == IpKey(y) ensures x == y {
      assert IpKey(x)[0] == IpKey(y)[0] && IpKey(x)[1..] == IpKey(y)[1..];
    }
    forall x, y | StringKey(x) == StringKey(y) ensures x == y {
      assert |x| == |y|;
      forall i | 0 <= i < |x| ensures x[i] == y[i] {
        assert StringKey(x)[i] == StringKey(y)[i];
      }
    }
  }

  // ----- the verdict on one family -----

  function Ips(pairs: seq<Pair>): (r: seq<IpAddr>)
    ensures |r| == |pairs|
  {
    seq(|pairs|, i requires 0 <= i < |pairs| => pairs[i].0)
  }

  function Sources(pairs: seq<Pair>): (r: seq<string>)
    ensures |r| == |pairs|
  {
    seq(|pairs|, i requires 0 <= i < |pairs| => pairs[i].1)
  }

  predicate IsPeerSource(s: string) {
    Parse(s).Some? && IsPeer(Parse(s).value)
  }

  function FamilyVerdictOf(pairs: seq<Pair>): FamilyVerdict {
    if pairs == [] then NoReadings
    else
      var addrs := SortedDistinct(Ips(pairs), IpKey);
      if |addrs| > 1 then Disagreement(addrs)
      else
        var ip := pairs[0].0;
        var classes := SortedDistinct(Sources(pairs), StringKey);
        var peerOnly := forall s :: s in classes ==> IsPeerSource(s);
        if |classes| < MIN_INDEPENDENT_CLASSES then Insufficient(|classes|, peerOnly)
        else if peerOnly && |classes| < PEER_ONLY_MIN_CLASSES then Insufficient(|classes|, true)
        else if ScopeOfIp(ip) != GlobalUnicast then NotGlobal(ip, ScopeOfIp(ip))
        else Established(ip, |classes|)
  }

  method VerdictForFamily(readings: seq<Pair>) returns (v: FamilyVerdict)
    ensures v == FamilyVerdictOf(readings)
  {
    hide SortedDistinct, IsPeerSource, ScopeOfIp, Ips, Sources;
    if readings == [] {
      return NoReadings;
    }
    var addrs := Ips(readings);
    addrs := SortedDistinct(addrs, IpKey);
    if |addrs| > 1 {
      return Disagreement(addrs);
    }
    OneAddress(readings);
    var ip := addrs[0];
    var classes := Sources(readings);
    classes := SortedDistinct(classes, StringKey);
    var peerOnly := true;
    for i := 0 to |classes|
      invariant peerOnly <==> forall k :: 0 <= k < i ==> IsPeerSource(classes[k])
    {
      peerOnly := peerOnly && IsPeerSource(classes[i]);
    }
    if |classes| < MIN_INDEPENDENT_CLASSES {
      return Insufficient(|classes|, peerOnly);
    }
    if peerOnly && |classes| < PEER_ONLY_MIN_CLASSES {
      return Insufficient(|classes|, true);
    }
    var scope := ScopeOfIp(ip);
    if scope != GlobalUnicast {
      return NotGlobal(ip, scope);
    }
    return Established(ip, |classes|);
  }

  lemma OneAddress(pairs: seq<Pair>)
    requires pairs != [] && |SortedDistinct(Ips(pairs), IpKey)| <= 1
    ensures SortedDistinct(Ips(pairs), IpKey) == [pairs[0].0]
  {
    KeysInjective();
    SortedDistinctSorts(Ips(pairs), IpKey);
    assert Ips(pairs)[0] == pairs[0].0;
    assert pairs[0].0 in SortedDistinct(Ips(pairs), IpKey);
  }

  // ----- both families -----

  /** The pairs of one family, in the order of the readings. */
  function FamilyPairs(readings: seq<Reading>, v4: bool): seq<Pair> {
    if readings == [] then []
    else
      var r := Last(readings);
      var ip := FoldIp(r.addr.ip);
      FamilyPairs(Front(readings), v4) + if ip.V4? == v4 then [(ip, r.source)] else []
  }

  function VerdictsOf(readings: seq<Reading>): Verdicts {
    Verdicts(FamilyVerdictOf(FamilyPairs(readings, false)), FamilyVerdictOf(FamilyPairs(readings, true)))
  }

  method EstablishVerdicts(readings: seq<Reading>) returns (v: Verdicts)
    ensures v == VerdictsOf(readings)
  {
    hide FamilyVerdictOf;
    var ipv4: seq<Pair>, ipv6: seq<Pair> := [], [];
    for i := 0 to |readings|
      invariant ipv4 == FamilyPairs(readings[..i], true) && ipv6 == FamilyPairs(readings[..i], false)
    {
      assert Front(readings[..i + 1]) == readings[..i];
      var folded := FoldIp(readings[i].addr.ip);
      match folded {
        case V4(_) => ipv4 := ipv4 + [(folded, readings[i].source)];
        case V6(_) => ipv6 := ipv6 + [(folded, readings[i].source)];
      }
    }
    assert readings[..|readings|] == readings;
    var verdict4 := VerdictForFamily(ipv4);
    var verdict6 := VerdictForFamily(ipv6);
    return Verdicts(verdict6, verdict4);
  }
}
