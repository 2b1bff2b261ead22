/** The route list sent to the daemon (ParsedVpnConfiguration.kt, `toTunSessionConfig`). */
module RouteList {
  import opened Text
  import opened Sequences
  import opened Cidr
  import opened CryptokeyRouting

  /** `peers.flatMap { allowedIps }` */
  function AllowedIps(peers: seq<Peer>): (s: seq<Cidr>)
    requires ValidPeers(peers)
    ensures ValidCidrs(s)
  {
    if peers == [] then [] else AllowedIps(peers[..|peers| - 1]) + peers[|peers| - 1].allowedIps
  }

  /** `distinct()`: the first occurrence of every element. */
  function Distinct(s: seq<Cidr>): (r: seq<Cidr>)
    requires ValidCidrs(s)
    ensures ValidCidrs(r)
  {
    AllValid(s);
    FirstOccurrences(s)
  }

  lemma AllValid(s: seq<Cidr>)
    requires ValidCidrs(s)
    ensures ValidCidrs(FirstOccurrences(s))
  {
    hide ValidCidr, FirstOccurrences;
    var r := FirstOccurrences(s);
    forall i | 0 <= i < |r|
      ensures ValidCidr(r[i])
    {
      SameElements(s, r[i]);
    }
  }

  /** Insertion behind every element that does not print later, so that equal texts keep their order. */
  function Insert(s: seq<Cidr>, c: Cidr): (r: seq<Cidr>)
    requires ValidCidrs(s) && ValidCidr(c)
    ensures ValidCidrs(r)
  {
    if s == [] then [c]
    else if Less(CidrString(c), CidrString(s[|s| - 1])) then Insert(s[..|s| - 1], c) + [s[|s| - 1]]
    else s + [c]
  }

  /** `sortedBy { toCidrString() }` */
  function SortedByText(s: seq<Cidr>): (r: seq<Cidr>)
    requires ValidCidrs(s)
    ensures ValidCidrs(r)
  {
    if s == [] then [] else Insert(SortedByText(s[..|s| - 1]), s[|s| - 1])
  }

  function Routes(peers: seq<Peer>): (s: seq<Cidr>)
    requires ValidPeers(peers)
    ensures ValidCidrs(s)
  {
    SortedByText(Distinct(AllowedIps(peers)))
  }

  // ---------------------------------------------------------------- members

  predicate AllowedBy(peers: seq<Peer>, c: Cidr, i: nat)
  {
    i < |peers| && c in peers[i].allowedIps
  }

  lemma {:induction false} AllowedIpsMembers(peers: seq<Peer>, c: Cidr)
    requires ValidPeers(peers)
    ensures c in AllowedIps(peers) <==> exists i: nat :: AllowedBy(peers, c, i)
  {
    hide ValidCidr, ValidCidrs;
    if peers != [] {
      var init := peers[..|peers| - 1];
      AllowedIpsMembers(init, c);
      assert forall i: nat :: AllowedBy(init, c, i) ==> AllowedBy(peers, c, i);
      assert forall i: nat :: AllowedBy(peers, c, i) && i < |init| ==> AllowedBy(init, c, i);
      assert c in peers[|init|].allowedIps <==> AllowedBy(peers, c, |init|);
    }
  }

  lemma DistinctKeepsMembers(s: seq<Cidr>)
    requires ValidCidrs(s)
    ensures NoDuplicates(Distinct(s))
    ensures forall c :: c in Distinct(s) <==> c in s
  {
    hide ValidCidr, FirstOccurrences;
    OccurrencesAreDistinct(s);
    forall c ensures c in Distinct(s) <==> c in s {
      SameElements(s, c);
    }
  }

  predicate TextSorted(s: seq<Cidr>)
    requires ValidCidrs(s)
  {
    forall i, j :: 0 <= i < j < |s| ==> Less(CidrString(s[i]), CidrString(s[j]))
  }

  lemma {:induction false} InsertMembers(s: seq<Cidr>, c: Cidr)
    requires ValidCidrs(s) && ValidCidr(c)
    ensures forall x :: x in Insert(s, c) <==> x in s || x == c
  {
    hide CidrString, Less;
    if s != [] && Less(CidrString(c), CidrString(s[|s| - 1])) {
      InsertMembers(s[..|s| - 1], c);
      assert s == s[..|s| - 1] + [s[|s| - 1]];
    }
  }

  /** Inserting a new block keeps the order strict, because different blocks print differently. */
  lemma {:induction false} InsertSorts(s: seq<Cidr>, c: Cidr)
    requires ValidCidrs(s) && ValidCidr(c) && TextSorted(s) && c !in s
    ensures TextSorted(Insert(s, c))
  {
    hide CidrString, Less;
    if s != [] {
      var init, last := s[..|s| - 1], s[|s| - 1];
      if Less(CidrString(c), CidrString(last)) {
        InsertSorts(init, c);
        InsertMembers(init, c);
        var r := Insert(init, c);
        forall i | 0 <= i < |r|
          ensures Less(CidrString(r[i]), CidrString(last))
        {
          assert r[i] in r;
          if r[i] != c {
            var k :| 0 <= k < |init| && init[k] == r[i];
            assert s[k] == init[k];
          }
        }
      } else {
        AppendSorts(s, c);
      }
    }
  }

  lemma AppendSorts(s: seq<Cidr>, c: Cidr)
    requires ValidCidrs(s) && ValidCidr(c) && TextSorted(s) && c !in s && s != []
    requires !Less(CidrString(c), CidrString(s[|s| - 1]))
    ensures TextSorted(s + [c])
  {
    hide CidrString, Less;
    var last := s[|s| - 1];
    LessTotal(CidrString(c), CidrString(last));
    if CidrString(c) == CidrString(last) {
      CidrStringInjective(c, last);
      assert false;
    }
    forall i | 0 <= i < |s|
      ensures Less(CidrString(s[i]), CidrString(c))
    {
      if i < |s| - 1 {
        LessTransitive(CidrString(s[i]), CidrString(last), CidrString(c));
      }
    }
  }

  lemma {:induction false} SortingSorts(s: seq<Cidr>)
    requires ValidCidrs(s) && NoDuplicates(s)
    ensures TextSorted(SortedByText(s))
    ensures forall c :: c in SortedByText(s) <==> c in s
  {
    hide CidrString, Less;
    if s != [] {
      var init, last := s[..|s| - 1], s[|s| - 1];
      SortingSorts(init);
      assert s == init + [last];
      InsertMembers(SortedByText(init), last);
      InsertSorts(SortedByText(init), last);
    }
  }

  /** A strictly sorted list is determined by its members. */
  lemma {:induction false} SortedListIsUnique(s: seq<Cidr>, t: seq<Cidr>)
    requires ValidCidrs(s) && ValidCidrs(t) && TextSorted(s) && TextSorted(t)
    requires forall c :: c in s <==> c in t
    ensures s == t
  {
    hide CidrString, Less;
    BothEmpty(s, t);
    if s != [] {
      var x, y := s[|s| - 1], t[|t| - 1];
      var sInit, tInit := s[..|s| - 1], t[..|t| - 1];
      assert s == sInit + [x] && t == tInit + [y];
      LastIsSame(s, t);
      forall c
        ensures c in sInit <==> c in tInit
      {
        NotLastIsInit(s, c);
        NotLastIsInit(t, c);
      }
      SortedListIsUnique(sInit, tInit);
    }
  }

  lemma BothEmpty(s: seq<Cidr>, t: seq<Cidr>)
    requires forall c :: c in s <==> c in t
    ensures s == [] <==> t == []
  {
    hide CidrString, Less;
    assert (s != [] ==> s[0] in t) && (t != [] ==> t[0] in s);
  }

  lemma LastIsSame(s: seq<Cidr>, t: seq<Cidr>)
    requires ValidCidrs(s) && ValidCidrs(t) && TextSorted(s) && TextSorted(t) && s != [] && t != []
    requires forall c :: c in s <==> c in t
    ensures s[|s| - 1] == t[|t| - 1]
  {
    hide CidrString, Less, ValidCidr, TextSorted;
    var x, y := s[|s| - 1], t[|t| - 1];
    assert x in t && y in s;
    var i :| 0 <= i < |t| && t[i] == x;
    var j :| 0 <= j < |s| && s[j] == y;
    LastsMeet(s, t, i, j);
  }

  lemma LastsMeet(s: seq<Cidr>, t: seq<Cidr>, i: nat, j: nat)
    requires ValidCidrs(s) && ValidCidrs(t) && TextSorted(s) && TextSorted(t)
    requires i < |t| && j < |s| && t[i] == s[|s| - 1] && s[j] == t[|t| - 1]
    ensures s[|s| - 1] == t[|t| - 1]
  {
    hide CidrString, Less;
    LessTotal(CidrString(t[i]), CidrString(s[j]));
  }

  lemma NotLastIsInit(s: seq<Cidr>, c: Cidr)
    requires ValidCidrs(s) && TextSorted(s) && s != []
    ensures c in s[..|s| - 1] <==> c in s && c != s[|s| - 1]
  {
    if ValidCidr(c) {
      LessTotal(CidrString(c), CidrString(c));
    }
    assert s == s[..|s| - 1] + [s[|s| - 1]];
  }

  // ---------------------------------------------------------------- results

  /** The list is duplicate-free and holds exactly the allowed IPs of the peers. */
  lemma RoutesAreTheAllowedIps(peers: seq<Peer>)
    requires ValidPeers(peers)
    ensures NoDuplicates(Routes(peers)) && TextSorted(Routes(peers))
    ensures forall c :: c in Routes(peers) <==> exists i: nat :: AllowedBy(peers, c, i)
  {
    hide CidrString, Less;
    var all := AllowedIps(peers);
    DistinctKeepsMembers(all);
    SortingSorts(Distinct(all));
    forall c
      ensures c in Routes(peers) <==> exists i: nat :: AllowedBy(peers, c, i)
    {
      AllowedIpsMembers(peers, c);
    }
    var r := Routes(peers);
    forall i, j | 0 <= i < j < |r|
      ensures r[i] != r[j]
    {
      LessTotal(CidrString(r[i]), CidrString(r[j]));
    }
  }

  /** `q` lists the peers of `p` in the order `order`, each with its allowed IPs in any order. */
  ghost predicate Rearranged(p: seq<Peer>, q: seq<Peer>, order: seq<nat>)
  {
    && |order| == |q| == |p|
    && (forall i :: 0 <= i < |q| ==> order[i] < |p| && multiset(q[i].allowedIps) == multiset(p[order[i]].allowedIps))
    && (forall j :: 0 <= j < |p| ==> j in order)
  }

  /** Reordering peers, or the allowed IPs of a peer, does not change the list. */
  lemma RoutesIgnoreOrder(p: seq<Peer>, q: seq<Peer>, order: seq<nat>)
    requires ValidPeers(p) && ValidPeers(q) && Rearranged(p, q, order)
    ensures Routes(p) == Routes(q)
  {
    hide CidrString, Less;
    RoutesAreTheAllowedIps(p);
    RoutesAreTheAllowedIps(q);
    forall c
      ensures c in Routes(p) <==> c in Routes(q)
    {
      if c in Routes(p) {
        var j: nat :| AllowedBy(p, c, j);
        assert j in order;
        var i :| 0 <= i < |order| && order[i] == j;
        assert c in multiset(q[i].allowedIps);
        assert AllowedBy(q, c, i);
      }
      if c in Routes(q) {
        var i: nat :| AllowedBy(q, c, i);
        assert c in multiset(p[order[i]].allowedIps);
        assert AllowedBy(p, c, order[i]);
      }
    }
    SortedListIsUnique(Routes(p), Routes(q));
  }
}
