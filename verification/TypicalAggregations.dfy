/** `GetTypicalAggregations`: the relations the program records, one of them twice, and the gathering from all roots. */
module TypicalAggregations {
  import opened RegistryPaths
  import opened Repetitions
  import opened Sequences
  import opened StaticInformationModel
  import opened TypeGraph
  import opened Wrappers

  const NODE := "ns3::Node"
  const ICMP := "ns3::Icmpv4L4Protocol"

  /** What is recorded as aggregated to a node, in order. */
  const PARTNERS: seq<string> := [
    "ns3::TcpSocketFactory", "ns3::UdpSocketFactory", "ns3::PacketSocketFactory", "ns3::MobilityModel",
    "ns3::Ipv4L3Protocol", "ns3::Ipv4NixVectorRouting", ICMP, "ns3::ArpL3Protocol", ICMP, "ns3::UdpL4Protocol",
    "ns3::Ipv6L3Protocol", "ns3::Icmpv6L4Protocol", "ns3::TcpL4Protocol", "ns3::RipNg", "ns3::GlobalRouter",
    "ns3::aodv::RoutingProtocol", "ns3::dsdv::RoutingProtocol", "ns3::dsr::DsrRouting", "ns3::olsr::RoutingProtocol",
    "ns3::EnergyHarvesterContainer", "ns3::EnergySourceContainer"]

  /** The relations of the first `n` names with `first`; those with an unknown name are missing. */
  function Pairs(lookup: map<string, TypeId>, first: string, names: seq<string>, n: nat): seq<(TypeId, TypeId)>
    requires n <= |names|
  {
    if n == 0 then []
    else if first in lookup && names[n - 1] in lookup then
      Pairs(lookup, first, names, n - 1) + [(lookup[first], lookup[names[n - 1]])]
    else Pairs(lookup, first, names, n - 1)
  }

  /** The names noted as unknown: the first of the two if it is unknown, otherwise the second. */
  function Unknown(lookup: map<string, TypeId>, first: string, names: seq<string>, n: nat): seq<string>
    requires n <= |names|
  {
    if n == 0 then []
    else if first !in lookup then Unknown(lookup, first, names, n - 1) + [first]
    else if names[n - 1] !in lookup then Unknown(lookup, first, names, n - 1) + [names[n - 1]]
    else Unknown(lookup, first, names, n - 1)
  }

  /** The relations are recorded in order, then every root is gathered. */
  method GetTypicalAggregations(info: StaticInformation, roots: seq<TypeId>)
    requires info.Valid() && info.alreadyProcessed == [] && info.output == [] && info.aggregates == [] && info.noTids == []
    requires AllRegistered(info.types, roots)
    modifies info
    ensures info.Valid() && info.alreadyProcessed == []
    ensures info.aggregates == Pairs(info.lookup, NODE, PARTNERS, |PARTNERS|)
    ensures info.noTids == Unknown(info.lookup, NODE, PARTNERS, |PARTNERS|)
    ensures Closed(info.G()) && AllRegistered(info.G(), roots) && info.output == Gathered(info.G(), roots, |roots|)
    ensures Reports(info, roots)
  {
    RecordAll(info, NODE, PARTNERS);
    info.GatherRoots(roots);
    GatheredIsReported(info, roots);
  }

  /** `Get` gives for each type the labels of the chains of edges that lead from a root to it and meet no type twice. */
  ghost predicate Reports(info: StaticInformation, roots: seq<TypeId>)
    reads info
  {
    forall tid, s :: s in Select(info.output, tid) <==> Reachable(info.G(), roots, tid, s)
  }

  lemma GatheredIsReported(info: StaticInformation, roots: seq<TypeId>)
    requires Closed(info.G()) && AllRegistered(info.G(), roots) && info.output == Gathered(info.G(), roots, |roots|)
    ensures Reports(info, roots)
  {
    forall tid, s ensures s in Select(info.output, tid) <==> Reachable(info.G(), roots, tid, s) {
      GatheredPathsExact(info.G(), roots, tid, s);
    }
  }

  method RecordAll(info: StaticInformation, first: string, names: seq<string>)
    requires info.Valid() && info.aggregates == [] && info.noTids == []
    modifies info`aggregates, info`noTids
    ensures info.Valid() && info.aggregates == Pairs(info.lookup, first, names, |names|)
    ensures info.noTids == Unknown(info.lookup, first, names, |names|)
  {
    for i := 0 to |names|
      invariant info.Valid() && info.aggregates == Pairs(info.lookup, first, names, i)
      invariant info.noTids == Unknown(info.lookup, first, names, i)
    {
      info.RecordAggregationInfo(first, names[i]);
    }
  }

  lemma {:induction false} PairAt(lookup: map<string, TypeId>, first: string, names: seq<string>, i: nat, n: nat)
    requires i <= n <= |names|
    ensures |Pairs(lookup, first, names, i)| <= |Pairs(lookup, first, names, n)|
    ensures i < n && first in lookup && names[i] in lookup ==>
      && |Pairs(lookup, first, names, i)| < |Pairs(lookup, first, names, n)|
      && Pairs(lookup, first, names, n)[|Pairs(lookup, first, names, i)|] == (lookup[first], lookup[names[i]])
  {
    if i == n {
    } else {
      PairAt(lookup, first, names, i, n - 1);
    }
  }

  /** A name listed at two places is recorded twice. */
  lemma PairTwice(lookup: map<string, TypeId>, first: string, names: seq<string>, i: nat, j: nat) returns (a: nat, b: nat)
    requires i < j < |names| && names[i] == names[j] && first in lookup && names[i] in lookup
    ensures var pairs := Pairs(lookup, first, names, |names|);
      a < b < |pairs| && pairs[a] == pairs[b] == (lookup[first], lookup[names[i]])
  {
    a, b := |Pairs(lookup, first, names, i)|, |Pairs(lookup, first, names, j)|;
    PairAt(lookup, first, names, i, j);
    PairAt(lookup, first, names, i, |names|);
    PairAt(lookup, first, names, j, |names|);
  }

  lemma IcmpIsListedTwice()
    ensures PARTNERS[6] == PARTNERS[8] == ICMP
  {}

  /** The program's own list repeats entries: if some root reaches the node type without meeting the twice recorded
      protocol, the output has an entry twice. */
  lemma OutputRepeats(lookup: map<string, TypeId>, g: Graph, roots: seq<TypeId>, k: nat, r: Path)
    requires Closed(g) && AllRegistered(g, roots) && k < |roots|
    requires NODE in lookup && ICMP in lookup && g.aggregates == Pairs(lookup, NODE, PARTNERS, |PARTNERS|)
    requires Simple(g, roots[k], {}, r) && End(g, roots[k], r) == lookup[NODE] && lookup[ICMP] !in Stops(g, roots[k], r)
    ensures !Distinct(Gathered(g, roots, |roots|))
  {
    IcmpIsListedTwice();
    var a, b := PairTwice(lookup, NODE, PARTNERS, 6, 8);
    EndIsMet(g, roots[k], r);
    AggregateTwice(g, lookup[NODE], a, b);
    var n := |g.Attributes(lookup[NODE])| + |g.registered|;
    ParallelEdgesRepeat(g, roots[k], r, n + a, n + b);
    RootRepeats(g, roots, |roots|, k);
  }

  lemma {:induction false} EndIsMet(g: Graph, t: TypeId, p: Path)
    ensures End(g, t, p) in Stops(g, t, p)
    decreases |p|
  {
    if p == [] || Slot(g, t, p[0]).None? {
      assert Stops(g, t, p)[0] == t;
    } else {
      EndIsMet(g, Slot(g, t, p[0]).value.target, p[1..]);
    }
  }
}
