/** Route reflection and its loop checks (src/rr.rs), hop by hop along a chain of reflectors. */
module Reflection {
  import opened Wire
  import opened Attr

  datatype Reflector = Reflector(clusterId: u32, routerId: u32)

  function PrepareReflected(r: Reflector, attrs: PathAttributes, originator: u32): PathAttributes {
    var marked := if attrs.originatorId.None? then attrs.(originatorId := Some(originator)) else attrs;
    marked.(clusterList := [r.clusterId] + marked.clusterList)
  }

  predicate HasLoop(r: Reflector, attrs: PathAttributes) {
    r.clusterId in attrs.clusterList || attrs.originatorId == Some(r.routerId)
  }

  /** One reflector on the way, with the BGP identifier of the peer it heard the route from. */
  datatype Hop = Hop(reflector: Reflector, originator: u32)

  /** The route after every hop has checked for a loop and reflected it; None if some hop refuses. */
  function ReflectAlong(attrs: PathAttributes, hops: seq<Hop>): Option<PathAttributes>
    decreases |hops|
  {
    if hops == [] then Some(attrs)
    else if HasLoop(hops[0].reflector, attrs) then None
    else ReflectAlong(PrepareReflected(hops[0].reflector, attrs, hops[0].originator), hops[1..])
  }

  /** The ORIGINATOR_ID that hop `i` sees. */
  function OriginatorAt(attrs: PathAttributes, hops: seq<Hop>, i: nat): Option<u32>
    requires i <= |hops|
  {
    if attrs.originatorId.Some? || i == 0 then attrs.originatorId else Some(hops[0].originator)
  }

  ghost predicate ClustersDistinctAndNew(attrs: PathAttributes, hops: seq<Hop>) {
    && (forall i, j :: 0 <= i < j < |hops| ==> hops[i].reflector.clusterId != hops[j].reflector.clusterId)
    && (forall i :: 0 <= i < |hops| ==> hops[i].reflector.clusterId !in attrs.clusterList)
  }

  ghost predicate NeverBackAtOriginator(attrs: PathAttributes, hops: seq<Hop>) {
    forall i :: 0 <= i < |hops| ==> OriginatorAt(attrs, hops, i) != Some(hops[i].reflector.routerId)
  }

  /** The clusters of the hops, last hop first. */
  function Visited(hops: seq<Hop>): seq<u32> {
    if hops == [] then [] else Visited(hops[1..]) + [hops[0].reflector.clusterId]
  }

  /** A route goes all the way along a chain if and only if no cluster repeats, none was listed
      before, and the route never returns to its originator. */
  lemma {:induction false} ChainAcceptedIff(attrs: PathAttributes, hops: seq<Hop>)
    ensures ReflectAlong(attrs, hops).Some?
       <==> ClustersDistinctAndNew(attrs, hops) && NeverBackAtOriginator(attrs, hops)
    decreases |hops|
  {
    if hops != [] {
      var first, rest := hops[0], hops[1..];
      var next := PrepareReflected(first.reflector, attrs, first.originator);
      if HasLoop(first.reflector, attrs) {
        assert !ClustersDistinctAndNew(attrs, hops) || OriginatorAt(attrs, hops, 0) == Some(first.reflector.routerId);
      } else {
        ChainAcceptedIff(next, rest);
        ClustersStep(attrs, hops);
        assert forall i :: 0 <= i < |rest| ==> OriginatorAt(next, rest, i) == OriginatorAt(attrs, hops, i + 1);
        if NeverBackAtOriginator(next, rest) {
          forall i | 0 <= i < |hops| ensures OriginatorAt(attrs, hops, i) != Some(hops[i].reflector.routerId) {
            if i > 0 { assert hops[i] == rest[i - 1]; }
          }
        }
        if NeverBackAtOriginator(attrs, hops) {
          forall i | 0 <= i < |rest| ensures OriginatorAt(next, rest, i) != Some(rest[i].reflector.routerId) {
            assert rest[i] == hops[i + 1];
          }
        }
      }
    }
  }

  lemma ClustersStep(attrs: PathAttributes, hops: seq<Hop>)
    requires hops != [] && !HasLoop(hops[0].reflector, attrs)
    ensures ClustersDistinctAndNew(PrepareReflected(hops[0].reflector, attrs, hops[0].originator), hops[1..])
       <==> ClustersDistinctAndNew(attrs, hops)
  {
    var rest := hops[1..];
    var next := PrepareReflected(hops[0].reflector, attrs, hops[0].originator);
    assert forall i :: 0 <= i < |rest| ==> rest[i] == hops[i + 1];
    if ClustersDistinctAndNew(next, rest) {
      forall i, j | 0 <= i < j < |hops| ensures hops[i].reflector.clusterId != hops[j].reflector.clusterId {
        assert hops[j] == rest[j - 1];
        if i > 0 {
          assert hops[i] == rest[i - 1];
        } else {
          assert hops[0].reflector.clusterId in next.clusterList;
        }
      }
      forall i | 0 <= i < |hops| ensures hops[i].reflector.clusterId !in attrs.clusterList {
        if i > 0 { assert hops[i] == rest[i - 1]; }
      }
    }
  }

  /** What a reflected route looks like: the visited clusters are prepended, the originator is fixed
      by the first hop, and nothing else changes. */
  lemma {:induction false} ChainResult(attrs: PathAttributes, hops: seq<Hop>)
    requires ReflectAlong(attrs, hops).Some?
    ensures ReflectAlong(attrs, hops).value
         == attrs.(clusterList := Visited(hops) + attrs.clusterList,
                   originatorId := OriginatorAt(attrs, hops, |hops|))
    decreases |hops|
  {
    if hops == [] {
      assert Visited(hops) + attrs.clusterList == attrs.clusterList;
    } else {
      var first := hops[0];
      ChainResult(PrepareReflected(first.reflector, attrs, first.originator), hops[1..]);
      assert Visited(hops) + attrs.clusterList
          == Visited(hops[1..]) + ([first.reflector.clusterId] + attrs.clusterList);
    }
  }

  /** Reflection terminates: a chain is no longer than the number of clusters not yet listed. */
  lemma {:induction false} ChainBounded(attrs: PathAttributes, hops: seq<Hop>, clusters: set<u32>)
    requires ReflectAlong(attrs, hops).Some?
    requires forall i :: 0 <= i < |hops| ==> hops[i].reflector.clusterId in clusters
    ensures |hops| <= |clusters - set c | c in attrs.clusterList|
  {
    ChainAcceptedIff(attrs, hops);
    Count(hops, clusters - set c | c in attrs.clusterList);
  }

  lemma {:induction false} Count(hops: seq<Hop>, clusters: set<u32>)
    requires forall i, j :: 0 <= i < j < |hops| ==> hops[i].reflector.clusterId != hops[j].reflector.clusterId
    requires forall i :: 0 <= i < |hops| ==> hops[i].reflector.clusterId in clusters
    ensures |hops| <= |clusters|
  {
    if hops != [] {
      Count(hops[1..], clusters - {hops[0].reflector.clusterId});
    }
  }
}
