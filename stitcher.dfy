/** The stitcher of `Helpers.combineStrings` (kml.js:817-936) as the source
    runs it: loops that push endpoints and pairs, push links and splice the
    candidates, set `__next` and `__prev` in a first walk and concatenate the
    turned tracks in a second. Each stage is proved to compute its reference
    definition in `Stitching`. The per-track fields are indexed by track:
    `__near` a sequence of sequences the linking loop reassigns, `__next` and
    `__prev` arrays the first walk writes. */
module Stitcher {
  import opened Wrappers
  import opened LatLongs
  import opened Polyline
  import opened Stitching
  import opened LineStrings

  /** The `$.each` loop of kml.js:819-822: start and end point of each track. */
  method CollectEnds(tracks: seq<seq<LatLong>>) returns (ends: seq<Endpoint>)
    requires NonEmpty(tracks)
    ensures ends == Ends(tracks)
  {
    ends := [];
    var t := 0;
    while t < |tracks|
      invariant 0 <= t <= |tracks|
      invariant |ends| == 2 * t
      invariant forall k :: 0 <= k < 2 * t ==> ends[k] == Ends(tracks)[k]
    {
      ends := ends + [Endpoint(tracks[t][0], t)];
      ends := ends + [Endpoint(Last(tracks[t]), t)];
      t := t + 1;
    }
  }

  /** The nested loops of kml.js:826-837: every two endpoints of different
      tracks, the earlier first, with their distance. */
  method PairUp(ends: seq<Endpoint>, dist: Metric) returns (pairs: seq<Pair>)
    ensures pairs == Pairs(ends, dist)
  {
    pairs := [];
    var outer := 0;
    while outer < |ends| - 1
      invariant outer <= |ends|
      invariant pairs == Rows(ends, dist, outer)
      decreases |ends| - outer
    {
      pairs := PairRow(ends, dist, outer, pairs);
      outer := outer + 1;
    }
    if ends != [] {
      assert Rows(ends, dist, |ends|) == pairs + [];
    }
  }

  /** The inner loop of kml.js:828-836 for one `outer`: pushes a pair with
      each later endpoint of another track onto `done`. */
  method PairRow(ends: seq<Endpoint>, dist: Metric, outer: nat, done: seq<Pair>) returns (pairs: seq<Pair>)
    requires outer < |ends|
    ensures pairs == done + Row(ends, dist, outer, |ends|)
  {
    pairs := done;
    var inner := outer + 1;
    while inner < |ends|
      invariant outer + 1 <= inner <= |ends|
      invariant pairs == done + Row(ends, dist, outer, inner)
    {
      var p1 := ends[outer];
      var p2 := ends[inner];
      ghost var before := pairs;
      if p1.track != p2.track {
        var distance := dist(p1.point, p2.point);
        pairs := pairs + [Pair(p1, p2, distance)];
      }
      assert pairs == before + PairAt(ends, dist, outer, inner);
      assert Row(ends, dist, outer, inner + 1) == Row(ends, dist, outer, inner) + PairAt(ends, dist, outer, inner);
      inner := inner + 1;
    }
  }

  /** The linking loop of kml.js:860-876 over the first N-1 sorted pairs:
      each track of a pair records the other's endpoint in `__near`, and a
      track with more than one link is spliced out of the candidates. */
  method LinkBest(sorted: seq<Pair>, n: nat) returns (near: seq<seq<Endpoint>>, copy: seq<nat>)
    requires n >= 1 && n - 1 <= |sorted| && TracksBelow(sorted, n)
    ensures Links(near, copy) == LinkFirst(sorted, n - 1, n)
  {
    near := seq(n, t => []);
    copy := seq(n, t => t);
    var index := 0;
    while index < n - 1
      invariant 0 <= index <= n - 1
      invariant near == LinkFirst(sorted, index, n).near
      invariant copy == LinkFirst(sorted, index, n).copy
    {
      var pair := sorted[index];
      var ls1 := pair.p1.track;
      var ls2 := pair.p2.track;
      LinkFirstStep(sorted, index, n);
      ghost var l1 := Attach(Links(near, copy), ls1, pair.p2);
      near := near[ls1 := near[ls1] + [pair.p2]];
      if |near[ls1]| > 1 {
        copy := Spliced(copy, IndexIn(copy, ls1));
      }
      assert Links(near, copy) == l1;
      near := near[ls2 := near[ls2] + [pair.p1]];
      if |near[ls2]| > 1 {
        copy := Spliced(copy, IndexIn(copy, ls2));
      }
      assert Links(near, copy) == Attach(l1, ls2, pair.p1);
      index := index + 1;
    }
  }

  /** The stages of kml.js:819-847 in a row: endpoints, pairs and the sort
      by distance. */
  method SortedPairsOf(tracks: seq<seq<LatLong>>, dist: Metric) returns (sorted: seq<Pair>)
    requires NonEmpty(tracks)
    ensures sorted == SortByDistance(Pairs(Ends(tracks), dist))
  {
    var ends := CollectEnds(tracks);
    var pairs := PairUp(ends, dist);
    sorted := SortByDistance(pairs);
  }

  /** The stages of kml.js:819-876 in a row: the sorted pairs and the links
      along the N-1 closest of them. */
  method BestLinksOf(tracks: seq<seq<LatLong>>, dist: Metric) returns (near: seq<seq<Endpoint>>, copy: seq<nat>)
    requires NonEmpty(tracks) && |tracks| >= 1
    ensures Links(near, copy) == BestLinks(tracks, dist)
  {
    var sorted := SortedPairsOf(tracks, dist);
    BestLinksFirst(tracks, dist, sorted);
    near, copy := LinkBest(sorted, |tracks|);
  }

  /** The first walk (kml.js:883-902) from the logical end `first`: each
      track's `__next` and `__prev` set from its links. The source loops for
      ever when the walk comes back to a state it was in; here the walk stops
      after N*(N+1) iterations, the number of such states, with an error. */
  method WalkLinks(near: seq<seq<Endpoint>>, first: nat) returns (r: Result<Walked, StitchError>)
    requires NearBelow(near) && first < |near|
    ensures r == Walk(near, first, None, Unset(|near|), WalkBound(|near|))
  {
    var n := |near|;
    var next := new Option<Endpoint>[n](t => None);
    var prev := new Option<Endpoint>[n](t => None);
    assert Walked(next[..], prev[..]) == Unset(n);
    var node: nat := first;
    var from: Option<nat> := None;
    var fuel: nat := WalkBound(n);
    while true
      invariant node < n && WalkedBelow(Walked(next[..], prev[..]), n)
      invariant Walk(near, first, None, Unset(n), WalkBound(n)) == Walk(near, node, from, Walked(next[..], prev[..]), fuel)
      decreases fuel
    {
      if fuel == 0 {
        return Failure(WalkDoesNotStop);
      }
      if near[node] == [] {
        return Failure(NoLink);
      }
      if Some(near[node][0].track) == from {
        next[node] := At(near[node], 1);
        prev[node] := Some(near[node][0]);
      } else {
        next[node] := Some(near[node][0]);
        prev[node] := At(near[node], 1);
      }
      from := Some(node);
      if next[node].None? {
        return Success(Walked(next[..], prev[..]));
      }
      node := next[node].value.track;
      fuel := fuel - 1;
    }
  }

  /** The combined points so far in front of what the rest of the walk adds. */
  function After(done: seq<LatLong>, rest: Result<seq<LatLong>, StitchError>): Result<seq<LatLong>, StitchError> {
    match rest
    case Failure(e) => Failure(e)
    case Success(ps) => Success(done + ps)
  }

  /** One track as the second walk turns it (kml.js:918-932): a copy of
      its points, reversed unless its link is already where the walk needs
      it, or why it cannot be turned. */
  method Turn(tracks: seq<seq<LatLong>>, w: Walked, node: nat) returns (r: Result<LineString, StitchError>)
    requires NonEmpty(tracks) && node < |tracks| && WalkedBelow(w, |tracks|)
    ensures r.Success? <==> Orient(tracks, w, node).Success?
    ensures r.Success? ==> fresh(r.value) && r.value.coords == Orient(tracks, w, node).value && r.value.margin == ""
    ensures r.Failure? ==> r.error == Orient(tracks, w, node).error
  {
    var piece := new LineString(tracks[node], "");
    if w.prev[node].None? {
      match HeadLink(w, node)
      case None =>
        return Failure(DanglingLink);
      case Some(p) =>
        if !(IsEqual(Last(tracks[node]), p) || IsEqual(tracks[node][0], p)) {
          return Failure(Misoriented);
        }
        if !IsEqual(Last(tracks[node]), p) {
          piece.Reverse();
        }
    } else {
      match EntryLink(w, node)
      case None =>
        return Failure(DanglingLink);
      case Some(p) =>
        if !IsEqual(tracks[node][0], p) {
          piece.Reverse();
        }
    }
    r := Success(piece);
  }

  /** The second walk (kml.js:909-936): from `first` along `__next`, each
      track turned to face the way the walk goes and its points appended to
      a new track, counting the tracks visited. The source loops for ever
      when the walk comes back to a track; here it stops after N iterations
      with an error. */
  method Assemble(tracks: seq<seq<LatLong>>, w: Walked, first: nat) returns (r: Result<LineString, StitchError>, visited: nat)
    requires NonEmpty(tracks) && first < |tracks| && WalkedBelow(w, |tracks|)
    ensures r.Success? <==> Chain(tracks, w, first, |tracks|).Success?
    ensures r.Success? ==> fresh(r.value) && r.value.coords == Chain(tracks, w, first, |tracks|).value && r.value.margin == ""
    ensures r.Success? ==> visited == |ChainOrder(w, first, |tracks|)|
    ensures r.Failure? ==> r.error == Chain(tracks, w, first, |tracks|).error
  {
    var n := |tracks|;
    var combined := new LineString([], "");
    var node: nat := first;
    var fuel: nat := n;
    visited := 0;
    assert After([], Chain(tracks, w, first, n)) == Chain(tracks, w, first, n) by {
      if Chain(tracks, w, first, n).Success? {
        assert [] + Chain(tracks, w, first, n).value == Chain(tracks, w, first, n).value;
      }
    }
    while true
      invariant node < n && fresh(combined) && combined.margin == ""
      invariant Chain(tracks, w, first, n) == After(combined.coords, Chain(tracks, w, node, fuel))
      invariant |ChainOrder(w, first, n)| == visited + |ChainOrder(w, node, fuel)|
      decreases fuel
    {
      if fuel == 0 {
        return Failure(ChainDoesNotStop), visited;
      }
      ChainStep(tracks, w, node, fuel, combined.coords);
      var turned := Turn(tracks, w, node);
      if turned.Failure? {
        return Failure(turned.error), visited;
      }
      var piece := turned.value;
      combined.Concat(piece);
      visited := visited + 1;
      if w.next[node].None? {
        return Success(combined), visited;
      }
      node := w.next[node].value.track;
      fuel := fuel - 1;
    }
  }

  /** One iteration of the second walk: a track that cannot be turned ends
      it with that error; otherwise its turned points join the combined ones
      and the walk ends or goes on at the next track. */
  lemma ChainStep(tracks: seq<seq<LatLong>>, w: Walked, node: nat, fuel: nat, done: seq<LatLong>)
    requires NonEmpty(tracks) && node < |tracks| && WalkedBelow(w, |tracks|) && fuel > 0
    ensures Orient(tracks, w, node).Failure? ==>
      After(done, Chain(tracks, w, node, fuel)) == Failure(Orient(tracks, w, node).error)
    ensures Orient(tracks, w, node).Success? && w.next[node].None? ==>
      After(done, Chain(tracks, w, node, fuel)) == Success(done + Orient(tracks, w, node).value)
    ensures Orient(tracks, w, node).Success? && w.next[node].Some? ==>
      After(done, Chain(tracks, w, node, fuel))
      == After(done + Orient(tracks, w, node).value, Chain(tracks, w, w.next[node].value.track, fuel - 1))
  {
    if Orient(tracks, w, node).Success? && w.next[node].Some? {
      var piece := Orient(tracks, w, node).value;
      var rest := Chain(tracks, w, w.next[node].value.track, fuel - 1);
      if rest.Success? {
        assert done + (piece + rest.value) == (done + piece) + rest.value;
      }
    }
  }

  /** `Helpers.combineStrings` on the tracks' points (kml.js:817-936): the
      combined, margin-less track, or why there is none. Unlike the source,
      a chain that leaves tracks out fails (see `StitchWhole`). */
  method Combine(tracks: seq<seq<LatLong>>, dist: Metric) returns (r: Result<LineString, StitchError>)
    ensures r.Success? <==> StitchWhole(tracks, dist).Success?
    ensures r.Success? ==> fresh(r.value) && r.value.coords == StitchWhole(tracks, dist).value && r.value.margin == ""
    ensures r.Failure? ==> r.error == StitchWhole(tracks, dist).error
  {
    var n := |tracks|;
    if n == 0 {
      return Failure(NoTracks);
    }
    if !NonEmpty(tracks) {
      return if n == 1 then Failure(NoLogicalEnds(1)) else Failure(EmptyTrack);
    }
    var near, copy := BestLinksOf(tracks, dist);
    StitchStages(tracks, dist);
    if |copy| != 2 {
      return Failure(NoLogicalEnds(|copy|));
    }
    var first := copy[0];
    var w := WalkLinks(near, first);
    if w.Failure? {
      return Failure(w.error);
    }
    var visited;
    r, visited := Assemble(tracks, w.value, first);
    if r.Success? && visited < n {
      r := Failure(TracksLeftOut(n - visited));
    }
  }
}
