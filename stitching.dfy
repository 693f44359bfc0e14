/** The endpoint stitcher of `Helpers.combineStrings` (kml.js:817-936) as
    reference definitions, one per stage, and what each stage promises:
    collect every track's start and end point, pair the endpoints of
    different tracks, sort the pairs by distance, link the tracks along the
    first N-1 pairs, walk the links from a logical end to fix each track's
    successor and predecessor, and walk again, turning each track to face
    the way the walk goes and concatenating the points. */
module Stitching {
  import opened Wrappers
  import opened LatLongs
  import opened Polyline

  /** `{point, string}`: an end point of the track with index `track`. */
  datatype Endpoint = Endpoint(point: LatLong, track: nat)

  /** `{p1, p2, distance}`: two endpoints of different tracks. */
  datatype Pair = Pair(p1: Endpoint, p2: Endpoint, distance: real)

  /** How stitching ends without a combined track. The source shows an alert,
      throws a TypeError, loops forever or fails a `tassert`; each is one case. */
  datatype StitchError =
    | NoTracks                 // no LineString at all: the alert of kml.js:950
    | EmptyTrack               // a track without points: its `undefined` end point throws
    | NoLogicalEnds(count: nat) // the candidates for the two ends are not two (kml.js:881)
    | NoLink                   // the walk reaches a track without links: `__near[0]` throws
    | WalkDoesNotStop          // the first walk comes back to a state it was in: it never stops
    | DanglingLink             // the second walk reads a `__prev`/`__next` the first left unset
    | Misoriented              // the head track has no end at its link (kml.js:919)
    | ChainDoesNotStop         // the second walk comes back to a track: it never stops
    | TracksLeftOut(count: nat) // the chain ends with `count` tracks never visited

  predicate NonEmpty(tracks: seq<seq<LatLong>>) {
    forall t :: 0 <= t < |tracks| ==> tracks[t] != []
  }

  // ---------------------------------------------------------------- ends

  /** The start and then the end point of every track, in track order (kml.js:819-822). */
  function Ends(tracks: seq<seq<LatLong>>): (e: seq<Endpoint>)
    requires NonEmpty(tracks)
    ensures |e| == 2 * |tracks|
    ensures forall k :: 0 <= k < |e| ==> e[k].track == k / 2
    ensures forall t :: 0 <= t < |tracks| ==>
      e[2 * t] == Endpoint(tracks[t][0], t) && e[2 * t + 1] == Endpoint(Last(tracks[t]), t)
  {
    seq(2 * |tracks|, k requires 0 <= k < 2 * |tracks| =>
      Endpoint(if k % 2 == 0 then tracks[k / 2][0] else Last(tracks[k / 2]), k / 2))
  }

  // ---------------------------------------------------------------- pairs

  /** What the inner loop of kml.js:828-836 pushes at `(outer, inner)` =
      `(o, i)`: the pair of the two endpoints if they are of different
      tracks, else nothing. */
  function PairAt(ends: seq<Endpoint>, dist: Metric, o: nat, i: nat): seq<Pair>
    requires o < i < |ends|
  {
    if ends[o].track != ends[i].track then [Pair(ends[o], ends[i], dist(ends[o].point, ends[i].point))] else []
  }

  /** What the inner loop has pushed for `outer` = `o` before `inner`
      reaches `i`. */
  function Row(ends: seq<Endpoint>, dist: Metric, o: nat, i: nat): seq<Pair>
    requires o < i <= |ends|
    decreases i
  {
    if i == o + 1 then [] else Row(ends, dist, o, i - 1) + PairAt(ends, dist, o, i - 1)
  }

  /** What the outer loop of kml.js:826-837 has pushed before `outer`
      reaches `o`. */
  function Rows(ends: seq<Endpoint>, dist: Metric, o: nat): seq<Pair>
    requires o <= |ends|
  {
    if o == 0 then [] else Rows(ends, dist, o - 1) + Row(ends, dist, o - 1, |ends|)
  }

  /** All pairs: the last endpoint's row is empty, so the loop that stops
      one endpoint early pushes them all. */
  function Pairs(ends: seq<Endpoint>, dist: Metric): seq<Pair> {
    Rows(ends, dist, |ends|)
  }

  /** A pair joins two endpoints of different tracks and carries their
      distance. */
  ghost predicate Joins(ends: seq<Endpoint>, dist: Metric, pr: Pair) {
    && pr.p1 in ends && pr.p2 in ends
    && pr.p1.track != pr.p2.track
    && pr.distance == dist(pr.p1.point, pr.p2.point)
  }

  lemma {:induction false} RowSound(ends: seq<Endpoint>, dist: Metric, o: nat, i: nat)
    requires o < i <= |ends|
    ensures forall pr :: pr in Row(ends, dist, o, i) ==> Joins(ends, dist, pr)
    decreases i
  {
    if i > o + 1 {
      RowSound(ends, dist, o, i - 1);
    }
  }

  lemma {:induction false} RowsSound(ends: seq<Endpoint>, dist: Metric, o: nat)
    requires o <= |ends|
    ensures forall pr :: pr in Rows(ends, dist, o) ==> Joins(ends, dist, pr)
  {
    if o > 0 {
      RowsSound(ends, dist, o - 1);
      RowSound(ends, dist, o - 1, |ends|);
    }
  }

  lemma {:induction false} RowComplete(ends: seq<Endpoint>, dist: Metric, o: nat, i: nat, b: nat)
    requires o < b < i <= |ends| && ends[o].track != ends[b].track
    ensures Pair(ends[o], ends[b], dist(ends[o].point, ends[b].point)) in Row(ends, dist, o, i)
    decreases i
  {
    var pr := Pair(ends[o], ends[b], dist(ends[o].point, ends[b].point));
    var left, right := Row(ends, dist, o, i - 1), PairAt(ends, dist, o, i - 1);
    assert Row(ends, dist, o, i) == left + right;
    if b < i - 1 {
      RowComplete(ends, dist, o, i - 1, b);
      assert pr in left;
    } else {
      assert right == [pr];
    }
    InConcat(pr, left, right);
  }

  lemma {:induction false} RowsComplete(ends: seq<Endpoint>, dist: Metric, o: nat, a: nat, b: nat)
    requires a < o <= |ends| && a < b < |ends| && ends[a].track != ends[b].track
    ensures Pair(ends[a], ends[b], dist(ends[a].point, ends[b].point)) in Rows(ends, dist, o)
  {
    var pr := Pair(ends[a], ends[b], dist(ends[a].point, ends[b].point));
    var left, right := Rows(ends, dist, o - 1), Row(ends, dist, o - 1, |ends|);
    assert Rows(ends, dist, o) == left + right;
    if a < o - 1 {
      RowsComplete(ends, dist, o - 1, a, b);
      assert pr in left;
    } else {
      RowComplete(ends, dist, a, |ends|, b);
      assert pr in right;
    }
    InConcat(pr, left, right);
  }

  /** What is in either part is in the concatenation. */
  lemma InConcat<T>(x: T, s: seq<T>, t: seq<T>)
    requires x in s || x in t
    ensures x in s + t
  {
  }

  /** Only endpoints of different tracks are paired, and all of them are: the
      pairs are exactly the two-element choices of endpoints from different
      tracks, the earlier endpoint first. */
  lemma PairsSpec(ends: seq<Endpoint>, dist: Metric)
    ensures forall pr :: pr in Pairs(ends, dist) ==>
      && pr.p1 in ends && pr.p2 in ends
      && pr.p1.track != pr.p2.track
      && pr.distance == dist(pr.p1.point, pr.p2.point)
    ensures forall a, b :: 0 <= a < b < |ends| && ends[a].track != ends[b].track ==>
      Pair(ends[a], ends[b], dist(ends[a].point, ends[b].point)) in Pairs(ends, dist)
  {
    RowsSound(ends, dist, |ends|);
    forall pr | pr in Pairs(ends, dist)
      ensures pr.p1 in ends && pr.p2 in ends
      ensures pr.p1.track != pr.p2.track && pr.distance == dist(pr.p1.point, pr.p2.point)
    {
      assert Joins(ends, dist, pr);
    }
    forall a, b | 0 <= a < b < |ends| && ends[a].track != ends[b].track
      ensures Pair(ends[a], ends[b], dist(ends[a].point, ends[b].point)) in Pairs(ends, dist)
    {
      RowsComplete(ends, dist, |ends|, a, b);
    }
  }

  /** The first endpoint's row holds a pair for each later endpoint of
      another track. */
  lemma {:induction false} RowCount(ends: seq<Endpoint>, dist: Metric, i: nat)
    requires 2 <= i <= |ends|
    requires forall k :: 2 <= k < |ends| ==> ends[k].track != ends[0].track
    ensures |Row(ends, dist, 0, i)| >= i - 2
    decreases i
  {
    if i > 2 {
      RowCount(ends, dist, i - 1);
    }
  }

  lemma {:induction false} RowsGrow(ends: seq<Endpoint>, dist: Metric, o: nat)
    requires 1 <= o <= |ends|
    ensures |Rows(ends, dist, o)| >= |Row(ends, dist, 0, |ends|)|
  {
    if o > 1 {
      RowsGrow(ends, dist, o - 1);
    } else {
      assert Rows(ends, dist, 1) == [] + Row(ends, dist, 0, |ends|);
    }
  }

  /** There are at least as many pairs as the stitcher takes: the first
      track's start alone pairs with the 2N-2 endpoints of the other tracks. */
  lemma PairsEnough(tracks: seq<seq<LatLong>>, dist: Metric)
    requires NonEmpty(tracks) && |tracks| >= 1
    ensures |Pairs(Ends(tracks), dist)| >= 2 * |tracks| - 2
  {
    var ends := Ends(tracks);
    assert ends[1].track == 0 == ends[0].track;
    assert forall k :: 2 <= k < |ends| ==> ends[k].track != ends[0].track;
    RowCount(ends, dist, |ends|);
    RowsGrow(ends, dist, |ends|);
  }

  // ---------------------------------------------------------------- sort

  /** `pairs.sort(...)` by ascending distance, stable as `Array.prototype.sort`
      is: an insertion sort placing each pair before the pairs at the same
      distance that came after it. */
  function SortByDistance(s: seq<Pair>): seq<Pair> {
    if s == [] then [] else Insert(s[0], SortByDistance(s[1..]))
  }

  function Insert(x: Pair, s: seq<Pair>): seq<Pair> {
    if s == [] || x.distance <= s[0].distance then [x] + s else [s[0]] + Insert(x, s[1..])
  }

  ghost predicate SortedByDistance(s: seq<Pair>) {
    forall i, j :: 0 <= i < j < |s| ==> s[i].distance <= s[j].distance
  }

  /** The pairs at distance `d`, in their order. */
  function AtDistance(s: seq<Pair>, d: real): seq<Pair> {
    if s == [] then []
    else (if s[0].distance == d then [s[0]] else []) + AtDistance(s[1..], d)
  }

  lemma {:induction false} InsertMultiset(x: Pair, s: seq<Pair>)
    ensures multiset(Insert(x, s)) == multiset(s) + multiset{x}
    decreases |s|
  {
    if !(s == [] || x.distance <= s[0].distance) {
      InsertMultiset(x, s[1..]);
      assert s == [s[0]] + s[1..];
    }
  }

  /** Every pair of `s` is at least `d` away. */
  ghost predicate NoCloser(s: seq<Pair>, d: real) {
    forall j :: 0 <= j < |s| ==> d <= s[j].distance
  }

  lemma {:induction false} InsertNoCloser(x: Pair, s: seq<Pair>, d: real)
    requires NoCloser(s, d) && d <= x.distance
    ensures NoCloser(Insert(x, s), d)
    decreases |s|
  {
    if !(s == [] || x.distance <= s[0].distance) {
      InsertNoCloser(x, s[1..], d);
      assert forall j :: 1 <= j < |Insert(x, s)| ==> Insert(x, s)[j] == Insert(x, s[1..])[j - 1];
    }
  }

  lemma SortedCons(y: Pair, s: seq<Pair>)
    requires SortedByDistance(s) && NoCloser(s, y.distance)
    ensures SortedByDistance([y] + s)
  {
    var r := [y] + s;
    forall i, j | 0 <= i < j < |r| ensures r[i].distance <= r[j].distance {
      assert r[j] == s[j - 1];
      if i > 0 { assert r[i] == s[i - 1]; }
    }
  }

  lemma {:induction false} InsertSorted(x: Pair, s: seq<Pair>)
    requires SortedByDistance(s)
    ensures SortedByDistance(Insert(x, s))
    decreases |s|
  {
    if s == [] || x.distance <= s[0].distance {
      SortedCons(x, s);
    } else {
      var tail := s[1..];
      assert NoCloser(tail, s[0].distance) by {
        forall j | 0 <= j < |tail| ensures s[0].distance <= tail[j].distance {
          assert tail[j] == s[j + 1];
        }
      }
      InsertSorted(x, tail);
      InsertNoCloser(x, tail, s[0].distance);
      SortedCons(s[0], Insert(x, tail));
    }
  }

  lemma {:induction false} InsertAtDistance(x: Pair, s: seq<Pair>, d: real)
    ensures AtDistance(Insert(x, s), d) == (if x.distance == d then [x] else []) + AtDistance(s, d)
    decreases |s|
  {
    if s == [] || x.distance <= s[0].distance {
      assert Insert(x, s) == [x] + s;
      assert ([x] + s)[1..] == s;
    } else {
      var rest := Insert(x, s[1..]);
      var head := if s[0].distance == d then [s[0]] else [];
      var here := if x.distance == d then [x] else [];
      InsertAtDistance(x, s[1..], d);
      assert Insert(x, s) == [s[0]] + rest;
      assert ([s[0]] + rest)[1..] == rest;
      assert AtDistance(Insert(x, s), d) == head + (here + AtDistance(s[1..], d));
      assert AtDistance(s, d) == head + AtDistance(s[1..], d);
      if x.distance == d {
        assert head == [];
      } else {
        assert here == [];
      }
    }
  }

  /** The sort orders by ascending distance, is a permutation, and is stable:
      for every distance, the pairs at that distance keep their order. */
  lemma {:induction false} SortSpec(s: seq<Pair>)
    ensures SortedByDistance(SortByDistance(s))
    ensures multiset(SortByDistance(s)) == multiset(s)
    ensures forall d :: AtDistance(SortByDistance(s), d) == AtDistance(s, d)
    decreases |s|
  {
    if s != [] {
      SortSpec(s[1..]);
      InsertSorted(s[0], SortByDistance(s[1..]));
      InsertMultiset(s[0], SortByDistance(s[1..]));
      forall d ensures AtDistance(SortByDistance(s), d) == AtDistance(s, d) {
        InsertAtDistance(s[0], SortByDistance(s[1..]), d);
      }
      assert s == [s[0]] + s[1..];
    }
  }

  lemma {:induction false} AtDistanceAppend(a: seq<Pair>, b: seq<Pair>, d: real)
    ensures AtDistance(a + b, d) == AtDistance(a, d) + AtDistance(b, d)
  {
    if a != [] {
      AtDistanceAppend(a[1..], b, d);
      assert (a + b)[1..] == a[1..] + b;
    } else {
      assert a + b == b;
    }
  }

  lemma {:induction false} AtDistanceNone(s: seq<Pair>, d: real)
    requires forall k :: 0 <= k < |s| ==> s[k].distance != d
    ensures AtDistance(s, d) == []
  {
    if s != [] {
      AtDistanceNone(s[1..], d);
    }
  }

  /** A single pair at distance `d` is all `AtDistance` keeps. */
  lemma AtDistanceOne(s: seq<Pair>, j: nat, d: real)
    requires j < |s| && s[j].distance == d
    requires forall k :: 0 <= k < |s| && k != j ==> s[k].distance != d
    ensures AtDistance(s, d) == [s[j]]
  {
    assert s == s[..j] + ([s[j]] + s[j + 1..]);
    AtDistanceAppend(s[..j], [s[j]] + s[j + 1..], d);
    AtDistanceNone(s[..j], d);
    AtDistanceNone(s[j + 1..], d);
    assert ([s[j]] + s[j + 1..])[1..] == s[j + 1..];
  }

  /** In a sorted list with nothing closer than `d`, the pairs at `d` come
      first. */
  lemma {:induction false} LowestFirst(s: seq<Pair>, d: real)
    requires SortedByDistance(s) && NoCloser(s, d)
    ensures |AtDistance(s, d)| <= |s| && s[..|AtDistance(s, d)|] == AtDistance(s, d)
    ensures forall k :: 0 <= k < |AtDistance(s, d)| ==> AtDistance(s, d)[k].distance == d
  {
    if s != [] {
      var rest := AtDistance(s[1..], d);
      LowestFirst(s[1..], d);
      if s[0].distance == d {
        assert s[..1 + |rest|] == [s[0]] + s[1..][..|rest|];
      } else if rest != [] {
        assert false;
      }
    }
  }

  // ---------------------------------------------------------------- links

  /** `__near` of every track, and `lineStringCopy`: the candidates for the
      two logical ends of the chain. */
  datatype Links = Links(near: seq<seq<Endpoint>>, copy: seq<nat>)

  /** `Array.prototype.indexOf`: the first index of `t`, or -1. */
  function IndexIn(s: seq<nat>, t: nat): (r: int)
    ensures -1 <= r < |s|
    ensures r == -1 <==> t !in s
    ensures r >= 0 ==> s[r] == t && t !in s[..r]
  {
    if s == [] then -1
    else if s[0] == t then 0
    else
      var r := IndexIn(s[1..], t);
      if r == -1 then -1
      else
        assert s[..r + 1] == [s[0]] + s[1..][..r];
        r + 1
  }

  /** `splice(k, 1)`: removes the element at `k`. A start of -1 counts from
      the end, so it removes the last element, and nothing from an empty array. */
  function Spliced(s: seq<nat>, k: int): (r: seq<nat>)
    requires -1 <= k < |s|
    ensures |r| == if s == [] then 0 else |s| - 1
    ensures forall x :: x in r ==> x in s
  {
    if k == -1 then (if s == [] then [] else s[..|s| - 1])
    else
      assert forall x :: x in s[..k] + s[k + 1..] ==> x in s[..k] || x in s[k + 1..];
      s[..k] + s[k + 1..]
  }

  /** `ls.__near.push(e)`, then, once `ls` has more than one link,
      `lineStringCopy.splice(lineStringCopy.indexOf(ls), 1)` (kml.js:866-875). */
  function Attach(l: Links, t: nat, e: Endpoint): (r: Links)
    requires t < |l.near|
    ensures |r.near| == |l.near|
    ensures r.near == l.near[t := l.near[t] + [e]]
  {
    var near := l.near[t := l.near[t] + [e]];
    Links(near, if |near[t]| > 1 then Spliced(l.copy, IndexIn(l.copy, t)) else l.copy)
  }

  /** One pass of the linking loop (kml.js:860-876): each track of the pair
      records the other's endpoint. */
  function Link(l: Links, pr: Pair): Links
    requires pr.p1.track < |l.near| && pr.p2.track < |l.near|
  {
    Attach(Attach(l, pr.p1.track, pr.p2), pr.p2.track, pr.p1)
  }

  ghost predicate TracksBelow(pairs: seq<Pair>, n: nat) {
    forall k :: 0 <= k < |pairs| ==> pairs[k].p1.track < n && pairs[k].p2.track < n
  }

  ghost predicate NearBelow(near: seq<seq<Endpoint>>) {
    forall t, k :: 0 <= t < |near| && 0 <= k < |near[t]| ==> near[t][k].track < |near|
  }

  /** No links yet, and every track a candidate, in track order. */
  function Unlinked(n: nat): Links {
    Links(seq(n, t => []), seq(n, t => t))
  }

  /** The links after the first `m` pairs. */
  function LinkFirst(pairs: seq<Pair>, m: nat, n: nat): (r: Links)
    requires m <= |pairs| && TracksBelow(pairs, n)
    ensures |r.near| == n && NearBelow(r.near)
    ensures forall x :: x in r.copy ==> x < n
  {
    if m == 0 then Unlinked(n)
    else
      var l := LinkFirst(pairs, m - 1, n);
      var pr := pairs[m - 1];
      AttachBelow(l, pr.p1.track, pr.p2);
      AttachBelow(Attach(l, pr.p1.track, pr.p2), pr.p2.track, pr.p1);
      Link(l, pr)
  }

  lemma AttachBelow(l: Links, t: nat, e: Endpoint)
    requires t < |l.near| && e.track < |l.near|
    requires NearBelow(l.near) && forall x :: x in l.copy ==> x < |l.near|
    ensures NearBelow(Attach(l, t, e).near) && forall x :: x in Attach(l, t, e).copy ==> x < |l.near|
  {
    var near: seq<seq<Endpoint>> := Attach(l, t, e).near;
    forall u: int, k: int | 0 <= u < |near| && 0 <= k < |near[u]| ensures near[u][k].track < |near| {
      if u == t && k == |near[u]| - 1 {
        assert near[u][k] == e;
      } else {
        assert near[u][k] == l.near[u][k];
      }
    }
  }

  lemma LinkFirstStep(pairs: seq<Pair>, m: nat, n: nat)
    requires m < |pairs| && TracksBelow(pairs, n)
    ensures LinkFirst(pairs, m + 1, n) == Link(LinkFirst(pairs, m, n), pairs[m])
  {
  }

  /** The links depend only on the pairs they are made from. */
  lemma {:induction false} LinkFirstPrefix(a: seq<Pair>, b: seq<Pair>, m: nat, n: nat)
    requires m <= |a| && m <= |b| && a[..m] == b[..m] && TracksBelow(a, n) && TracksBelow(b, n)
    ensures LinkFirst(a, m, n) == LinkFirst(b, m, n)
  {
    if m > 0 {
      assert a[..m - 1] == a[..m][..m - 1] && b[..m - 1] == b[..m][..m - 1];
      assert a[m - 1] == a[..m][m - 1] && b[m - 1] == b[..m][m - 1];
      LinkFirstPrefix(a, b, m - 1, n);
    }
  }

  /** The endpoint a pair links `t` to, if `t` is one of its tracks. */
  function Far(pr: Pair, t: nat): seq<Endpoint> {
    if pr.p1.track == t then [pr.p2] else if pr.p2.track == t then [pr.p1] else []
  }

  /** The endpoints `t` is linked to, in link order. */
  function Opposites(ps: seq<Pair>, t: nat): seq<Endpoint> {
    if ps == [] then [] else Opposites(ps[..|ps| - 1], t) + Far(Last(ps), t)
  }

  lemma LinkFar(l: Links, pr: Pair, t: nat)
    requires pr.p1.track < |l.near| && pr.p2.track < |l.near| && t < |l.near|
    requires pr.p1.track != pr.p2.track
    ensures Link(l, pr).near[t] == l.near[t] + Far(pr, t)
  {
    var l1 := Attach(l, pr.p1.track, pr.p2);
    assert l1.near[t] == l.near[t] + (if t == pr.p1.track then [pr.p2] else []);
    if t != pr.p1.track && t != pr.p2.track {
      assert l.near[t] + [] == l.near[t];
    }
  }

  /** After linking along the first `m` pairs, `__near` of every track lists
      the far endpoints of exactly the pairs that touch it, in pair order. */
  lemma {:induction false} LinkedNear(pairs: seq<Pair>, m: nat, n: nat)
    requires m <= |pairs| && TracksBelow(pairs, n)
    requires forall k :: 0 <= k < |pairs| ==> pairs[k].p1.track != pairs[k].p2.track
    ensures forall t :: 0 <= t < n ==> LinkFirst(pairs, m, n).near[t] == Opposites(pairs[..m], t)
  {
    if m > 0 {
      LinkedNear(pairs, m - 1, n);
      assert pairs[..m][..m - 1] == pairs[..m - 1];
      var pr := pairs[m - 1];
      var l := LinkFirst(pairs, m - 1, n);
      assert Last(pairs[..m]) == pr;
      forall t | 0 <= t < n ensures LinkFirst(pairs, m, n).near[t] == Opposites(pairs[..m], t) {
        LinkFar(l, pr, t);
      }
    }
  }

  // ---------------------------------------------------------------- first walk

  /** `__next` and `__prev` of every track: the endpoint it leads on to and
      the one it is reached from; `None` is `null` or `undefined`. */
  datatype Walked = Walked(next: seq<Option<Endpoint>>, prev: seq<Option<Endpoint>>)

  /** `s[k]`, which is `undefined` past the end. */
  function At(s: seq<Endpoint>, k: nat): Option<Endpoint> {
    if k < |s| then Some(s[k]) else None
  }

  function Unset(n: nat): Walked {
    Walked(seq(n, t => None), seq(n, t => None))
  }

  ghost predicate WalkedBelow(w: Walked, n: nat) {
    && |w.next| == n && |w.prev| == n
    && (forall t :: 0 <= t < n && w.next[t].Some? ==> w.next[t].value.track < n)
    && (forall t :: 0 <= t < n && w.prev[t].Some? ==> w.prev[t].value.track < n)
  }

  /** The first walk (kml.js:883-902) at `node`, reached from `prev`, with at
      most `fuel` more iterations: a track whose first link leads back where
      the walk came from goes on along its second link, any other along its
      first; the walk ends at a track with nowhere further to go. */
  function Walk(near: seq<seq<Endpoint>>, node: nat, prev: Option<nat>, w: Walked, fuel: nat): (r: Result<Walked, StitchError>)
    requires NearBelow(near) && node < |near| && WalkedBelow(w, |near|)
    ensures r.Success? ==> WalkedBelow(r.value, |near|)
    decreases fuel
  {
    if fuel == 0 then Failure(WalkDoesNotStop)
    else if near[node] == [] then Failure(NoLink)
    else
      var back := Some(near[node][0].track) == prev;
      var next := if back then At(near[node], 1) else Some(near[node][0]);
      var from := if back then Some(near[node][0]) else At(near[node], 1);
      var w' := Walked(w.next[node := next], w.prev[node := from]);
      if next.None? then Success(w') else Walk(near, next.value.track, Some(node), w', fuel - 1)
  }

  /** The bound on the first walk: the number of states it can be in, a
      track and where the walk came from (none or one of N tracks). */
  function WalkBound(n: nat): nat {
    n * (n + 1)
  }

  /** Every `__next` and `__prev` set so far is one of that track's links. */
  ghost predicate PointersAreLinks(near: seq<seq<Endpoint>>, w: Walked)
    requires |w.next| == |near| && |w.prev| == |near|
  {
    forall t :: 0 <= t < |near| ==>
      && (w.next[t].Some? ==> w.next[t].value in near[t])
      && (w.prev[t].Some? ==> w.prev[t].value in near[t])
  }

  /** The first walk only ever points a track at its own links. */
  lemma {:induction false} WalkSetsLinks(near: seq<seq<Endpoint>>, node: nat, prev: Option<nat>, w: Walked, fuel: nat)
    requires NearBelow(near) && node < |near| && WalkedBelow(w, |near|)
    requires PointersAreLinks(near, w)
    requires Walk(near, node, prev, w, fuel).Success?
    ensures PointersAreLinks(near, Walk(near, node, prev, w, fuel).value)
    decreases fuel
  {
    var back := Some(near[node][0].track) == prev;
    var next := if back then At(near[node], 1) else Some(near[node][0]);
    var from := if back then Some(near[node][0]) else At(near[node], 1);
    var w' := Walked(w.next[node := next], w.prev[node := from]);
    assert PointersAreLinks(near, w');
    if next.Some? {
      WalkSetsLinks(near, next.value.track, Some(node), w', fuel - 1);
    }
  }

  /** One of the links in `s` leads to track `t`. */
  predicate LinksTo(s: seq<Endpoint>, t: nat) {
    s != [] && (s[0].track == t || LinksTo(s[1..], t))
  }

  lemma {:induction false} LinksToAt(s: seq<Endpoint>, j: nat, t: nat)
    requires j < |s| && s[j].track == t
    ensures LinksTo(s, t)
  {
    if j > 0 {
      LinksToAt(s[1..], j - 1, t);
    }
  }

  lemma {:induction false} LinksToFind(s: seq<Endpoint>, t: nat) returns (j: nat)
    requires LinksTo(s, t)
    ensures j < |s| && s[j].track == t
  {
    if s[0].track == t {
      j := 0;
    } else {
      j := LinksToFind(s[1..], t);
      j := j + 1;
    }
  }

  /** Every link is mutual: the track it leads to has a link back. */
  ghost predicate Mutual(near: seq<seq<Endpoint>>) {
    forall t: nat, k: nat :: LinkedBack(near, t, k)
  }

  /** The `k`-th link of track `t`, if there is one, leads to a track with a
      link back to `t`. */
  predicate LinkedBack(near: seq<seq<Endpoint>>, t: nat, k: nat) {
    t < |near| && k < |near[t]| ==> near[t][k].track < |near| && LinksTo(near[near[t][k].track], t)
  }

  /** A pair that links `t` to `e` also links `e`'s track back to `t`. */
  lemma {:induction false} OppositesBack(ps: seq<Pair>, t: nat, e: Endpoint) returns (f: Endpoint)
    requires e in Opposites(ps, t)
    ensures f in Opposites(ps, e.track) && f.track == t
  {
    var init, pr := ps[..|ps| - 1], Last(ps);
    if e in Opposites(init, t) {
      f := OppositesBack(init, t, e);
    } else {
      f := Far(pr, e.track)[0];
    }
  }

  lemma LinkMutual(l: Links, pr: Pair)
    requires NearBelow(l.near) && Mutual(l.near)
    requires pr.p1.track < |l.near| && pr.p2.track < |l.near|
    ensures NearBelow(Link(l, pr).near) && Mutual(Link(l, pr).near)
  {
    var a, b := pr.p1.track, pr.p2.track;
    var l1 := Attach(l, a, pr.p2);
    var near := Link(l, pr).near;
    AttachLinks(l, a, pr.p2);
    AttachLinks(l1, b, pr.p1);
    assert NearBelow(near) by {
      forall t, k | 0 <= t < |near| && 0 <= k < |near[t]| ensures near[t][k].track < |near| {
        assert near[t][k] in near[t];
      }
    }
    forall t: nat, k: nat ensures LinkedBack(near, t, k) {
      if t < |near| && k < |near[t]| {
        LinkStepBack(l, pr, t, k);
      }
    }
  }

  lemma LinkStepBack(l: Links, pr: Pair, t: nat, k: nat)
    requires NearBelow(l.near) && Mutual(l.near)
    requires pr.p1.track < |l.near| && pr.p2.track < |l.near|
    requires t < |Link(l, pr).near| && k < |Link(l, pr).near[t]|
    ensures LinkedBack(Link(l, pr).near, t, k)
  {
    var a, b := pr.p1.track, pr.p2.track;
    var l1 := Attach(l, a, pr.p2);
    var near := Link(l, pr).near;
    AttachLinks(l, a, pr.p2);
    AttachLinks(l1, b, pr.p1);
    var e := near[t][k];
    assert e in near[t];
    if e in l.near[t] {
      var i :| 0 <= i < |l.near[t]| && l.near[t][i] == e;
      assert LinkedBack(l.near, t, i);
      var j := LinksToFind(l.near[e.track], t);
      var f := l.near[e.track][j];
      assert f in near[e.track];
      var j' :| 0 <= j' < |near[e.track]| && near[e.track][j'] == f;
      LinksToAt(near[e.track], j', t);
    } else if t == a && e == pr.p2 {
      assert pr.p1 in near[b];
      var j' :| 0 <= j' < |near[b]| && near[b][j'] == pr.p1;
      LinksToAt(near[b], j', t);
    } else {
      assert pr.p2 in near[a];
      var j' :| 0 <= j' < |near[a]| && near[a][j'] == pr.p2;
      LinksToAt(near[a], j', t);
    }
  }

  /** What `Attach` adds to the links: `e`, on track `t`. */
  lemma AttachLinks(l: Links, t: nat, e: Endpoint)
    requires t < |l.near|
    ensures forall u, x :: 0 <= u < |l.near| ==> (x in Attach(l, t, e).near[u] <==> x in l.near[u] || (u == t && x == e))
  {
  }

  /** Every link `BestLinks` makes is mutual. */
  lemma BestLinksMutual(tracks: seq<seq<LatLong>>, dist: Metric)
    requires NonEmpty(tracks) && |tracks| >= 1
    ensures Mutual(BestLinks(tracks, dist).near)
  {
    var n := |tracks|;
    var sorted := SortByDistance(Pairs(Ends(tracks), dist));
    BestLinksFirst(tracks, dist, sorted);
    SortedPairs(tracks, dist);
    LinkedNear(sorted, n - 1, n);
    OppositesMutual(BestLinks(tracks, dist).near, sorted[..n - 1]);
  }

  /** Links that are, for every track, the far ends of the pairs touching
      it are mutual. */
  lemma OppositesMutual(near: seq<seq<Endpoint>>, ps: seq<Pair>)
    requires NearBelow(near) && forall t :: 0 <= t < |near| ==> near[t] == Opposites(ps, t)
    ensures Mutual(near)
  {
    forall t: nat, k: nat ensures LinkedBack(near, t, k) {
      if t < |near| && k < |near[t]| {
        var e := near[t][k];
        assert e in Opposites(ps, t);
        var f := OppositesBack(ps, t, e);
        var j :| 0 <= j < |near[e.track]| && near[e.track][j] == f;
        LinksToAt(near[e.track], j, t);
      }
    }
  }

  /** The first walk at a track with at most two links, one of them back
      to the track `p` it came from: `__prev` becomes that link back,
      `__next` the other link, and the walk goes on there, at a track with
      a link back when the links are mutual (kml.js:888-900). */
  lemma WalkBack(near: seq<seq<Endpoint>>, node: nat, p: nat, w: Walked, fuel: nat)
    requires NearBelow(near) && node < |near| && WalkedBelow(w, |near|) && fuel > 0
    requires LinksTo(near[node], p) && |near[node]| <= 2
    ensures exists i, w' ::
      && 0 <= i < |near[node]| && near[node][i].track == p
      && w' == Walked(w.next[node := At(near[node], 1 - i)], w.prev[node := Some(near[node][i])])
      && WalkedBelow(w', |near|)
      && Walk(near, node, Some(p), w, fuel)
         == (if |near[node]| == 1 then Success(w') else Walk(near, near[node][1 - i].track, Some(node), w', fuel - 1))
      && (|near[node]| == 2 && Mutual(near) ==> LinksTo(near[near[node][1 - i].track], node))
  {
    var s := near[node];
    var i := if s[0].track == p then 0 else 1;
    var j := LinksToFind(s, p);
    assert s[i].track == p;
    var w' := Walked(w.next[node := At(s, 1 - i)], w.prev[node := Some(s[i])]);
    assert WalkedBelow(w', |near|);
    if |s| == 2 && Mutual(near) {
      assert LinkedBack(near, node, 1 - i);
    }
  }

  // ---------------------------------------------------------------- second walk

  /** For the head of the chain: the endpoint its successor was reached
      through (`nextString.__prev.point`), if the first walk set one. */
  function HeadLink(w: Walked, node: nat): Option<LatLong>
    requires node < |w.next| && WalkedBelow(w, |w.next|)
  {
    match w.next[node]
    case None => None
    case Some(e) => if w.prev[e.track].Some? then Some(w.prev[e.track].value.point) else None
  }

  /** For any other track: the endpoint its predecessor leads on to
      (`prevString.__next.point`), if the first walk set one. */
  function EntryLink(w: Walked, node: nat): Option<LatLong>
    requires node < |w.next| && WalkedBelow(w, |w.next|) && w.prev[node].Some?
  {
    var e := w.prev[node].value;
    if w.next[e.track].Some? then Some(w.next[e.track].value.point) else None
  }

  /** How the second walk turns track `node` (kml.js:918-932). The head of the
      chain (no `__prev`) must have an end at the endpoint its successor was
      reached through, and is reversed unless its end point is that endpoint;
      any other track is reversed unless its start point is the endpoint its
      predecessor leads on to. */
  function Orient(tracks: seq<seq<LatLong>>, w: Walked, node: nat): Result<seq<LatLong>, StitchError>
    requires NonEmpty(tracks) && node < |tracks| && WalkedBelow(w, |tracks|)
  {
    var track := tracks[node];
    if w.prev[node].None? then
      match HeadLink(w, node)
      case None => Failure(DanglingLink)
      case Some(p) =>
        if !(IsEqual(Last(track), p) || IsEqual(track[0], p)) then Failure(Misoriented)
        else if !IsEqual(Last(track), p) then Success(Reversed(track))
        else Success(track)
    else
      match EntryLink(w, node)
      case None => Failure(DanglingLink)
      case Some(p) => if !IsEqual(track[0], p) then Success(Reversed(track)) else Success(track)
  }

  /** Each track is used whole, as it is or reversed. The head of the chain
      is reversed exactly when its end point is not at its link, ends at its
      link, and fails exactly when neither of its ends is there; any other
      track is reversed exactly when its start point is not at its link, and
      starts there whenever either of its ends is there. */
  lemma OrientSpec(tracks: seq<seq<LatLong>>, w: Walked, node: nat)
    requires NonEmpty(tracks) && node < |tracks| && WalkedBelow(w, |tracks|)
    ensures var r := Orient(tracks, w, node); var track := tracks[node];
      && (r.Success? ==> r.value == track || r.value == Reversed(track))
      && (w.prev[node].None? && HeadLink(w, node).Some? ==>
            var p := HeadLink(w, node).value;
            && (r.Success? <==> IsEqual(track[0], p) || IsEqual(Last(track), p))
            && (r.Success? ==> r.value == if IsEqual(Last(track), p) then track else Reversed(track))
            && (r.Success? ==> IsEqual(Last(r.value), p)))
      && (w.prev[node].Some? && EntryLink(w, node).Some? ==>
            var p := EntryLink(w, node).value;
            && r.Success?
            && r.value == (if IsEqual(track[0], p) then track else Reversed(track))
            && (IsEqual(track[0], p) || IsEqual(Last(track), p) ==> IsEqual(r.value[0], p)))
      && (r.Failure? ==>
            if w.prev[node].None? then HeadLink(w, node).None? || r.error == Misoriented
            else EntryLink(w, node).None? && r.error == DanglingLink)
  {
    ReversedEnds(tracks[node]);
  }

  /** The second walk (kml.js:909-936) from `node` with at most `fuel` more
      iterations: each track turned by `Orient`, their points concatenated in
      walk order, shared joints included. */
  function Chain(tracks: seq<seq<LatLong>>, w: Walked, node: nat, fuel: nat): Result<seq<LatLong>, StitchError>
    requires NonEmpty(tracks) && node < |tracks| && WalkedBelow(w, |tracks|)
    decreases fuel
  {
    if fuel == 0 then Failure(ChainDoesNotStop)
    else
      var piece :- Orient(tracks, w, node);
      match w.next[node]
      case None => Success(piece)
      case Some(e) =>
        var rest :- Chain(tracks, w, e.track, fuel - 1);
        Success(piece + rest)
  }

  // ---------------------------------------------------------------- stitch

  /** The sorted pairs of the tracks' endpoints, and what the rest of the
      stitcher needs of them. */
  lemma SortedPairs(tracks: seq<seq<LatLong>>, dist: Metric)
    requires NonEmpty(tracks) && |tracks| >= 1
    ensures var pairs := SortByDistance(Pairs(Ends(tracks), dist));
      && |pairs| >= |tracks| - 1
      && TracksBelow(pairs, |tracks|)
      && (forall k :: 0 <= k < |pairs| ==> pairs[k].p1.track != pairs[k].p2.track)
  {
    var ends := Ends(tracks);
    var pairs := SortByDistance(Pairs(ends, dist));
    PairsEnough(tracks, dist);
    PairsSpec(ends, dist);
    SortSpec(Pairs(ends, dist));
    assert |pairs| == |Pairs(ends, dist)| by {
      assert |multiset(pairs)| == |multiset(Pairs(ends, dist))|;
    }
    forall k | 0 <= k < |pairs|
      ensures pairs[k].p1.track < |tracks| && pairs[k].p2.track < |tracks|
      ensures pairs[k].p1.track != pairs[k].p2.track
    {
      assert pairs[k] in multiset(Pairs(ends, dist));
      assert pairs[k] in Pairs(ends, dist);
      var a :| 0 <= a < |ends| && ends[a] == pairs[k].p1;
      var b :| 0 <= b < |ends| && ends[b] == pairs[k].p2;
    }
  }

  /** The links along the N-1 closest pairs of endpoints (kml.js:817-876). */
  function BestLinks(tracks: seq<seq<LatLong>>, dist: Metric): (l: Links)
    requires NonEmpty(tracks) && |tracks| >= 1
    ensures |l.near| == |tracks| && NearBelow(l.near)
    ensures forall x :: x in l.copy ==> x < |tracks|
    ensures forall k :: 0 <= k < |l.copy| ==> l.copy[k] < |tracks|
  {
    SortedPairs(tracks, dist);
    var l := LinkFirst(SortByDistance(Pairs(Ends(tracks), dist)), |tracks| - 1, |tracks|);
    assert forall k :: 0 <= k < |l.copy| ==> l.copy[k] in l.copy;
    l
  }

  /** Where the second walk starts: the `__next` and `__prev` the first walk
      left, and the first candidate for a logical end. */
  datatype Start = Start(w: Walked, first: nat)

  /** Everything of `Helpers.combineStrings` before the second walk
      (kml.js:817-902). */
  function Prepare(tracks: seq<seq<LatLong>>, dist: Metric): (r: Result<Start, StitchError>)
    ensures r.Success? ==>
      NonEmpty(tracks) && |tracks| >= 1 && r.value.first < |tracks| && WalkedBelow(r.value.w, |tracks|)
  {
    var n := |tracks|;
    if n == 0 then Failure(NoTracks)
    else if !NonEmpty(tracks) then (if n == 1 then Failure(NoLogicalEnds(1)) else Failure(EmptyTrack))
    else
      var links := BestLinks(tracks, dist);
      if |links.copy| != 2 then Failure(NoLogicalEnds(|links.copy|))
      else
        var first := links.copy[0];
        assert first in links.copy;
        var w :- Walk(links.near, first, None, Unset(n), WalkBound(n));
        Success(Start(w, first))
  }

  /** `Helpers.combineStrings` on the tracks' points (kml.js:817-936): the
      combined points, or why there are none. */
  function Stitch(tracks: seq<seq<LatLong>>, dist: Metric): Result<seq<LatLong>, StitchError> {
    var s :- Prepare(tracks, dist);
    Chain(tracks, s.w, s.first, |tracks|)
  }

  /** `Stitch` as the source evidently intends it: a chain that ends before
      it has visited every track fails instead of dropping the rest. */
  function StitchWhole(tracks: seq<seq<LatLong>>, dist: Metric): Result<seq<LatLong>, StitchError> {
    var s :- Prepare(tracks, dist);
    var points :- Chain(tracks, s.w, s.first, |tracks|);
    var visited := |ChainOrder(s.w, s.first, |tracks|)|;
    if visited < |tracks| then Failure(TracksLeftOut(|tracks| - visited)) else Success(points)
  }

  /** `Stitch` once the links are made: the error for a wrong number of
      logical ends, else the second walk after the first. */
  lemma StitchStages(tracks: seq<seq<LatLong>>, dist: Metric)
    requires NonEmpty(tracks) && |tracks| >= 1
    ensures var l := BestLinks(tracks, dist);
      && (|l.copy| != 2 ==> Stitch(tracks, dist) == Failure(NoLogicalEnds(|l.copy|)))
      && (|l.copy| == 2 ==>
            var walk := Walk(l.near, l.copy[0], None, Unset(|tracks|), WalkBound(|tracks|));
            && l.copy[0] < |tracks|
            && (walk.Failure? ==> Stitch(tracks, dist) == Failure(walk.error))
            && (walk.Success? ==> Prepare(tracks, dist) == Success(Start(walk.value, l.copy[0])))
            && (walk.Success? ==> Stitch(tracks, dist) == Chain(tracks, walk.value, l.copy[0], |tracks|)))
  {
    var l := BestLinks(tracks, dist);
    if |l.copy| == 2 {
      assert l.copy[0] in l.copy;
    }
  }

  /** What `BestLinks` links: the first N-1 of the sorted pairs. */
  lemma BestLinksFirst(tracks: seq<seq<LatLong>>, dist: Metric, sorted: seq<Pair>)
    requires NonEmpty(tracks) && |tracks| >= 1
    requires sorted == SortByDistance(Pairs(Ends(tracks), dist))
    ensures |sorted| >= |tracks| - 1 && TracksBelow(sorted, |tracks|)
    ensures BestLinks(tracks, dist) == LinkFirst(sorted, |tracks| - 1, |tracks|)
  {
    SortedPairs(tracks, dist);
  }

  // ---------------------------------------------------------------- what the stages promise

  /** The pieces the second walk puts together: the tracks it visits, each
      along the `__next` link of the one before and each turned by `Orient`,
      ending at a track without a successor. */
  ghost predicate Pieces(tracks: seq<seq<LatLong>>, w: Walked, node: nat, order: seq<nat>, pieces: seq<seq<LatLong>>)
    requires NonEmpty(tracks) && WalkedBelow(w, |tracks|)
  {
    && |order| == |pieces| >= 1
    && order[0] == node
    && (forall k :: 0 <= k < |order| ==> order[k] < |tracks|)
    && (forall k :: 0 <= k < |order| ==> Orient(tracks, w, order[k]) == Success(pieces[k]))
    && (forall k :: 0 <= k < |order| - 1 ==>
          w.next[order[k]].Some? && w.next[order[k]].value.track == order[k + 1])
    && w.next[Last(order)].None?
  }

  function Flatten(pieces: seq<seq<LatLong>>): seq<LatLong> {
    if pieces == [] then [] else pieces[0] + Flatten(pieces[1..])
  }

  /** The tracks the second walk from `node` visits, with at most `fuel`
      iterations: each track's `__next` leads to the one after. */
  function ChainOrder(w: Walked, node: nat, fuel: nat): seq<nat>
    requires node < |w.next| && WalkedBelow(w, |w.next|)
    decreases fuel
  {
    if fuel == 0 then []
    else
      match w.next[node]
      case None => [node]
      case Some(e) => [node] + ChainOrder(w, e.track, fuel - 1)
  }

  /** A finished second walk yields the concatenation, in walk order, of the
      tracks it visits, each turned by `Orient`, and visits at most `fuel` of
      them. */
  lemma {:induction false} ChainPieces(tracks: seq<seq<LatLong>>, w: Walked, node: nat, fuel: nat)
    requires NonEmpty(tracks) && node < |tracks| && WalkedBelow(w, |tracks|)
    requires Chain(tracks, w, node, fuel).Success?
    ensures exists order, pieces ::
      (&& |order| <= fuel
       && order == ChainOrder(w, node, fuel)
       && Pieces(tracks, w, node, order, pieces)
       && Chain(tracks, w, node, fuel).value == Flatten(pieces))
    decreases fuel
  {
    var piece := Orient(tracks, w, node).value;
    match w.next[node]
    case None =>
      assert Pieces(tracks, w, node, [node], [piece]);
      assert Flatten([piece]) == piece + Flatten([]);
      assert piece + [] == piece;
      assert Chain(tracks, w, node, fuel).value == Flatten([piece]);
      assert |[node]| <= fuel;
    case Some(e) =>
      ChainPieces(tracks, w, e.track, fuel - 1);
      var order, pieces :| |order| <= fuel - 1 && order == ChainOrder(w, e.track, fuel - 1)
        && Pieces(tracks, w, e.track, order, pieces)
        && Chain(tracks, w, e.track, fuel - 1).value == Flatten(pieces);
      PiecesCons(tracks, w, node, piece, order, pieces);
      assert Chain(tracks, w, node, fuel).value == Flatten([piece] + pieces);
      assert |[node] + order| <= fuel;
  }

  /** A track in front of the pieces of the walk from its successor. */
  lemma PiecesCons(tracks: seq<seq<LatLong>>, w: Walked, node: nat, piece: seq<LatLong>, order: seq<nat>, pieces: seq<seq<LatLong>>)
    requires NonEmpty(tracks) && WalkedBelow(w, |tracks|) && node < |tracks|
    requires Orient(tracks, w, node) == Success(piece)
    requires w.next[node].Some? && Pieces(tracks, w, w.next[node].value.track, order, pieces)
    ensures Pieces(tracks, w, node, [node] + order, [piece] + pieces)
    ensures Flatten([piece] + pieces) == piece + Flatten(pieces)
  {
    var order', pieces' := [node] + order, [piece] + pieces;
    forall k | 0 <= k < |order'|
      ensures order'[k] < |tracks|
      ensures Orient(tracks, w, order'[k]) == Success(pieces'[k])
    {
      if k > 0 {
        assert order'[k] == order[k - 1] && pieces'[k] == pieces[k - 1];
      }
    }
    forall k | 0 <= k < |order'| - 1
      ensures w.next[order'[k]].Some? && w.next[order'[k]].value.track == order'[k + 1]
    {
      if k > 0 {
        assert order'[k] == order[k - 1] && order'[k + 1] == order[k];
      }
    }
    assert Last(order') == Last(order);
    assert pieces'[1..] == pieces;
  }

  /** The tracks below `n` with fewer than two links, in ascending order. */
  function Loose(near: seq<seq<Endpoint>>, n: nat): seq<nat>
    requires n <= |near|
  {
    if n == 0 then [] else Loose(near, n - 1) + (if |near[n - 1]| < 2 then [n - 1] else [])
  }

  lemma {:induction false} LooseSpec(near: seq<seq<Endpoint>>, n: nat)
    requires n <= |near|
    ensures forall t: nat :: t in Loose(near, n) <==> t < n && |near[t]| < 2
    decreases n
  {
    if n > 0 {
      LooseSpec(near, n - 1);
      var x: seq<nat> := if |near[n - 1]| < 2 then [n - 1] else [];
      assert Loose(near, n) == Loose(near, n - 1) + x;
      forall t: nat ensures t in Loose(near, n) <==> t < n && |near[t]| < 2 {
        assert t in Loose(near, n) <==> t in Loose(near, n - 1) || t in x;
      }
    }
  }

  lemma {:induction false} LooseSame(near: seq<seq<Endpoint>>, near': seq<seq<Endpoint>>, n: nat)
    requires n <= |near| && n <= |near'|
    requires forall t :: 0 <= t < n ==> (|near[t]| < 2) == (|near'[t]| < 2)
    ensures Loose(near, n) == Loose(near', n)
    decreases n
  {
    if n > 0 {
      LooseSame(near, near', n - 1);
    }
  }

  lemma {:induction false} LooseAll(near: seq<seq<Endpoint>>, n: nat)
    requires n <= |near|
    requires forall t :: 0 <= t < n ==> |near[t]| < 2
    ensures Loose(near, n) == seq(n, t => t)
    decreases n
  {
    if n > 0 {
      LooseAll(near, n - 1);
      assert seq(n, t => t) == seq(n - 1, t => t) + [n - 1];
    }
  }

  lemma IndexInLast(a: seq<nat>, t: nat)
    requires t !in a
    ensures IndexIn(a + [t], t) == |a|
    ensures Spliced(a + [t], IndexIn(a + [t], t)) == a
  {
    assert forall j :: 0 <= j < |a| ==> (a + [t])[j] != t;
    assert (a + [t])[..|a|] == a;
  }

  lemma IndexInAppend(a: seq<nat>, x: seq<nat>, t: nat)
    requires t in a
    ensures IndexIn(a + x, t) == IndexIn(a, t)
    ensures Spliced(a + x, IndexIn(a, t)) == Spliced(a, IndexIn(a, t)) + x
  {
    var k := IndexIn(a, t);
    PrefixOfAppend(a, x, k);
    FirstAt(a + x, k, t);
    DropOneAppend(a, x, k);
  }

  /** The first occurrence is where the element sits with none before it. */
  lemma FirstAt(s: seq<nat>, k: nat, t: nat)
    requires k < |s| && s[k] == t && t !in s[..k]
    ensures IndexIn(s, t) == k
  {
  }

  lemma PrefixOfAppend(a: seq<nat>, x: seq<nat>, k: nat)
    requires k < |a|
    ensures (a + x)[..k] == a[..k] && (a + x)[k] == a[k]
  {
  }

  lemma DropOneAppend(a: seq<nat>, x: seq<nat>, k: nat)
    requires k < |a|
    ensures (a + x)[..k] + (a + x)[k + 1..] == a[..k] + a[k + 1..] + x
  {
    assert (a + x)[k + 1..] == a[k + 1..] + x;
  }

  /** A track getting its second link leaves the candidates exactly where
      `splice(indexOf(t), 1)` takes it out. */
  lemma {:induction false} LooseDrop(near: seq<seq<Endpoint>>, t: nat, v: seq<Endpoint>, n: nat)
    requires t < n <= |near| && |near[t]| < 2 <= |v|
    ensures t in Loose(near, n)
    ensures Loose(near[t := v], n) == Spliced(Loose(near, n), IndexIn(Loose(near, n), t))
    decreases n
  {
    var near' := near[t := v];
    if n - 1 == t {
      LooseSame(near, near', t);
      var a := Loose(near, t);
      LooseSpec(near, t);
      assert t !in a;
      assert Loose(near, n) == a + [t];
      IndexInLast(a, t);
      assert Loose(near', n) == Loose(near', t) + [];
    } else {
      LooseDrop(near, t, v, n - 1);
      var a := Loose(near, n - 1);
      var x: seq<nat> := if |near[n - 1]| < 2 then [n - 1] else [];
      assert Loose(near, n) == a + x;
      assert Loose(near', n) == Loose(near', n - 1) + x;
      IndexInAppend(a, x, t);
      calc {
        Loose(near', n);
        Loose(near', n - 1) + x;
        Spliced(a, IndexIn(a, t)) + x;
        Spliced(a + x, IndexIn(a + x, t));
      }
    }
  }

  lemma AttachLoose(l: Links, t: nat, e: Endpoint)
    requires t < |l.near| && l.copy == Loose(l.near, |l.near|)
    requires |l.near[t]| < 2
    ensures Attach(l, t, e).copy == Loose(Attach(l, t, e).near, |l.near|)
  {
    var near' := l.near[t := l.near[t] + [e]];
    if |l.near[t]| == 0 {
      LooseSame(l.near, near', |l.near|);
    } else {
      LooseDrop(l.near, t, l.near[t] + [e], |l.near|);
    }
  }

  /** Before the first link every track is a candidate, and every track is
      loose (kml.js:808). */
  lemma UnlinkedLoose(n: nat)
    ensures Unlinked(n).copy == Loose(Unlinked(n).near, n)
  {
    LooseAll(Unlinked(n).near, n);
  }

  /** One pass of the linking loop keeps `lineStringCopy` equal to the tracks
      with fewer than two links, in track order, as long as neither track of
      the pair ends up with more than two links (kml.js:860-876). With
      `UnlinkedLoose` this is the loop's invariant: the candidates for the two
      logical ends of the chain are the loose tracks. */
  lemma LinkLoose(l: Links, pr: Pair, n: nat)
    requires |l.near| == n && pr.p1.track < n && pr.p2.track < n && pr.p1.track != pr.p2.track
    requires l.copy == Loose(l.near, n)
    requires |Link(l, pr).near[pr.p1.track]| <= 2 && |Link(l, pr).near[pr.p2.track]| <= 2
    ensures Link(l, pr).copy == Loose(Link(l, pr).near, n)
  {
    LinkFar(l, pr, pr.p1.track);
    LinkFar(l, pr, pr.p2.track);
    AttachLoose(l, pr.p1.track, pr.p2);
    var l1 := Attach(l, pr.p1.track, pr.p2);
    AttachLoose(l1, pr.p2.track, pr.p1);
  }

  // ---------------------------------------------------------------- two tracks

  /** `r` is `a'` followed by `b'`, each one of the two tracks as it is or
      reversed, joined at the closest pair of their ends: `a'` ends at `pa`,
      `b'` starts at `pb`, and no other end of `a` is closer to an end of `b`. */
  ghost predicate JoinedAtClosest(a: seq<LatLong>, b: seq<LatLong>, dist: Metric, r: seq<LatLong>,
                                  a': seq<LatLong>, b': seq<LatLong>, pa: LatLong, pb: LatLong)
    requires a != [] && b != []
  {
    && (a' == a || a' == Reversed(a))
    && (b' == b || b' == Reversed(b))
    && r == a' + b'
    && (pa == a[0] || pa == Last(a))
    && (pb == b[0] || pb == Last(b))
    && a' != [] && b' != []
    && IsEqual(Last(a'), pa) && IsEqual(b'[0], pb)
    && dist(pa, pb) <= dist(a[0], b[0]) && dist(pa, pb) <= dist(a[0], Last(b))
    && dist(pa, pb) <= dist(Last(a), b[0]) && dist(pa, pb) <= dist(Last(a), Last(b))
  }

  /** The pairs of two tracks' ends: start and end of the first with start
      and end of the second, in loop order. */
  lemma TwoPairs(a: seq<LatLong>, b: seq<LatLong>, dist: Metric)
    requires a != [] && b != []
    ensures Pairs(Ends([a, b]), dist) == [
      Pair(Endpoint(a[0], 0), Endpoint(b[0], 1), dist(a[0], b[0])),
      Pair(Endpoint(a[0], 0), Endpoint(Last(b), 1), dist(a[0], Last(b))),
      Pair(Endpoint(Last(a), 0), Endpoint(b[0], 1), dist(Last(a), b[0])),
      Pair(Endpoint(Last(a), 0), Endpoint(Last(b), 1), dist(Last(a), Last(b)))]
  {
    var tracks := [a, b];
    var e := Ends(tracks);
    assert e[0] == Endpoint(a[0], 0) && e[1] == Endpoint(Last(a), 0);
    assert e[2] == Endpoint(b[0], 1) && e[3] == Endpoint(Last(b), 1);
    var p02 := Pair(e[0], e[2], dist(e[0].point, e[2].point));
    var p03 := Pair(e[0], e[3], dist(e[0].point, e[3].point));
    var p12 := Pair(e[1], e[2], dist(e[1].point, e[2].point));
    var p13 := Pair(e[1], e[3], dist(e[1].point, e[3].point));
    assert Row(e, dist, 0, 3) == [p02] by { assert Row(e, dist, 0, 2) == [] + []; }
    assert Row(e, dist, 0, 4) == [p02, p03];
    assert Row(e, dist, 1, 3) == [p12];
    assert Row(e, dist, 1, 4) == [p12, p13];
    assert Row(e, dist, 2, 4) == [] by { assert Row(e, dist, 2, 3) == []; }
    assert Rows(e, dist, 1) == [p02, p03];
    assert Rows(e, dist, 2) == [p02, p03, p12, p13];
    assert Rows(e, dist, 3) == [p02, p03, p12, p13];
  }

  /** After sorting, the first pair is one of the pairs, and none is closer. */
  lemma SortedFirst(s: seq<Pair>)
    requires s != []
    ensures SortByDistance(s) != []
    ensures SortByDistance(s)[0] in s
    ensures forall x :: x in s ==> SortByDistance(s)[0].distance <= x.distance
  {
    var sorted := SortByDistance(s);
    SortSpec(s);
    assert |sorted| == |s| by {
      assert |multiset(sorted)| == |multiset(s)|;
    }
    assert sorted[0] in multiset(s);
    forall x | x in s ensures sorted[0].distance <= x.distance {
      assert x in multiset(sorted);
      var j :| 0 <= j < |sorted| && sorted[j] == x;
    }
  }

  /** The closest of the four pairs of two tracks' ends comes first after
      sorting: an end of the first track, then an end of the second. */
  lemma ClosestFirst(a: seq<LatLong>, b: seq<LatLong>, dist: Metric)
    requires a != [] && b != []
    ensures var sorted := SortByDistance(Pairs(Ends([a, b]), dist));
      && sorted != []
      && var best := sorted[0];
      && best.p1.track == 0 && best.p2.track == 1
      && (best.p1.point == a[0] || best.p1.point == Last(a))
      && (best.p2.point == b[0] || best.p2.point == Last(b))
      && best.distance == dist(best.p1.point, best.p2.point)
      && best.distance <= dist(a[0], b[0]) && best.distance <= dist(a[0], Last(b))
      && best.distance <= dist(Last(a), b[0]) && best.distance <= dist(Last(a), Last(b))
  {
    var pairs := Pairs(Ends([a, b]), dist);
    TwoPairs(a, b, dist);
    SortedFirst(pairs);
    assert pairs[0] in pairs && pairs[1] in pairs && pairs[2] in pairs && pairs[3] in pairs;
  }

  /** Two tracks are linked along their closest pair, and both remain
      candidates for the logical ends. */
  lemma TwoLinks(a: seq<LatLong>, b: seq<LatLong>, dist: Metric)
    requires a != [] && b != []
    ensures NonEmpty([a, b])
    ensures SortByDistance(Pairs(Ends([a, b]), dist)) != []
    ensures var best := SortByDistance(Pairs(Ends([a, b]), dist))[0];
      BestLinks([a, b], dist) == Links([[best.p2], [best.p1]], [0, 1])
  {
    assert NonEmpty([a, b]);
    ClosestFirst(a, b, dist);
    SortedPairs([a, b], dist);
    var sorted := SortByDistance(Pairs(Ends([a, b]), dist));
    var best := sorted[0];
    var l := BestLinks([a, b], dist);
    assert l == LinkFirst(sorted, 1, 2);
    assert LinkFirst(sorted, 1, 2) == Link(LinkFirst(sorted, 0, 2), best);
    var u := Unlinked(2);
    assert u.near == [[], []] && u.copy == [0, 1];
    var l1 := Attach(u, 0, best.p2);
    assert u.near[0] + [best.p2] == [best.p2];
    assert l1.near == [[best.p2], []];
    assert l1.copy == [0, 1];
    assert l1.near[1] + [best.p1] == [best.p1];
    assert l == Attach(l1, 1, best.p1);
  }

  /** The first walk over two linked tracks: from the first to the second,
      which has nowhere further to go. */
  lemma TwoWalk(p1: Endpoint, p2: Endpoint)
    requires p1.track == 0 && p2.track == 1
    ensures NearBelow([[p2], [p1]])
    ensures Walk([[p2], [p1]], 0, None, Unset(2), 6) == Success(Walked([Some(p2), None], [None, Some(p1)]))
  {
    var near := [[p2], [p1]];
    var w0 := Unset(2);
    assert w0.next == [None, None] && w0.prev == [None, None];
    var w1 := Walked([Some(p2), None], [None, None]);
    var w2 := Walked([Some(p2), None], [None, Some(p1)]);
    assert WalkedBelow(w1, 2);
    assert At(near[1], 1) == None && At(near[0], 1) == None;
    assert w1.next[1 := None] == w2.next && w1.prev[1 := Some(p1)] == w2.prev;
    assert Walk(near, 1, Some(0), w1, 5) == Success(w2);
    assert w0.next[0 := Some(p2)] == w1.next && w0.prev[0 := None] == w1.prev;
    assert Walk(near, 0, None, w0, 6) == Walk(near, 1, Some(0), w1, 5);
  }

  /** Two non-empty tracks always stitch: into both, each as it is or
      reversed, meeting at the closest pair of their ends. */
  lemma StitchTwo(a: seq<LatLong>, b: seq<LatLong>, dist: Metric)
    requires a != [] && b != []
    ensures Stitch([a, b], dist).Success?
    ensures exists a', b', pa, pb :: JoinedAtClosest(a, b, dist, Stitch([a, b], dist).value, a', b', pa, pb)
  {
    var tracks := [a, b];
    ClosestFirst(a, b, dist);
    TwoLinks(a, b, dist);
    var best := SortByDistance(Pairs(Ends(tracks), dist))[0];
    TwoWalk(best.p1, best.p2);
    var w := Walked([Some(best.p2), None], [None, Some(best.p1)]);
    assert Stitch(tracks, dist) == Chain(tracks, w, 0, 2);
    TwoChain(a, b, w);
    var a', b' := Orient(tracks, w, 0).value, Orient(tracks, w, 1).value;
    assert JoinedAtClosest(a, b, dist, a' + b', a', b', best.p1.point, best.p2.point);
  }

  lemma TwoChain(a: seq<LatLong>, b: seq<LatLong>, w: Walked)
    requires a != [] && b != [] && WalkedBelow(w, 2)
    requires w.next[0].Some? && w.next[0].value.track == 1 && w.next[1].None?
    requires w.prev[0].None? && w.prev[1].Some? && w.prev[1].value.track == 0
    requires var pa := w.prev[1].value.point; pa == a[0] || pa == Last(a)
    requires var pb := w.next[0].value.point; pb == b[0] || pb == Last(b)
    ensures NonEmpty([a, b])
    ensures Chain([a, b], w, 0, 2).Success?
    ensures var a', b' := Orient([a, b], w, 0).value, Orient([a, b], w, 1).value;
      && (a' == a || a' == Reversed(a)) && (b' == b || b' == Reversed(b))
      && Chain([a, b], w, 0, 2).value == a' + b'
      && a' != [] && b' != []
      && IsEqual(Last(a'), w.prev[1].value.point) && IsEqual(b'[0], w.next[0].value.point)
  {
    var tracks := [a, b];
    assert NonEmpty(tracks);
    OrientSpec(tracks, w, 0);
    OrientSpec(tracks, w, 1);
    ReversedEnds(a);
    ReversedEnds(b);
    assert HeadLink(w, 0) == Some(w.prev[1].value.point);
    assert EntryLink(w, 1) == Some(w.next[0].value.point);
  }

  // ---------------------------------------------------------------- the whole stitch

  /** A stitched track is the concatenation, in walk order, of at most N of
      the tracks, each turned by `Orient`, starting with the first candidate
      for a logical end. */
  lemma StitchPieces(tracks: seq<seq<LatLong>>, dist: Metric)
    requires Stitch(tracks, dist).Success?
    ensures Prepare(tracks, dist).Success?
    ensures var s := Prepare(tracks, dist).value;
      && s.first == BestLinks(tracks, dist).copy[0]
      && exists order, pieces ::
        (&& |order| <= |tracks|
         && order == ChainOrder(s.w, s.first, |tracks|)
         && Pieces(tracks, s.w, s.first, order, pieces)
         && Stitch(tracks, dist).value == Flatten(pieces))
  {
    var s := Prepare(tracks, dist).value;
    StitchStages(tracks, dist);
    ChainPieces(tracks, s.w, s.first, |tracks|);
  }

  /** `StitchWhole` is `Stitch` except where the chain leaves tracks out:
      the same result whenever `Stitch` fails or visits every track, and
      `TracksLeftOut` naming how many it dropped otherwise. */
  lemma StitchWholeAgrees(tracks: seq<seq<LatLong>>, dist: Metric)
    ensures Stitch(tracks, dist).Failure? ==> StitchWhole(tracks, dist) == Stitch(tracks, dist)
    ensures StitchWhole(tracks, dist).Success? ==> Stitch(tracks, dist) == StitchWhole(tracks, dist)
    ensures Stitch(tracks, dist).Success? && StitchWhole(tracks, dist).Failure? ==>
      var s := Prepare(tracks, dist).value;
      && |ChainOrder(s.w, s.first, |tracks|)| < |tracks|
      && StitchWhole(tracks, dist).error == TracksLeftOut(|tracks| - |ChainOrder(s.w, s.first, |tracks|)|)
  {
  }

  /** A track stitched by `StitchWhole` uses every track exactly once, in
      walk order, each turned by `Orient`. */
  lemma StitchWholePieces(tracks: seq<seq<LatLong>>, dist: Metric)
    requires StitchWhole(tracks, dist).Success?
    ensures Prepare(tracks, dist).Success?
    ensures var s := Prepare(tracks, dist).value;
      exists order, pieces ::
        (&& Pieces(tracks, s.w, s.first, order, pieces)
         && |order| == |tracks|
         && (forall i, j :: 0 <= i < j < |order| ==> order[i] != order[j])
         && (forall t :: 0 <= t < |tracks| ==> t in order)
         && StitchWhole(tracks, dist).value == Flatten(pieces))
  {
    var s := Prepare(tracks, dist).value;
    ChainPieces(tracks, s.w, s.first, |tracks|);
    var order, pieces :| |order| <= |tracks| && order == ChainOrder(s.w, s.first, |tracks|)
      && Pieces(tracks, s.w, s.first, order, pieces)
      && Chain(tracks, s.w, s.first, |tracks|).value == Flatten(pieces);
    ChainDistinct(tracks, s.w, s.first, order, pieces);
    DistinctCovers(order, |tracks|);
  }

  /** A chain that ends visits no track twice: after a repeat it would go
      round the same tracks again and never reach the end. */
  lemma ChainDistinct(tracks: seq<seq<LatLong>>, w: Walked, node: nat, order: seq<nat>, pieces: seq<seq<LatLong>>)
    requires NonEmpty(tracks) && WalkedBelow(w, |tracks|) && Pieces(tracks, w, node, order, pieces)
    ensures forall i, j :: 0 <= i < j < |order| ==> order[i] != order[j]
  {
    forall i, j | 0 <= i < j < |order| ensures order[i] != order[j] {
      if order[i] == order[j] {
        var m := |order| - 1 - j;
        ChainShift(tracks, w, node, order, pieces, i, j, m);
        assert false;
      }
    }
  }

  lemma {:induction false} ChainShift(tracks: seq<seq<LatLong>>, w: Walked, node: nat, order: seq<nat>, pieces: seq<seq<LatLong>>,
                                      i: nat, j: nat, m: nat)
    requires NonEmpty(tracks) && WalkedBelow(w, |tracks|) && Pieces(tracks, w, node, order, pieces)
    requires i < j && j + m < |order| && order[i] == order[j]
    ensures order[i + m] == order[j + m]
    decreases m
  {
    if m > 0 {
      ChainShift(tracks, w, node, order, pieces, i, j, m - 1);
      assert w.next[order[i + m - 1]].value.track == order[i + m];
      assert w.next[order[j + m - 1]].value.track == order[j + m];
    }
  }

  /** N distinct tracks below N are all of them. */
  lemma DistinctCovers(order: seq<nat>, n: nat)
    requires |order| == n && (forall k :: 0 <= k < n ==> order[k] < n)
    requires forall i, j :: 0 <= i < j < n ==> order[i] != order[j]
    ensures forall t :: 0 <= t < n ==> t in order
  {
    var used := set k | 0 <= k < n :: order[k];
    var all := Below(n);
    DistinctCount(order);
    BelowSpec(n);
    assert used <= all;
    forall t | 0 <= t < n ensures t in order {
      if t !in used {
        assert used <= all - {t};
        SubsetCount(used, all - {t});
        assert false;
      }
    }
  }

  lemma {:induction false} DistinctCount(s: seq<nat>)
    requires forall i, j :: 0 <= i < j < |s| ==> s[i] != s[j]
    ensures |set k | 0 <= k < |s| :: s[k]| == |s|
  {
    if s != [] {
      var init := s[..|s| - 1];
      DistinctCount(init);
      assert (set k | 0 <= k < |s| :: s[k]) == (set k | 0 <= k < |init| :: init[k]) + {Last(s)};
      assert Last(s) !in (set k | 0 <= k < |init| :: init[k]);
    }
  }

  /** The tracks below `n`. */
  function Below(n: nat): set<nat> {
    if n == 0 then {} else Below(n - 1) + {n - 1}
  }

  lemma {:induction false} BelowSpec(n: nat)
    ensures |Below(n)| == n
    ensures forall t: nat :: t in Below(n) <==> t < n
  {
    if n > 0 {
      BelowSpec(n - 1);
    }
  }

  lemma SubsetCount(a: set<nat>, b: set<nat>)
    requires a <= b
    ensures |a| <= |b|
  {
    assert b == a + (b - a);
  }

  /** The quirk of kml.js:866-875 once a track is linked a third time: it is
      no longer among the candidates, `indexOf` gives -1, and `splice(-1, 1)`
      drops the last candidate, whichever track that is. */
  lemma ThirdLink(l: Links, t: nat, e: Endpoint)
    requires t < |l.near| && |l.near[t]| >= 2 && t !in l.copy && l.copy != []
    ensures Attach(l, t, e).copy == l.copy[..|l.copy| - 1]
  {
  }
}
