/** Four tracks that `Stitch` joins into one without two of them
    (kml.js:858-902). Tracks 0 and 1 are the same two points; track 3 starts
    where track 2 ends. Under a metric that is zero exactly between equal
    points, the three closest pairs link track 0 to track 1 twice and track
    2 to track 3 once. Tracks 0 and 1, with two links each, are no
    candidates for a logical end, so the walks run from track 2 to track 3
    and stop there: tracks 0 and 1 are silently dropped, though no track has
    a third link. */
module DroppedTracks {
  import opened Wrappers
  import opened LatLongs
  import opened Stitching

  function Apart(p: LatLong, q: LatLong): real {
    if p == q then 0.0 else 1.0
  }

  const C0 := LatLong(10.0, 10.0, 0.0)
  const C1 := LatLong(20.0, 20.0, 0.0)
  const A0 := LatLong(0.0, 0.0, 0.0)
  const A1 := LatLong(0.0, 1.0, 0.0)
  const B1 := LatLong(0.0, 2.0, 0.0)

  const Tracks := [[C0, C1], [C0, C1], [A0, A1], [A1, B1]]

  /** The tracks' endpoints: start and end of each, in track order. */
  const E := [Endpoint(C0, 0), Endpoint(C1, 0), Endpoint(C0, 1), Endpoint(C1, 1),
              Endpoint(A0, 2), Endpoint(A1, 2), Endpoint(A1, 3), Endpoint(B1, 3)]

  /** The links along the three pairs at distance zero. */
  const Near := [[E[2], E[3]], [E[0], E[1]], [E[6]], [E[5]]]

  /** What the first walk leaves: track 2 leads on to track 3. */
  const Walked2 := Walked([None, None, Some(E[6]), None], [None, None, None, Some(E[5])])

  lemma Rows8()
    ensures NonEmpty(Tracks) && Ends(Tracks) == E
    ensures Pairs(Ends(Tracks), Apart) == Row(E, Apart, 0, 8) + Row(E, Apart, 1, 8) + Row(E, Apart, 2, 8) + Row(E, Apart, 3, 8) + Row(E, Apart, 4, 8) + Row(E, Apart, 5, 8) + Row(E, Apart, 6, 8) + Row(E, Apart, 7, 8)
  {
    assert Ends(Tracks) == E;
    assert Rows(E, Apart, 1) == Row(E, Apart, 0, 8);
    assert Rows(E, Apart, 2) == Rows(E, Apart, 1) + Row(E, Apart, 1, 8);
    assert Rows(E, Apart, 3) == Rows(E, Apart, 2) + Row(E, Apart, 2, 8);
    assert Rows(E, Apart, 4) == Rows(E, Apart, 3) + Row(E, Apart, 3, 8);
    assert Rows(E, Apart, 5) == Rows(E, Apart, 4) + Row(E, Apart, 4, 8);
    assert Rows(E, Apart, 6) == Rows(E, Apart, 5) + Row(E, Apart, 5, 8);
    assert Rows(E, Apart, 7) == Rows(E, Apart, 6) + Row(E, Apart, 6, 8);
    assert Rows(E, Apart, 8) == Rows(E, Apart, 7) + Row(E, Apart, 7, 8);
  }

  /** Exactly three pairs are at distance zero, in this order. */
  lemma ZeroPairs()
    ensures NonEmpty(Tracks)
    ensures AtDistance(Pairs(Ends(Tracks), Apart), 0.0) == [Pair(E[0], E[2], 0.0), Pair(E[1], E[3], 0.0), Pair(E[5], E[6], 0.0)]
  {
    var r0 := [Pair(E[0], E[2], Apart(E[0].point, E[2].point)), Pair(E[0], E[3], Apart(E[0].point, E[3].point)), Pair(E[0], E[4], Apart(E[0].point, E[4].point)), Pair(E[0], E[5], Apart(E[0].point, E[5].point)), Pair(E[0], E[6], Apart(E[0].point, E[6].point)), Pair(E[0], E[7], Apart(E[0].point, E[7].point))];
    var r1 := [Pair(E[1], E[2], Apart(E[1].point, E[2].point)), Pair(E[1], E[3], Apart(E[1].point, E[3].point)), Pair(E[1], E[4], Apart(E[1].point, E[4].point)), Pair(E[1], E[5], Apart(E[1].point, E[5].point)), Pair(E[1], E[6], Apart(E[1].point, E[6].point)), Pair(E[1], E[7], Apart(E[1].point, E[7].point))];
    var r2 := [Pair(E[2], E[4], Apart(E[2].point, E[4].point)), Pair(E[2], E[5], Apart(E[2].point, E[5].point)), Pair(E[2], E[6], Apart(E[2].point, E[6].point)), Pair(E[2], E[7], Apart(E[2].point, E[7].point))];
    var r3 := [Pair(E[3], E[4], Apart(E[3].point, E[4].point)), Pair(E[3], E[5], Apart(E[3].point, E[5].point)), Pair(E[3], E[6], Apart(E[3].point, E[6].point)), Pair(E[3], E[7], Apart(E[3].point, E[7].point))];
    var r4 := [Pair(E[4], E[6], Apart(E[4].point, E[6].point)), Pair(E[4], E[7], Apart(E[4].point, E[7].point))];
    var r5 := [Pair(E[5], E[6], Apart(E[5].point, E[6].point)), Pair(E[5], E[7], Apart(E[5].point, E[7].point))];
    var r6 := [];
    var r7 := [];
    Rows8();
    assert Row(E, Apart, 0, 8) == r0;
    assert Row(E, Apart, 1, 8) == r1;
    assert Row(E, Apart, 2, 8) == r2;
    assert Row(E, Apart, 3, 8) == r3;
    assert Row(E, Apart, 4, 8) == r4;
    assert Row(E, Apart, 5, 8) == r5;
    assert Row(E, Apart, 6, 8) == r6;
    assert Row(E, Apart, 7, 8) == r7;
    AtDistanceAppend(r0, r1, 0.0);
    AtDistanceAppend(r0 + r1, r2, 0.0);
    AtDistanceAppend(r0 + r1 + r2, r3, 0.0);
    AtDistanceAppend(r0 + r1 + r2 + r3, r4, 0.0);
    AtDistanceAppend(r0 + r1 + r2 + r3 + r4, r5, 0.0);
    AtDistanceAppend(r0 + r1 + r2 + r3 + r4 + r5, r6, 0.0);
    AtDistanceAppend(r0 + r1 + r2 + r3 + r4 + r5 + r6, r7, 0.0);
    AtDistanceOne(r0, 0, 0.0);
    AtDistanceOne(r1, 1, 0.0);
    AtDistanceNone(r2, 0.0);
    AtDistanceNone(r3, 0.0);
    AtDistanceNone(r4, 0.0);
    AtDistanceOne(r5, 0, 0.0);
    assert AtDistance(r6, 0.0) == [];
    assert AtDistance(r7, 0.0) == [];
  }

  const Zero := [Pair(E[0], E[2], 0.0), Pair(E[1], E[3], 0.0), Pair(E[5], E[6], 0.0)]

  /** Sorting puts the three pairs at distance zero first. */
  lemma ZeroFirst()
    ensures NonEmpty(Tracks)
    ensures var sorted := SortByDistance(Pairs(Ends(Tracks), Apart)); |sorted| >= 3 && sorted[..3] == Zero
  {
    var pairs := Pairs(Ends(Tracks), Apart);
    var sorted := SortByDistance(pairs);
    ZeroPairs();
    SortSpec(pairs);
    PairsSpec(Ends(Tracks), Apart);
    assert NoCloser(sorted, 0.0) by {
      forall k | 0 <= k < |sorted| ensures 0.0 <= sorted[k].distance {
        assert sorted[k] in multiset(pairs);
      }
    }
    LowestFirst(sorted, 0.0);
  }

  /** A track's first link leaves the candidates as they are. */
  lemma AttachFirst(l: Links, t: nat, e: Endpoint)
    requires t < |l.near| && l.near[t] == []
    ensures Attach(l, t, e) == Links(l.near[t := [e]], l.copy)
  {
    assert l.near[t] + [e] == [e];
  }

  /** A track's second link takes it off the candidates. */
  lemma AttachSecond(l: Links, t: nat, e: Endpoint)
    requires t < |l.near| && |l.near[t]| == 1
    ensures Attach(l, t, e) == Links(l.near[t := l.near[t] + [e]], Spliced(l.copy, IndexIn(l.copy, t)))
  {
  }

  /** The links after the first and the second pair at distance zero. */
  const Links1 := Links([[E[2]], [E[0]], [], []], [0, 1, 2, 3])
  const Links2 := Links([[E[2], E[3]], [E[0], E[1]], [], []], [2, 3])

  lemma ZeroLinks1()
    ensures TracksBelow(Zero, 4)
    ensures LinkFirst(Zero, 1, 4) == Links1
  {
    var l0 := Unlinked(4);
    assert l0 == Links([[], [], [], []], [0, 1, 2, 3]);
    AttachFirst(l0, 0, E[2]);
    var l0' := Links([[E[2]], [], [], []], [0, 1, 2, 3]);
    assert l0.near[0 := [E[2]]] == l0'.near;
    AttachFirst(l0', 1, E[0]);
    assert l0'.near[1 := [E[0]]] == Links1.near;
    LinkFirstStep(Zero, 0, 4);
  }

  /** The second pair at distance zero takes tracks 0 and 1 off the
      candidates. */
  lemma SecondLink()
    ensures Zero[1].p1.track < 4 && Zero[1].p2.track < 4 && |Links1.near| == 4
    ensures Link(Links1, Zero[1]) == Links2
  {
    var l1 := Links1;
    AttachSecond(l1, 0, E[3]);
    var l1' := Links([[E[2], E[3]], [E[0]], [], []], [1, 2, 3]);
    assert l1.near[0] + [E[3]] == [E[2], E[3]];
    assert l1.near[0 := [E[2], E[3]]] == l1'.near;
    assert Spliced(l1.copy, IndexIn(l1.copy, 0)) == l1'.copy;
    AttachSecond(l1', 1, E[1]);
    assert l1'.near[1] + [E[1]] == [E[0], E[1]];
    assert l1'.near[1 := [E[0], E[1]]] == Links2.near;
    assert Spliced(l1'.copy, IndexIn(l1'.copy, 1)) == Links2.copy;
  }

  lemma ZeroLinks2()
    ensures TracksBelow(Zero, 4)
    ensures LinkFirst(Zero, 2, 4) == Links2
  {
    ZeroLinks1();
    LinkFirstStep(Zero, 1, 4);
    SecondLink();
  }

  /** Linking along the pairs at distance zero. */
  lemma ZeroLinks()
    ensures TracksBelow(Zero, 4)
    ensures LinkFirst(Zero, 3, 4) == Links(Near, [2, 3])
  {
    var l2 := Links2;
    ZeroLinks2();
    AttachFirst(l2, 2, E[6]);
    var l2' := Links([[E[2], E[3]], [E[0], E[1]], [E[6]], []], [2, 3]);
    assert l2.near[2 := [E[6]]] == l2'.near;
    AttachFirst(l2', 3, E[5]);
    assert l2'.near[3 := [E[5]]] == Near;
    LinkFirstStep(Zero, 2, 4);
  }

  /** The links: tracks 0 and 1 linked to each other twice, tracks 2 and 3
      once, and tracks 2 and 3 left as the candidates. */
  lemma ExampleLinks()
    ensures NonEmpty(Tracks)
    ensures BestLinks(Tracks, Apart) == Links(Near, [2, 3])
  {
    var sorted := SortByDistance(Pairs(Ends(Tracks), Apart));
    ZeroFirst();
    ZeroLinks();
    BestLinksFirst(Tracks, Apart, sorted);
    LinkFirstPrefix(sorted, Zero, 3, 4);
  }

  /** The first walk goes from track 2 to track 3 and stops there. */
  lemma ExampleWalk()
    ensures NearBelow(Near)
    ensures Walk(Near, 2, None, Unset(4), WalkBound(4)) == Success(Walked2)
  {
    var w0 := Unset(4);
    var w1 := Walked([None, None, Some(E[6]), None], [None, None, None, None]);
    assert w0.next[2 := Some(E[6])] == w1.next && w0.prev[2 := None] == w1.prev;
    assert Walk(Near, 2, None, w0, 20) == Walk(Near, 3, Some(2), w1, 19);
    assert w1.next[3 := None] == Walked2.next && w1.prev[3 := Some(E[5])] == Walked2.prev;
  }

  /** As written, `Stitch` joins tracks 2 and 3 only: the result has
      neither of the points of tracks 0 and 1, while `StitchWhole` reports
      the two tracks left out. */
  lemma StitchDropsTracks()
    ensures Stitch(Tracks, Apart) == Success([A0, A1, A1, B1])
    ensures C0 !in Stitch(Tracks, Apart).value && C1 !in Stitch(Tracks, Apart).value
    ensures StitchWhole(Tracks, Apart) == Failure(TracksLeftOut(2))
  {
    ExampleLinks();
    ExampleWalk();
    StitchStages(Tracks, Apart);
    assert Prepare(Tracks, Apart) == Success(Start(Walked2, 2));
    assert Orient(Tracks, Walked2, 2) == Success([A0, A1]);
    assert Orient(Tracks, Walked2, 3) == Success([A1, B1]);
    assert Chain(Tracks, Walked2, 2, 4) == Success([A0, A1] + [A1, B1]);
    assert [A0, A1] + [A1, B1] == [A0, A1, A1, B1];
    assert Stitch(Tracks, Apart) == Chain(Tracks, Walked2, 2, |Tracks|);
    assert ChainOrder(Walked2, 2, 4) == [2, 3];
  }
}
