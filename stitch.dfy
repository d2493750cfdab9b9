/**
 * The stitching half of `tile_border` (src/board/systems.rs), stated as
 * functions: the deduplicated border points are chained greedily, always
 * moving to the nearest remaining point, and a new chain starts whenever
 * that nearest point is at least `HEX_SIZE` away. Each chain is closed with
 * a copy of its head.
 *
 * The pixel distance between two points is a parameter `dist` (its floor,
 * as a natural number); `as i32` saturates, which `StepDistance` writes out.
 */
module Stitching {
  import opened HexGrid
  import opened Wrappers

  const I32_MAX: int := 0x7FFF_FFFF

  /** `a.distance(b) as i32`: the floored distance, saturated at `i32::MAX`. */
  function StepDistance<P>(dist: (P, P) -> nat, a: P, b: P): (d: nat)
    ensures d <= I32_MAX
  {
    if dist(a, b) > I32_MAX then I32_MAX else dist(a, b)
  }

  /** `k` is the first index of a point of `rest` nearest to `cur`. */
  ghost predicate FirstNearest<P>(dist: (P, P) -> nat, cur: P, rest: seq<P>, k: nat)
  {
    && k < |rest|
    && (forall j :: 0 <= j < |rest| ==> StepDistance(dist, cur, rest[k]) <= StepDistance(dist, cur, rest[j]))
    && (forall j :: 0 <= j < k ==> StepDistance(dist, cur, rest[k]) < StepDistance(dist, cur, rest[j]))
  }

  /** The index the scan over `unsorted_points` settles on. */
  function Nearest<P>(dist: (P, P) -> nat, cur: P, rest: seq<P>): (k: nat)
    requires rest != []
    ensures FirstNearest(dist, cur, rest, k)
    decreases |rest|
  {
    if |rest| == 1 then 0
    else
      var k := Nearest(dist, cur, rest[..|rest| - 1]);
      if StepDistance(dist, cur, rest[|rest| - 1]) < StepDistance(dist, cur, rest[k]) then |rest| - 1 else k
  }

  /** There is only one first nearest index. */
  lemma NearestUnique<P>(dist: (P, P) -> nat, cur: P, rest: seq<P>, k: nat)
    requires rest != [] && FirstNearest(dist, cur, rest, k)
    ensures k == Nearest(dist, cur, rest)
  {
  }

  /** `Vec::remove(k)`: drop the element at `k`, shifting the rest left. */
  function RemoveAt<P>(s: seq<P>, k: nat): (r: seq<P>)
    requires k < |s|
    ensures |r| == |s| - 1
  {
    s[..k] + s[k + 1..]
  }

  lemma RemoveAtMultiset<P>(s: seq<P>, k: nat)
    requires k < |s|
    ensures multiset(RemoveAt(s, k)) + multiset{s[k]} == multiset(s)
  {
    assert s == s[..k] + [s[k]] + s[k + 1..];
  }

  /** A chain closed with a copy of its head (`points.push(*points.first()?)`). */
  function Close<P>(c: seq<P>): seq<P>
    requires c != []
  {
    c + [c[0]]
  }

  function DropLast<P>(c: seq<P>): seq<P>
  {
    if c == [] then [] else c[..|c| - 1]
  }

  /** The chains with their closing copies removed, concatenated. */
  function Flat<P>(cs: seq<seq<P>>): seq<P>
  {
    if cs == [] then [] else DropLast(cs[0]) + Flat(cs[1..])
  }

  /**
   * The chains stitched from `cur` onwards, where `acc` is the part of the
   * current chain already laid down before `cur` and `rest` the points not
   * yet placed. One step appends `cur`, moves to the nearest remaining
   * point, and ends the chain when that point was far or was the last one
   * (in which case it belongs to the ending chain, however far it is).
   */
  function Chains<P>(dist: (P, P) -> nat, cur: P, acc: seq<P>, rest: seq<P>): (cs: seq<seq<P>>)
    requires rest != []
    ensures cs != [] && |cs| <= |rest|
    decreases |rest|
  {
    var k := Nearest(dist, cur, rest);
    var next := rest[k];
    var rest' := RemoveAt(rest, k);
    if rest' == [] then [Close(acc + [cur, next])]
    else if StepDistance(dist, cur, next) >= HEX_SIZE then [Close(acc + [cur])] + Chains(dist, next, [], rest')
    else Chains(dist, next, acc + [cur], rest')
  }

  /** What `tile_border` does with the deduplicated points. */
  function Stitch<P>(dist: (P, P) -> nat, pts: seq<P>): (r: Option<seq<seq<P>>>)
    ensures r.None? <==> pts == []
    ensures r.Some? ==> |r.value| < |pts|
  {
    if pts == [] then None
    else if |pts| == 1 then Some([])  // the seed group `[first]` is dropped, nothing else was built
    else Some(Chains(dist, pts[0], [], pts[1..]))
  }

  /**
   * The greedy nearest-neighbour tour from `cur` through all of `rest`:
   * the order in which points are visited, ignoring where chains break.
   */
  function Tour<P>(dist: (P, P) -> nat, cur: P, rest: seq<P>): (o: seq<P>)
    ensures |o| == |rest| + 1 && o[0] == cur
    decreases |rest|
  {
    if rest == [] then [cur]
    else
      var k := Nearest(dist, cur, rest);
      [cur] + Tour(dist, rest[k], RemoveAt(rest, k))
  }

  /** Every chain has a point and its closing copy, and ends where it began. */
  ghost predicate WellClosed<P>(cs: seq<seq<P>>)
  {
    forall i :: 0 <= i < |cs| ==> |cs[i]| >= 2 && cs[i][|cs[i]| - 1] == cs[i][0]
  }

  /** Each point of `s` is followed by a point nearest to it among all points after it. */
  ghost predicate Greedy<P>(dist: (P, P) -> nat, s: seq<P>)
  {
    forall j, t :: 0 <= j < t < |s| ==> StepDistance(dist, s[j], s[j + 1]) <= StepDistance(dist, s[j], s[t])
  }

  /** Consecutive points of `s` are closer than `HEX_SIZE`. */
  ghost predicate Near<P>(dist: (P, P) -> nat, s: seq<P>)
  {
    forall j :: 0 <= j < |s| - 1 ==> StepDistance(dist, s[j], s[j + 1]) < HEX_SIZE
  }

  /**
   * Chains break exactly at long steps: inside a chain every step is
   * shorter than `HEX_SIZE`, except possibly the final step of the last
   * chain, and the step from a chain's last point (before its closing copy)
   * to the next chain's head is at least `HEX_SIZE`. The last point never
   * sits alone: it joins the last chain however far it is, so that chain
   * holds at least two points besides its closing copy.
   */
  ghost predicate BrokenAtLongSteps<P>(dist: (P, P) -> nat, cs: seq<seq<P>>)
    decreases |cs|
  {
    if cs == [] then true
    else if |cs[0]| < 2 then false
    else if |cs| == 1 then |cs[0]| >= 3 && Near(dist, DropLast(DropLast(cs[0])))
    else
      && Near(dist, DropLast(cs[0]))
      && cs[1] != [] && StepDistance(dist, cs[0][|cs[0]| - 2], cs[1][0]) >= HEX_SIZE
      && BrokenAtLongSteps(dist, cs[1..])
  }

  lemma FlatClosedCons<P>(c: seq<P>, cs: seq<seq<P>>)
    requires c != []
    ensures Flat([Close(c)] + cs) == c + Flat(cs)
  {
    assert ([Close(c)] + cs)[1..] == cs;
    assert DropLast(Close(c)) == c;
  }

  lemma WellClosedCons<P>(c: seq<P>, cs: seq<seq<P>>)
    requires c != [] && WellClosed(cs)
    ensures WellClosed([Close(c)] + cs)
  {
    var all := [Close(c)] + cs;
    forall i | 0 <= i < |all|
      ensures |all[i]| >= 2 && all[i][|all[i]| - 1] == all[i][0]
    {
      if i > 0 {
        assert all[i] == cs[i - 1];
      }
    }
  }

  /** Every chain is closed and has at least two elements; the first chain starts with `acc + [cur]`. */
  lemma {:induction false} ChainsClosed<P>(dist: (P, P) -> nat, cur: P, acc: seq<P>, rest: seq<P>)
    requires rest != []
    ensures var cs := Chains(dist, cur, acc, rest);
      && cs != [] && WellClosed(cs)
      && |cs[0]| > |acc| + 1 && cs[0][..|acc| + 1] == acc + [cur]
    decreases |rest|
  {
    var cs := Chains(dist, cur, acc, rest);
    if |rest| == 1 {
      ChainsLast(dist, cur, acc, rest);
      WellClosedCons(acc + [cur, rest[0]], []);
      assert cs[0][..|acc| + 1] == acc + [cur];
    } else {
      var k := Nearest(dist, cur, rest);
      if StepDistance(dist, cur, rest[k]) >= HEX_SIZE {
        var cs' := Chains(dist, rest[k], [], RemoveAt(rest, k));
        ChainsClosed(dist, rest[k], [], RemoveAt(rest, k));
        ChainsBreak(dist, cur, acc, rest);
        WellClosedCons(acc + [cur], cs');
        assert cs[0][..|acc| + 1] == acc + [cur];
      } else {
        ChainsClosed(dist, rest[k], acc + [cur], RemoveAt(rest, k));
        ChainsContinue(dist, cur, acc, rest);
        assert cs[0][..|acc| + 1] == cs[0][..|acc| + 2][..|acc| + 1];
      }
    }
  }

  /** The tour from `cur` is `cur` followed by the tour from its nearest point. */
  lemma TourCons<P>(dist: (P, P) -> nat, cur: P, rest: seq<P>)
    requires rest != []
    ensures var k := Nearest(dist, cur, rest);
      Tour(dist, cur, rest) == [cur] + Tour(dist, rest[k], RemoveAt(rest, k))
  {
  }

  /** The last point closes the current chain. */
  lemma FollowTourLast<P>(dist: (P, P) -> nat, cur: P, acc: seq<P>, rest: seq<P>)
    requires |rest| == 1
    ensures Flat(Chains(dist, cur, acc, rest)) == acc + Tour(dist, cur, rest)
  {
    var next := rest[0];
    ChainsLast(dist, cur, acc, rest);
    FlatClosedCons(acc + [cur, next], []);
    TourCons(dist, cur, rest);
    assert Tour(dist, cur, rest) == [cur, next];
  }

  /** A long step closes the current chain and the tour goes on in the next one. */
  lemma FollowTourBreak<P>(dist: (P, P) -> nat, cur: P, acc: seq<P>, rest: seq<P>)
    requires |rest| >= 2
    requires var k := Nearest(dist, cur, rest);
      && StepDistance(dist, cur, rest[k]) >= HEX_SIZE
      && Flat(Chains(dist, rest[k], [], RemoveAt(rest, k))) == Tour(dist, rest[k], RemoveAt(rest, k))
    ensures Flat(Chains(dist, cur, acc, rest)) == acc + Tour(dist, cur, rest)
  {
    var k := Nearest(dist, cur, rest);
    var cs' := Chains(dist, rest[k], [], RemoveAt(rest, k));
    ChainsBreak(dist, cur, acc, rest);
    FlatClosedCons(acc + [cur], cs');
    TourCons(dist, cur, rest);
    AppendAssoc(acc, cur, Tour(dist, rest[k], RemoveAt(rest, k)));
  }

  /** The last point joins the current chain, which is closed. */
  lemma ChainsLast<P>(dist: (P, P) -> nat, cur: P, acc: seq<P>, rest: seq<P>)
    requires |rest| == 1
    ensures Chains(dist, cur, acc, rest) == [Close(acc + [cur, rest[0]])]
  {
    assert Nearest(dist, cur, rest) == 0 && RemoveAt(rest, 0) == [];
  }

  /** A long step before the last point: the chain is closed and the next starts at the nearest point. */
  lemma ChainsBreak<P>(dist: (P, P) -> nat, cur: P, acc: seq<P>, rest: seq<P>)
    requires |rest| >= 2
    requires StepDistance(dist, cur, rest[Nearest(dist, cur, rest)]) >= HEX_SIZE
    ensures var k := Nearest(dist, cur, rest);
      Chains(dist, cur, acc, rest) == [Close(acc + [cur])] + Chains(dist, rest[k], [], RemoveAt(rest, k))
  {
  }

  /** A short step before the last point: the chain goes on from the nearest point. */
  lemma ChainsContinue<P>(dist: (P, P) -> nat, cur: P, acc: seq<P>, rest: seq<P>)
    requires |rest| >= 2
    requires StepDistance(dist, cur, rest[Nearest(dist, cur, rest)]) < HEX_SIZE
    ensures var k := Nearest(dist, cur, rest);
      Chains(dist, cur, acc, rest) == Chains(dist, rest[k], acc + [cur], RemoveAt(rest, k))
  {
  }

  lemma AppendAssoc<P>(a: seq<P>, x: P, t: seq<P>)
    ensures a + [x] + t == a + ([x] + t)
  {
  }

  /** A short step extends the current chain. */
  lemma FollowTourContinue<P>(dist: (P, P) -> nat, cur: P, acc: seq<P>, rest: seq<P>)
    requires |rest| >= 2
    requires var k := Nearest(dist, cur, rest);
      && StepDistance(dist, cur, rest[k]) < HEX_SIZE
      && Flat(Chains(dist, rest[k], acc + [cur], RemoveAt(rest, k))) == acc + [cur] + Tour(dist, rest[k], RemoveAt(rest, k))
    ensures Flat(Chains(dist, cur, acc, rest)) == acc + Tour(dist, cur, rest)
  {
    var k := Nearest(dist, cur, rest);
    ChainsContinue(dist, cur, acc, rest);
    TourCons(dist, cur, rest);
    AppendAssoc(acc, cur, Tour(dist, rest[k], RemoveAt(rest, k)));
  }

  /** With the closing copies removed, the chains are the greedy tour, prefixed by `acc`. */
  lemma {:induction false} ChainsFollowTour<P>(dist: (P, P) -> nat, cur: P, acc: seq<P>, rest: seq<P>)
    requires rest != []
    ensures Flat(Chains(dist, cur, acc, rest)) == acc + Tour(dist, cur, rest)
    decreases |rest|
  {
    if |rest| == 1 {
      FollowTourLast(dist, cur, acc, rest);
    } else {
      var k := Nearest(dist, cur, rest);
      if StepDistance(dist, cur, rest[k]) >= HEX_SIZE {
        ChainsFollowTour(dist, rest[k], [], RemoveAt(rest, k));
        FollowTourBreak(dist, cur, acc, rest);
      } else {
        ChainsFollowTour(dist, rest[k], acc + [cur], RemoveAt(rest, k));
        FollowTourContinue(dist, cur, acc, rest);
      }
    }
  }

  /** The tour visits every point exactly once. */
  lemma {:induction false} TourPermutation<P>(dist: (P, P) -> nat, cur: P, rest: seq<P>)
    ensures multiset(Tour(dist, cur, rest)) == multiset([cur] + rest)
    ensures Tour(dist, cur, rest)[0] == cur
    decreases |rest|
  {
    if rest != [] {
      var k := Nearest(dist, cur, rest);
      var rest' := RemoveAt(rest, k);
      TourPermutation(dist, rest[k], rest');
      RemoveAtMultiset(rest, k);
      assert Tour(dist, cur, rest) == [cur] + Tour(dist, rest[k], rest');
    }
  }

  /** The tour after `cur` visits only points of `rest`. */
  lemma TourTailFromRest<P>(dist: (P, P) -> nat, cur: P, rest: seq<P>, x: P)
    requires rest != [] && x in Tour(dist, cur, rest)[1..]
    ensures x in rest
  {
    var k := Nearest(dist, cur, rest);
    var tail := Tour(dist, rest[k], RemoveAt(rest, k));
    TourCons(dist, cur, rest);
    assert Tour(dist, cur, rest)[1..] == tail;
    TourPermutation(dist, rest[k], RemoveAt(rest, k));
    RemoveAtMultiset(rest, k);
    assert x in multiset(tail);
    assert x in multiset(rest);
  }

  /** The first step of the tour goes to a point nearest to the start. */
  lemma TourFirstStep<P>(dist: (P, P) -> nat, cur: P, rest: seq<P>)
    requires rest != []
    ensures var o := Tour(dist, cur, rest);
      forall t :: 1 <= t < |o| ==> StepDistance(dist, o[0], o[1]) <= StepDistance(dist, o[0], o[t])
  {
    var k := Nearest(dist, cur, rest);
    var o := Tour(dist, cur, rest);
    TourCons(dist, cur, rest);
    assert o[0] == cur && o[1] == rest[k];
    forall t | 1 <= t < |o|
      ensures StepDistance(dist, o[0], o[1]) <= StepDistance(dist, o[0], o[t])
    {
      assert o[t] in o[1..];
      TourTailFromRest(dist, cur, rest, o[t]);
    }
  }

  /** Each step of the tour goes to a point nearest among those not yet visited. */
  lemma {:induction false} TourGreedy<P>(dist: (P, P) -> nat, cur: P, rest: seq<P>)
    ensures Greedy(dist, Tour(dist, cur, rest))
    decreases |rest|
  {
    if rest != [] {
      var k := Nearest(dist, cur, rest);
      var next := rest[k];
      var rest' := RemoveAt(rest, k);
      TourGreedy(dist, next, rest');
      TourFirstStep(dist, cur, rest);
      TourCons(dist, cur, rest);
      GreedyCons(dist, cur, Tour(dist, next, rest'));
    }
  }

  /** A greedy sequence stays greedy when its new head steps to a nearest later point. */
  lemma GreedyCons<P>(dist: (P, P) -> nat, x: P, s: seq<P>)
    requires Greedy(dist, s)
    requires var o := [x] + s;
      forall t :: 1 <= t < |o| ==> StepDistance(dist, o[0], o[1]) <= StepDistance(dist, o[0], o[t])
    ensures Greedy(dist, [x] + s)
  {
    var o := [x] + s;
    forall j, t | 0 < j < t < |o|
      ensures StepDistance(dist, o[j], o[j + 1]) <= StepDistance(dist, o[j], o[t])
    {
      assert o[j] == s[j - 1] && o[j + 1] == s[j] && o[t] == s[t - 1];
    }
  }

  lemma NearSnoc<P>(dist: (P, P) -> nat, s: seq<P>, x: P)
    requires s != [] && Near(dist, s) && StepDistance(dist, s[|s| - 1], x) < HEX_SIZE
    ensures Near(dist, s + [x])
  {
    var s' := s + [x];
    forall j | 0 <= j < |s'| - 1
      ensures StepDistance(dist, s'[j], s'[j + 1]) < HEX_SIZE
    {
      if j < |s| - 1 {
        assert s'[j] == s[j] && s'[j + 1] == s[j + 1];
      }
    }
  }

  /** A last chain whose steps are short except possibly its final one. */
  lemma BrokenSingle<P>(dist: (P, P) -> nat, c: seq<P>, x: P)
    requires c != [] && Near(dist, c)
    ensures WellClosed([Close(c + [x])]) && BrokenAtLongSteps(dist, [Close(c + [x])])
  {
    WellClosedCons(c + [x], []);
    assert |Close(c + [x])| == |c| + 2;
    assert DropLast(DropLast(Close(c + [x]))) == c;
  }

  /** A chain of short steps, ended by a long step to the head of the following chains. */
  lemma BrokenCons<P>(dist: (P, P) -> nat, c: seq<P>, cs: seq<seq<P>>)
    requires c != [] && Near(dist, c)
    requires cs != [] && WellClosed(cs) && BrokenAtLongSteps(dist, cs)
    requires StepDistance(dist, c[|c| - 1], cs[0][0]) >= HEX_SIZE
    ensures WellClosed([Close(c)] + cs) && BrokenAtLongSteps(dist, [Close(c)] + cs)
  {
    WellClosedCons(c, cs);
    var all := [Close(c)] + cs;
    assert all[1..] == cs;
    assert DropLast(all[0]) == c;
    assert all[0][|all[0]| - 2] == c[|c| - 1];
  }

  /** Where chains break: see `BrokenAtLongSteps`. */
  lemma {:induction false} ChainsBreakAtLongSteps<P>(dist: (P, P) -> nat, cur: P, acc: seq<P>, rest: seq<P>)
    requires rest != [] && Near(dist, acc + [cur])
    ensures var cs := Chains(dist, cur, acc, rest);
      cs != [] && WellClosed(cs) && BrokenAtLongSteps(dist, cs)
    decreases |rest|
  {
    var k := Nearest(dist, cur, rest);
    var next := rest[k];
    var rest' := RemoveAt(rest, k);
    var cs := Chains(dist, cur, acc, rest);
    if rest' == [] {
      assert acc + [cur, next] == acc + [cur] + [next];
      assert cs == [Close(acc + [cur] + [next])];
      BrokenSingle(dist, acc + [cur], next);
    } else if StepDistance(dist, cur, next) >= HEX_SIZE {
      var cs' := Chains(dist, next, [], rest');
      ChainsBreakAtLongSteps(dist, next, [], rest');
      ChainsClosed(dist, next, [], rest');
      assert cs'[0][0] == cs'[0][..1][0] == next;
      assert cs == [Close(acc + [cur])] + cs';
      BrokenCons(dist, acc + [cur], cs');
    } else {
      NearSnoc(dist, acc + [cur], next);
      ChainsBreakAtLongSteps(dist, next, acc + [cur], rest');
      assert cs == Chains(dist, next, acc + [cur], rest');
    }
  }

  /**
   * The shape of `tile_border`'s result for deduplicated points `pts`:
   * `None` exactly when there are none; `Some([])` for a single point;
   * otherwise closed chains, the first starting at `pts[0]`.
   */
  lemma StitchShape<P>(dist: (P, P) -> nat, pts: seq<P>)
    ensures Stitch(dist, pts).None? <==> pts == []
    ensures |pts| == 1 ==> Stitch(dist, pts) == Some([])
    ensures |pts| >= 2 ==>
      var cs := Stitch(dist, pts).value;
      cs != [] && WellClosed(cs) && cs[0][0] == pts[0]
  {
    if |pts| >= 2 {
      ChainsClosed(dist, pts[0], [], pts[1..]);
    }
  }

  /**
   * Without their closing copies, the chains are the greedy tour of the
   * points: every point is placed exactly once.
   */
  lemma StitchPermutation<P>(dist: (P, P) -> nat, pts: seq<P>)
    requires |pts| >= 2
    ensures var cs := Stitch(dist, pts).value;
      && Flat(cs) == Tour(dist, pts[0], pts[1..])
      && multiset(Flat(cs)) == multiset(pts)
  {
    ChainsFollowTour(dist, pts[0], [], pts[1..]);
    TourPermutation(dist, pts[0], pts[1..]);
    assert [pts[0]] + pts[1..] == pts;
  }

  /**
   * Every step of the stitched points goes to a nearest remaining point,
   * and the chains break exactly at long steps.
   */
  lemma StitchGreedy<P>(dist: (P, P) -> nat, pts: seq<P>)
    requires |pts| >= 2
    ensures var cs := Stitch(dist, pts).value;
      Greedy(dist, Flat(cs)) && BrokenAtLongSteps(dist, cs)
  {
    ChainsFollowTour(dist, pts[0], [], pts[1..]);
    TourGreedy(dist, pts[0], pts[1..]);
    ChainsBreakAtLongSteps(dist, pts[0], [], pts[1..]);
  }
}
