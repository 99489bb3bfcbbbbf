/** The route-combination search of `get_complete_routes` and
    `get_connected_routes`, stated as functions. Each function follows the
    order in which the corresponding loop appends its results, so the
    methods of module Combinator are proved equal to them. */
module CombinatorSpec {
  import opened Routes
  import opened Scan

  /** Number of connect rounds of the multi-leg search. */
  const Rounds: nat := 5

  // ---------------------------------------------------------------------
  // Frontier slicing

  /** The start entries of route `r` for its indices below `n`: one copy
      of `r` per index where its coords equal `start`, cut to begin there. */
  function StartSlices(r: Route, start: Coord, n: nat): seq<Route>
    requires n <= |r.coords|
  {
    if n == 0 then []
    else StartSlices(r, start, n - 1)
         + (if r.coords[n - 1] == start then [r.(coords := r.coords[n - 1..])] else [])
  }

  /** The end entries of route `r` for its indices below `n`: one copy of
      `r` per index where its coords equal `end`, cut to finish there. */
  function EndSlices(r: Route, end: Coord, n: nat): seq<Route>
    requires n <= |r.coords|
  {
    if n == 0 then []
    else EndSlices(r, end, n - 1)
         + (if r.coords[n - 1] == end then [r.(coords := r.coords[..n])] else [])
  }

  /** `start_routes`: the start entries of all candidates, candidate by candidate. */
  function StartRoutes(cands: seq<Route>, start: Coord): seq<Route> {
    if |cands| == 0 then []
    else StartRoutes(cands[..|cands| - 1], start)
         + StartSlices(Last(cands), start, |Last(cands).coords|)
  }

  /** `end_routes`: the end entries of all candidates, candidate by candidate. */
  function EndRoutes(cands: seq<Route>, end: Coord): seq<Route> {
    if |cands| == 0 then []
    else EndRoutes(cands[..|cands| - 1], end)
         + EndSlices(Last(cands), end, |Last(cands).coords|)
  }

  // ---------------------------------------------------------------------
  // Direct routes

  function OptionToSeq<T>(o: Option<T>): seq<T> {
    if o.Some? then [o.value] else []
  }

  /** The single-leg chain a start entry gives when it reaches `end`: the
      entry cut at the first occurrence of `end`. */
  function DirectChain(sr: Route, end: Coord): Option<Chain> {
    match FirstIndex(sr.coords, end)
    case None => None
    case Some(i) => Some([sr.(coords := sr.coords[..i + 1])])
  }

  /** The direct chains of all start entries, in their order. */
  function Directs(srs: seq<Route>, end: Coord): seq<Chain> {
    if |srs| == 0 then []
    else Directs(srs[..|srs| - 1], end) + OptionToSeq(DirectChain(Last(srs), end))
  }

  // ---------------------------------------------------------------------
  // Joining chains

  /** Join `a` and `b` at the earliest coordinate of `a`'s last leg that
      also lies on `b`'s first leg; only that first leg of `b` is kept. */
  function Join(a: Chain, b: Chain): (r: Option<Chain>)
    requires |a| > 0 && |b| > 0
    ensures r.None? <==> forall c :: c in Last(a).coords ==> c !in b[0].coords
    ensures r.Some? ==>
      var c := r.value;
      && |c| == |a| + 1
      && c[..|a| - 1] == a[..|a| - 1]
      && SameMeta(c[|a| - 1], Last(a)) && SameMeta(c[|a|], b[0])
      && 0 < |c[|a| - 1].coords| && c[|a| - 1].coords <= Last(a).coords
      && 0 < |c[|a|].coords| && IsInfix(c[|a|].coords, b[0].coords)
      && Last(c[|a|].coords) == Last(b[0].coords)
      && Meets(c[|a| - 1], c[|a|])
  {
    var xs, ys := Last(a).coords, b[0].coords;
    match FirstMatch(xs, ys)
    case None =>
      assert forall c :: c in xs ==> c !in ys by {
        forall c | c in xs ensures c !in ys {
          var i :| 0 <= i < |xs| && xs[i] == c;
        }
      }
      None
    case Some((i, j)) =>
      var head := a[..|a| - 1];
      var kept, taken := Last(a).(coords := xs[..i + 1]), b[0].(coords := ys[j..]);
      var c := head + [kept] + [taken];
      assert c[..|a| - 1] == head && c[|a| - 1] == kept && c[|a|] == taken;
      assert xs[i] in xs;
      assert taken.coords == ys[j..|ys|];
      Some(c)
  }

  /** The join at the earliest shared coordinate `(i, j)`, written out. */
  lemma JoinAt(a: Chain, b: Chain, i: nat, j: nat)
    requires |a| > 0 && |b| > 0
    requires i < |Last(a).coords| && j < |b[0].coords| && Last(a).coords[i] == b[0].coords[j]
    requires forall k :: 0 <= k < i ==> Last(a).coords[k] !in b[0].coords
    requires forall k :: 0 <= k < j ==> b[0].coords[k] != Last(a).coords[i]
    ensures Join(a, b) == Some(a[..|a| - 1] + [Last(a).(coords := Last(a).coords[..i + 1])]
                                 + [b[0].(coords := b[0].coords[j..])])
  {
    FirstMatchIs(Last(a).coords, b[0].coords, i, j);
  }

  /** The joins of chain `a` with each chain of `group`, in `group`'s order. */
  function ConnectRow(a: Chain, group: seq<Chain>): seq<Chain>
    requires |a| > 0 && NonEmptyChains(group)
  {
    if |group| == 0 then []
    else ConnectRow(a, group[..|group| - 1]) + OptionToSeq(Join(a, Last(group)))
  }

  /** `get_connected_routes`: every pair (a, b), `groupA`-major, that joins. */
  function Connect(groupA: seq<Chain>, groupB: seq<Chain>): (r: seq<Chain>)
    requires NonEmptyChains(groupA) && NonEmptyChains(groupB)
    ensures forall k :: 0 <= k < |r| ==> |r[k]| >= 2
  {
    if |groupA| == 0 then []
    else
      var row := ConnectRow(Last(groupA), groupB);
      RowLengths(Last(groupA), groupB);
      Connect(groupA[..|groupA| - 1], groupB) + row
  }

  /** One more chain of `groupA` adds its row of joins. */
  lemma ConnectSnoc(groupA: seq<Chain>, groupB: seq<Chain>, x: nat)
    requires x < |groupA| && NonEmptyChains(groupA) && NonEmptyChains(groupB)
    ensures NonEmptyChains(groupA[..x]) && NonEmptyChains(groupA[..x + 1])
    ensures Connect(groupA[..x + 1], groupB) == Connect(groupA[..x], groupB) + ConnectRow(groupA[x], groupB)
  {
    assert groupA[..x + 1][..x] == groupA[..x];
  }

  /** One more chain of `group` adds its join, if any. */
  lemma RowSnoc(a: Chain, group: seq<Chain>, y: nat)
    requires |a| > 0 && y < |group| && NonEmptyChains(group)
    ensures NonEmptyChains(group[..y]) && NonEmptyChains(group[..y + 1])
    ensures ConnectRow(a, group[..y + 1]) == ConnectRow(a, group[..y]) + OptionToSeq(Join(a, group[y]))
  {
    assert group[..y + 1][..y] == group[..y];
  }

  /** Every join of `a` has one leg more than `a`. */
  lemma {:induction false} RowLengths(a: Chain, group: seq<Chain>)
    requires |a| > 0 && NonEmptyChains(group)
    ensures forall k :: 0 <= k < |ConnectRow(a, group)| ==> |ConnectRow(a, group)[k]| == |a| + 1
  {
    if |group| > 0 {
      RowLengths(a, group[..|group| - 1]);
    }
  }

  // ---------------------------------------------------------------------
  // The bounded search

  /** Each element as a one-leg chain (`[[route] for route in ...]`). */
  function Singletons(rs: seq<Route>): (g: seq<Chain>)
    ensures |g| == |rs| && NonEmptyChains(g)
    ensures forall k :: 0 <= k < |g| ==> g[k] == [rs[k]]
  {
    seq(|rs|, k requires 0 <= k < |rs| => [rs[k]])
  }

  /** Rounds `round` to 4 of the loop: connect the frontiers, return the
      joins if there are any, else extend the start frontier (even round)
      or the end frontier (odd round) against the full network and give up
      with the empty result when one of them becomes empty. `None` is the
      fall-through after the last round. */
  function Search(startNet: seq<Chain>, endNet: seq<Chain>, full: seq<Chain>, round: nat): Option<seq<Chain>>
    requires round <= Rounds
    requires NonEmptyChains(startNet) && NonEmptyChains(endNet) && NonEmptyChains(full)
    decreases Rounds - round
  {
    if round == Rounds then None
    else
      var found := Connect(startNet, endNet);
      if |found| > 0 then Some(found)
      else
        var startNet' := if round % 2 == 0 then Connect(startNet, full) else startNet;
        var endNet' := if round % 2 == 0 then endNet else Connect(full, endNet);
        if |startNet'| == 0 || |endNet'| == 0 then Some(found)
        else Search(startNet', endNet', full, round + 1)
  }

  /** `get_complete_routes`: the direct chains if there are any, otherwise
      the bounded multi-leg search over one-leg frontiers. */
  function CompleteRoutes(cands: seq<Route>, start: Coord, end: Coord): Option<seq<Chain>> {
    var startRoutes := StartRoutes(cands, start);
    var direct := Directs(startRoutes, end);
    if |direct| > 0 then Some(direct)
    else Search(Singletons(startRoutes), Singletons(EndRoutes(cands, end)), Singletons(cands), 0)
  }
}
