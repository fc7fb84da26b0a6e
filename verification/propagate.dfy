/** The light flood `propogate_light_map_unbounded`: a first-in first-out
    relaxation over a flat `u8` light map whose rows are `w` cells long.
    The same loop appears in src/game/lighting.rs:67-111,
    src/game/lighting/propogate_light_map_unbounded.rs:4-48 and
    src/game/functions/create_light_map.rs:16-59. */
module Propagation {
  import opened Ints

  /** The largest value of `s`, or 0 for an empty map. */
  function MaxOf(s: seq<u8>): (r: u8)
    ensures forall i :: 0 <= i < |s| ==> s[i] <= r
    ensures |s| == 0 ==> r == 0
    ensures |s| > 0 ==> r in s
  {
    if |s| == 0 then 0
    else
      var t := MaxOf(s[1..]);
      assert forall i :: 1 <= i < |s| ==> s[i] == s[1..][i - 1];
      if s[0] >= t then s[0] else t
  }

  /** Cell `p` has a whole row above and below it in a map of `n` cells,
      so `p - 1`, `p + 1`, `p - w` and `p + w` are all cells of the map. */
  predicate Inner(p: nat, w: nat, n: nat)
  {
    1 <= w <= p && p + w < n
  }

  /** `q` is the left, right, top or bottom neighbour of `p`. */
  predicate Neighbour(p: nat, q: nat, w: nat)
  {
    q + 1 == p || q == p + 1 || q + w == p || q == p + w
  }

  /** What cell `p` offers its neighbours: `brightness.saturating_sub(fade)`. */
  function Offer(light: seq<u8>, fade: seq<u8>, p: nat): (r: u8)
    requires p < |light| && p < |fade|
    ensures r <= light[p]
  {
    SatSub(light[p], fade[p])
  }

  /** Every neighbour of `p` holds at least what `p` offers: relaxing `p`
      again would change nothing. */
  predicate Settled(out: seq<u8>, fade: seq<u8>, w: nat, p: nat)
  {
    && |fade| == |out| && Inner(p, w, |out|)
    && out[p - 1] >= Offer(out, fade, p)
    && out[p + 1] >= Offer(out, fade, p)
    && out[p - w] >= Offer(out, fade, p)
    && out[p + w] >= Offer(out, fade, p)
  }

  /** How far the map is below `m`, summed over all cells. */
  function Deficit(s: seq<u8>, m: u8): nat
    requires forall i :: 0 <= i < |s| ==> s[i] <= m
  {
    if |s| == 0 then 0 else (m - s[0]) + Deficit(s[1..], m)
  }

  /** Raising one cell lowers the deficit. */
  lemma {:induction false} DeficitRaise(s: seq<u8>, m: u8, q: nat, v: u8)
    requires forall i :: 0 <= i < |s| ==> s[i] <= m
    requires q < |s| && s[q] < v <= m
    ensures Deficit(s[q := v], m) < Deficit(s, m)
  {
    if q == 0 {
      assert s[q := v][1..] == s[1..];
    } else {
      assert s[q := v][1..] == s[1..][q - 1 := v];
      DeficitRaise(s[1..], m, q - 1, v);
    }
  }

  /** One neighbour test of the loop body: if neighbour `q` is darker than
      the offer, it takes the offer and joins the back of the queue. */
  function Raise(out: seq<u8>, queue: seq<nat>, q: nat, offer: u8): (seq<u8>, seq<nat>)
    requires q < |out|
  {
    if out[q] < offer then (out[q := offer], queue + [q]) else (out, queue)
  }

  /** The loop invariant. `seen` holds every cell ever queued and `writer`
      the cell whose offer last raised each raised cell; `busy` is the cell
      being relaxed, which is exempt from being settled. */
  ghost predicate Inv(light: seq<u8>, fade: seq<u8>, w: nat, m: u8, out: seq<u8>, queue: seq<nat>,
                      seen: set<nat>, writer: map<nat, nat>, busy: int)
  {
    && |fade| == |light|
    && Bounded(light, w, m, out)
    && Tracked(out, w, queue, seen)
    && SettledBut(out, fade, w, queue, seen, busy)
    && Supported(light, fade, w, out, seen, writer)
  }

  /** The map only rose from `light`, stays at most `m`, and holds `m` on
      every cell without a row above and below. */
  ghost predicate Bounded(light: seq<u8>, w: nat, m: u8, out: seq<u8>)
  {
    && |out| == |light|
    && (forall i {:trigger light[i]} :: 0 <= i < |out| ==> light[i] <= out[i] <= m)
    && (forall i :: 0 <= i < |out| && !Inner(i, w, |out|) ==> out[i] == m)
  }

  /** Queued cells were seen, and seen cells have rows above and below. */
  ghost predicate Tracked(out: seq<u8>, w: nat, queue: seq<nat>, seen: set<nat>)
  {
    && (forall k :: 0 <= k < |queue| ==> queue[k] in seen)
    && (forall p :: p in seen ==> Inner(p, w, |out|))
  }

  /** A seen cell that is neither queued nor busy is settled. */
  ghost predicate SettledBut(out: seq<u8>, fade: seq<u8>, w: nat, queue: seq<nat>, seen: set<nat>, busy: int)
  {
    forall p :: p in seen && p != busy && p !in queue ==> Settled(out, fade, w, p)
  }

  /** A raised cell was seen, and a seen neighbour offers at least its value. */
  ghost predicate Supported(light: seq<u8>, fade: seq<u8>, w: nat, out: seq<u8>, seen: set<nat>, writer: map<nat, nat>)
  {
    |out| == |light| &&
    forall q {:trigger light[q]} :: 0 <= q < |out| && out[q] != light[q] ==>
      && q in seen && q in writer && writer[q] in seen && writer[q] < |out| && writer[q] < |fade|
      && Neighbour(writer[q], q, w) && out[q] <= Offer(out, fade, writer[q])
  }

  /** Popping the head of the queue makes it the busy cell. */
  lemma PopStep(light: seq<u8>, fade: seq<u8>, w: nat, m: u8, out: seq<u8>, queue: seq<nat>,
                seen: set<nat>, writer: map<nat, nat>)
    requires Inv(light, fade, w, m, out, queue, seen, writer, -1) && |queue| > 0
    ensures Inv(light, fade, w, m, out, queue[1..], seen, writer, queue[0])
    ensures queue[0] in seen
  {
  }

  /** One neighbour test keeps the invariant, leaves the busy cell alone,
      lifts the neighbour to at least the offer and either changes nothing
      or lowers the deficit. */
  lemma RaiseStep(light: seq<u8>, fade: seq<u8>, w: nat, m: u8, out: seq<u8>, queue: seq<nat>,
                  seen: set<nat>, writer: map<nat, nat>, p: nat, offer: u8, q: nat, out2: seq<u8>, queue2: seq<nat>)
      returns (seen2: set<nat>, writer2: map<nat, nat>)
    requires Inv(light, fade, w, m, out, queue, seen, writer, p)
    requires p in seen && Neighbour(p, q, w) && q < |out| && offer == Offer(out, fade, p)
    requires (out2, queue2) == Raise(out, queue, q, offer)
    ensures Inv(light, fade, w, m, out2, queue2, seen2, writer2, p)
    ensures seen <= seen2 && p in seen2 && |out2| == |out|
    ensures offer == Offer(out2, fade, p) && out2[q] >= offer
    ensures forall i :: 0 <= i < |out| ==> out[i] <= out2[i]
    ensures Progress(m, out, queue, out2, queue2)
  {
    if out[q] < offer {
      seen2, writer2 := seen + {q}, writer[q := p];
      InvBounded(light, fade, w, m, out, queue, seen, writer, p);
      DeficitRaise(out, m, q, offer);
      RaiseBounded(light, w, m, out, q, offer);
      RaiseSettled(out, fade, w, queue, seen, p, q, offer);
      RaiseSupported(light, fade, w, out, seen, writer, p, q, offer);
    } else {
      seen2, writer2 := seen, writer;
    }
  }

  lemma RaiseBounded(light: seq<u8>, w: nat, m: u8, out: seq<u8>, q: nat, offer: u8)
    requires Bounded(light, w, m, out) && q < |out| && out[q] < offer <= m
    ensures Bounded(light, w, m, out[q := offer]) && Inner(q, w, |out|)
  {
  }

  lemma RaiseSettled(out: seq<u8>, fade: seq<u8>, w: nat, queue: seq<nat>, seen: set<nat>, p: nat, q: nat, offer: u8)
    requires SettledBut(out, fade, w, queue, seen, p) && q < |out| && out[q] < offer
    ensures SettledBut(out[q := offer], fade, w, queue + [q], seen + {q}, p)
  {
    forall r | r in seen + {q} && r != p && r !in queue + [q]
      ensures Settled(out[q := offer], fade, w, r)
    {
      assert r != q;
      assert Settled(out, fade, w, r);
    }
  }

  lemma RaiseSupported(light: seq<u8>, fade: seq<u8>, w: nat, out: seq<u8>, seen: set<nat>, writer: map<nat, nat>,
                       p: nat, q: nat, offer: u8)
    requires Supported(light, fade, w, out, seen, writer)
    requires p in seen && p < |out| && p < |fade| && q < |out| && Neighbour(p, q, w) && q != p
    requires offer == Offer(out, fade, p) && out[q] < offer
    ensures Supported(light, fade, w, out[q := offer], seen + {q}, writer[q := p])
  {
    var out2 := out[q := offer];
    forall x | 0 <= x < |out2| && out2[x] != light[x]
      ensures && x in seen + {q} && x in writer[q := p] && writer[q := p][x] in seen + {q} && writer[q := p][x] < |out2|
              && writer[q := p][x] < |fade| && Neighbour(writer[q := p][x], x, w) && out2[x] <= Offer(out2, fade, writer[q := p][x])
    {
      if x != q {
        assert writer[q := p][x] == writer[x];
      }
    }
  }

  /** The queue shrank with the map unchanged, or the map came closer to `m`. */
  ghost predicate Progress(m: u8, out: seq<u8>, queue: seq<nat>, out2: seq<u8>, queue2: seq<nat>)
  {
    || (out2 == out && queue2 == queue)
    || ((forall i :: 0 <= i < |out| ==> out[i] <= m) && (forall i :: 0 <= i < |out2| ==> out2[i] <= m)
        && Deficit(out2, m) < Deficit(out, m))
  }

  lemma ProgressChain(m: u8, o1: seq<u8>, q1: seq<nat>, o2: seq<u8>, q2: seq<nat>, o3: seq<u8>, q3: seq<nat>)
    requires forall i :: 0 <= i < |o2| ==> o2[i] <= m
    requires Progress(m, o1, q1, o2, q2) && Progress(m, o2, q2, o3, q3)
    ensures Progress(m, o1, q1, o3, q3)
  {
  }

  /** Once the busy cell is settled, it no longer needs an exemption. */
  lemma Unbusy(light: seq<u8>, fade: seq<u8>, w: nat, m: u8, out: seq<u8>, queue: seq<nat>,
               seen: set<nat>, writer: map<nat, nat>, p: nat)
    requires Inv(light, fade, w, m, out, queue, seen, writer, p) && Settled(out, fade, w, p)
    ensures Inv(light, fade, w, m, out, queue, seen, writer, -1)
  {
  }

  /** Two neighbour tests of cell `p` in a row: both neighbours end up at
      least as bright as `p` offers, and the invariant and progress hold. */
  method RaiseTwo(light: seq<u8>, fade: seq<u8>, w: nat, m: u8, out: seq<u8>, queue: seq<nat>,
                  ghost seen: set<nat>, ghost writer: map<nat, nat>, p: nat, q1: nat, q2: nat)
      returns (out2: seq<u8>, queue2: seq<nat>, ghost seen2: set<nat>, ghost writer2: map<nat, nat>)
    requires Inv(light, fade, w, m, out, queue, seen, writer, p) && p in seen
    requires Neighbour(p, q1, w) && Neighbour(p, q2, w) && q1 < |out| && q2 < |out|
    ensures Inv(light, fade, w, m, out2, queue2, seen2, writer2, p)
    ensures seen <= seen2 && p in seen2 && |out2| == |out|
    ensures Offer(out2, fade, p) == Offer(out, fade, p)
    ensures out2[q1] >= Offer(out, fade, p) && out2[q2] >= Offer(out, fade, p)
    ensures forall i :: 0 <= i < |out| ==> out[i] <= out2[i]
    ensures Progress(m, out, queue, out2, queue2)
  {
    var offer := Offer(out, fade, p);
    var r := Raise(out, queue, q1, offer);
    var seen1, writer1 := RaiseStep(light, fade, w, m, out, queue, seen, writer, p, offer, q1, r.0, r.1);
    var out1, queue1 := r.0, r.1;
    r := Raise(out1, queue1, q2, offer);
    seen2, writer2 := RaiseStep(light, fade, w, m, out1, queue1, seen1, writer1, p, offer, q2, r.0, r.1);
    out2, queue2 := r.0, r.1;
    InvBounded(light, fade, w, m, out1, queue1, seen1, writer1, p);
    ProgressChain(m, out, queue, out1, queue1, out2, queue2);
  }

  /** Under the invariant no cell exceeds `m`. */
  lemma InvBounded(light: seq<u8>, fade: seq<u8>, w: nat, m: u8, out: seq<u8>, queue: seq<nat>,
                   seen: set<nat>, writer: map<nat, nat>, busy: int)
    requires Inv(light, fade, w, m, out, queue, seen, writer, busy)
    ensures forall i :: 0 <= i < |out| ==> out[i] <= m
  {
    forall i | 0 <= i < |out| ensures out[i] <= m {
      assert light[i] <= out[i] <= m;
    }
  }

  /** After both pairs of tests, all four neighbours hold at least the offer. */
  lemma SettledAfter(out: seq<u8>, out2: seq<u8>, out4: seq<u8>, fade: seq<u8>, w: nat, p: nat)
    requires |fade| == |out| == |out2| == |out4| && Inner(p, w, |out|)
    requires Offer(out2, fade, p) == Offer(out, fade, p) && Offer(out4, fade, p) == Offer(out2, fade, p)
    requires out2[p - 1] >= Offer(out, fade, p) && out2[p + 1] >= Offer(out, fade, p)
    requires out4[p - 1] >= out2[p - 1] && out4[p + 1] >= out2[p + 1]
    requires out4[p - w] >= Offer(out2, fade, p) && out4[p + w] >= Offer(out2, fade, p)
    ensures Settled(out4, fade, w, p)
  {
  }

  /** The loop body after the pop: the four neighbour tests of cell `p`,
      which leave `p` settled. */
  method RelaxCell(light: seq<u8>, fade: seq<u8>, w: nat, m: u8, out: seq<u8>, queue: seq<nat>,
                   ghost seen: set<nat>, ghost writer: map<nat, nat>, p: nat)
      returns (out4: seq<u8>, queue4: seq<nat>, ghost seen4: set<nat>, ghost writer4: map<nat, nat>)
    requires Inv(light, fade, w, m, out, queue, seen, writer, p) && p in seen
    ensures Inv(light, fade, w, m, out4, queue4, seen4, writer4, -1)
    ensures seen <= seen4
    ensures Progress(m, out, queue, out4, queue4)
  {
    assert Inner(p, w, |out|);
    var out2, queue2, seen2, writer2 := RaiseTwo(light, fade, w, m, out, queue, seen, writer, p, p - 1, p + 1);
    out4, queue4, seen4, writer4 := RaiseTwo(light, fade, w, m, out2, queue2, seen2, writer2, p, p - w, p + w);
    InvBounded(light, fade, w, m, out2, queue2, seen2, writer2, p);
    ProgressChain(m, out, queue, out2, queue2, out4, queue4);
    SettledAfter(out, out2, out4, fade, w, p);
    Unbusy(light, fade, w, m, out4, queue4, seen4, writer4, p);
  }

  /** Relaxes every cell of `sources`, then every cell a relaxation raised,
      first in first out, until the queue runs dry.

      The sources must each have a row above and below them, and the first
      and last row must already hold the brightest value of the map: then
      every raised cell is darker than that value, so it too has rows above
      and below it, and no index the loop computes leaves the map. */
  method Propagate(light: seq<u8>, fade: seq<u8>, w: nat, sources: seq<nat>) returns (out: seq<u8>)
    requires |fade| == |light|
    requires forall k :: 0 <= k < |sources| ==> Inner(sources[k], w, |light|)
    requires forall i :: 0 <= i < |light| && !Inner(i, w, |light|) ==> light[i] == MaxOf(light)
    ensures |out| == |light|
    ensures forall i :: 0 <= i < |light| ==> light[i] <= out[i] <= MaxOf(light)
    ensures forall k :: 0 <= k < |sources| ==> Settled(out, fade, w, sources[k])
    ensures forall q :: 0 <= q < |light| && out[q] != light[q] ==> Settled(out, fade, w, q)
    ensures forall q :: 0 <= q < |light| && out[q] != light[q] ==>
      exists p :: 0 <= p < |light| && Neighbour(p, q, w) && Settled(out, fade, w, p) && out[q] == Offer(out, fade, p)
  {
    var m := MaxOf(light);
    out := light;
    var queue := sources;
    ghost var seen := set k | 0 <= k < |sources| :: sources[k];
    ghost var writer: map<nat, nat> := map[];
    Start(light, fade, w, sources, seen);
    while queue != []
      invariant Inv(light, fade, w, m, out, queue, seen, writer, -1)
      invariant forall k :: 0 <= k < |sources| ==> sources[k] in seen
      invariant forall i :: 0 <= i < |out| ==> out[i] <= m
      decreases Deficit(out, m), |queue|
    {
      var p := queue[0];
      PopStep(light, fade, w, m, out, queue, seen, writer);
      out, queue, seen, writer := RelaxCell(light, fade, w, m, out, queue[1..], seen, writer, p);
      InvBounded(light, fade, w, m, out, queue, seen, writer, -1);
    }
    Finish(light, fade, w, m, out, seen, writer, sources);
  }

  /** Before the loop: only the sources are seen, and all of them are queued. */
  lemma Start(light: seq<u8>, fade: seq<u8>, w: nat, sources: seq<nat>, seen: set<nat>)
    requires |fade| == |light|
    requires forall k :: 0 <= k < |sources| ==> Inner(sources[k], w, |light|)
    requires forall i :: 0 <= i < |light| && !Inner(i, w, |light|) ==> light[i] == MaxOf(light)
    requires seen == set k | 0 <= k < |sources| :: sources[k]
    ensures Inv(light, fade, w, MaxOf(light), light, sources, seen, map[], -1)
    ensures forall k :: 0 <= k < |sources| ==> sources[k] in seen
  {
  }

  /** After the loop: every seen cell is settled, so each raised cell holds
      exactly the offer of the neighbour that last raised it. */
  lemma Finish(light: seq<u8>, fade: seq<u8>, w: nat, m: u8, out: seq<u8>, seen: set<nat>, writer: map<nat, nat>,
               sources: seq<nat>)
    requires Inv(light, fade, w, m, out, [], seen, writer, -1)
    requires forall k :: 0 <= k < |sources| ==> sources[k] in seen
    ensures forall k :: 0 <= k < |sources| ==> Settled(out, fade, w, sources[k])
    ensures forall q :: 0 <= q < |light| && out[q] != light[q] ==> Settled(out, fade, w, q)
    ensures forall q :: 0 <= q < |light| && out[q] != light[q] ==>
      exists p :: 0 <= p < |light| && Neighbour(p, q, w) && Settled(out, fade, w, p) && out[q] == Offer(out, fade, p)
  {
    forall q | 0 <= q < |light| && out[q] != light[q]
      ensures exists p :: 0 <= p < |light| && Neighbour(p, q, w) && Settled(out, fade, w, p) && out[q] == Offer(out, fade, p)
    {
      var p := writer[q];
      assert Settled(out, fade, w, p);
    }
  }
}
