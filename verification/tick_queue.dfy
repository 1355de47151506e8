/**
 * The block-tick queue: at most one due time per position. Scheduling
 * overwrites; each game tick drains, over a snapshot taken first, every entry
 * whose snapshot due time has been reached.
 */
module TickQueue {
  import opened Seqs
  import opened Addressing

  /** Position -> world time at which its block is due to be ticked. */
  type Queue = map<Coord, int>

  /** `ScheduleBlockTick(block, tickRate)`: the position becomes due `tickRate` ticks after `now`. */
  function Schedule(q: Queue, now: int, c: Coord, tickRate: int): (q': Queue)
    ensures c in q' && q'[c] == now + tickRate
    ensures q'.Keys == q.Keys + {c}
    ensures forall k :: k in q && k != c ==> q'[k] == q[k]
  {
    q[c := now + tickRate]
  }

  /** Scheduling the same position twice leaves only the later schedule: the last writer wins. */
  lemma ScheduleLastWins(q: Queue, now: int, c: Coord, first: int, second: int)
    ensures Schedule(Schedule(q, now, c, first), now, c, second) == Schedule(q, now, c, second)
  {
  }

  /** A `ScheduleBlockTick` call that a block's tick callback makes. */
  datatype Request = Request(at: Coord, tickRate: int)

  /** The positions a list of requests schedules. */
  function RequestedIn(rs: seq<Request>): set<Coord>
  {
    set r | r in rs :: r.at
  }

  /** The requests made in order, all against the same world time. */
  function ScheduleAll(q: Queue, now: int, rs: seq<Request>): (q': Queue)
    ensures q'.Keys == q.Keys + RequestedIn(rs)
    ensures forall k :: k in q && k !in RequestedIn(rs) ==> q'[k] == q[k]
    decreases |rs|
  {
    if |rs| == 0 then q
    else
      assert RequestedIn(rs) == {rs[0].at} + RequestedIn(rs[1..]) by {
        assert rs == [rs[0]] + rs[1..];
      }
      ScheduleAll(Schedule(q, now, rs[0].at, rs[0].tickRate), now, rs[1..])
  }

  /**
   * The tick callback of the block standing at a position, reduced to the
   * schedule requests it makes. The block lookup and every other effect of
   * the callback belong to the block behaviours.
   */
  type TickEffect = Coord -> seq<Request>

  /** The positions of `order` whose snapshot due time has been reached, in order. */
  function DueKeys(order: seq<Coord>, snap: Queue, now: int): (ks: seq<Coord>)
    requires forall i :: 0 <= i < |order| ==> order[i] in snap
    ensures forall k :: k in ks <==> k in order && snap[k] <= now
    ensures Distinct(order) ==> Distinct(ks)
  {
    if |order| == 0 then []
    else
      var rest := DueKeys(order[1..], snap, now);
      assert forall k :: k in order <==> k == order[0] || k in order[1..];
      if snap[order[0]] <= now then [order[0]] + rest else rest
  }

  /** The positions that the callbacks of the due entries of `order` schedule. */
  function RequestedBy(order: seq<Coord>, snap: Queue, now: int, effect: TickEffect): set<Coord>
    requires forall i :: 0 <= i < |order| ==> order[i] in snap
  {
    if |order| == 0 then {}
    else
      var rest := RequestedBy(order[1..], snap, now, effect);
      if snap[order[0]] <= now then RequestedIn(effect(order[0])) + rest else rest
  }

  /** What a drain leaves behind and which positions it ticked, in order. */
  datatype Drained = Drained(queue: Queue, ticked: seq<Coord>)

  /**
   * The drain loop over the snapshot `snap` visited in `order`: an entry is due
   * when its SNAPSHOT time has been reached; its block's callback runs first,
   * then the position is removed from the LIVE queue, whatever it holds now.
   */
  function DrainFrom(cur: Queue, now: int, order: seq<Coord>, snap: Queue, effect: TickEffect): (d: Drained)
    requires forall i :: 0 <= i < |order| ==> order[i] in snap
    ensures d.ticked == DueKeys(order, snap, now)
    decreases |order|
  {
    if |order| == 0 then Drained(cur, [])
    else
      var k := order[0];
      if snap[k] <= now then
        var after := ScheduleAll(cur, now, effect(k)) - {k};
        var rest := DrainFrom(after, now, order[1..], snap, effect);
        Drained(rest.queue, [k] + rest.ticked)
      else DrainFrom(cur, now, order[1..], snap, effect)
  }

  /** A position the drain neither ticks nor has scheduled keeps its entry, or its absence. */
  lemma {:induction false} DrainLeavesUntouched(cur: Queue, now: int, order: seq<Coord>, snap: Queue,
                                                effect: TickEffect, k: Coord)
    requires forall i :: 0 <= i < |order| ==> order[i] in snap
    requires k !in DueKeys(order, snap, now)
    requires k !in RequestedBy(order, snap, now, effect)
    ensures var q' := DrainFrom(cur, now, order, snap, effect).queue;
            (k in q' <==> k in cur) && (k in cur ==> q'[k] == cur[k])
    decreases |order|
  {
    if |order| > 0 {
      var k0 := order[0];
      if snap[k0] <= now {
        var after := ScheduleAll(cur, now, effect(k0)) - {k0};
        DrainLeavesUntouched(after, now, order[1..], snap, effect, k);
      } else {
        DrainLeavesUntouched(cur, now, order[1..], snap, effect, k);
      }
    }
  }

  /**
   * A due position is gone after the drain unless a callback that runs AFTER
   * its own schedules it again: its own callback's request, and any earlier
   * one, is wiped by the removal that follows the callback.
   */
  lemma {:induction false} DrainRemovesDue(cur: Queue, now: int, order: seq<Coord>, snap: Queue,
                                           effect: TickEffect, i: nat)
    requires forall j :: 0 <= j < |order| ==> order[j] in snap
    requires Distinct(order)
    requires i < |order| && snap[order[i]] <= now
    requires order[i] !in RequestedBy(order[i + 1..], snap, now, effect)
    ensures order[i] !in DrainFrom(cur, now, order, snap, effect).queue
    decreases |order|
  {
    var k0 := order[0];
    var after := ScheduleAll(cur, now, effect(k0)) - {k0};
    var next := if snap[k0] <= now then after else cur;
    assert DrainFrom(cur, now, order, snap, effect).queue == DrainFrom(next, now, order[1..], snap, effect).queue;
    if i == 0 {
      assert order[1..] == order[i + 1..];
      assert k0 !in order[1..] by {
        forall j | 1 <= j < |order| ensures order[j] != k0 { }
      }
      DrainLeavesUntouched(after, now, order[1..], snap, effect, k0);
    } else {
      assert order[1..][i - 1 + 1..] == order[i + 1..];
      assert Distinct(order[1..]);
      DrainRemovesDue(next, now, order[1..], snap, effect, i - 1);
    }
  }

  /** A requested position was requested by the callback of some due entry. */
  lemma {:induction false} RequestedByWitness(order: seq<Coord>, snap: Queue, now: int, effect: TickEffect, k: Coord)
    returns (j: nat)
    requires forall i :: 0 <= i < |order| ==> order[i] in snap
    requires k in RequestedBy(order, snap, now, effect)
    ensures j < |order| && snap[order[j]] <= now && k in RequestedIn(effect(order[j]))
    decreases |order|
  {
    if snap[order[0]] <= now && k in RequestedIn(effect(order[0])) {
      j := 0;
    } else {
      var j' := RequestedByWitness(order[1..], snap, now, effect, k);
      j := j' + 1;
    }
  }

  /** The callbacks of a suffix of the visiting order request no more than those of the whole order. */
  lemma {:induction false} RequestedBySuffix(order: seq<Coord>, snap: Queue, now: int, effect: TickEffect, n: nat)
    requires forall i :: 0 <= i < |order| ==> order[i] in snap
    requires n <= |order|
    ensures RequestedBy(order[n..], snap, now, effect) <= RequestedBy(order, snap, now, effect)
    decreases n
  {
    if n > 0 {
      RequestedBySuffix(order[1..], snap, now, effect, n - 1);
      assert order[1..][n - 1..] == order[n..];
    }
  }

  /** `order` lists every key of `q` exactly once: one enumeration order of the concurrent map. */
  predicate Enumerates(order: seq<Coord>, q: Queue)
  {
    && Distinct(order)
    && (forall k :: k in q ==> k in order)
    && (forall i :: 0 <= i < |order| ==> order[i] in q)
  }

  /**
   * The drain step of `GameTick` at world time `now`, visiting the snapshot of
   * `q` in the enumeration order `order`.
   */
  function Drain(q: Queue, now: int, order: seq<Coord>, effect: TickEffect): (d: Drained)
    requires Enumerates(order, q)
    ensures forall k :: k in d.ticked <==> k in q && q[k] <= now
    ensures Distinct(d.ticked)
    ensures forall k :: k in q && q[k] > now && k !in RequestedBy(order, q, now, effect) ==>
      k in d.queue && d.queue[k] == q[k]
    ensures forall k :: k !in q && k !in RequestedBy(order, q, now, effect) ==> k !in d.queue
    ensures forall k :: k in q && q[k] <= now && k !in RequestedBy(order, q, now, effect) ==> k !in d.queue
  {
    var d := DrainFrom(q, now, order, q, effect);
    forall k | k in q && q[k] <= now && k !in RequestedBy(order, q, now, effect)
      ensures k !in d.queue
    {
      var i :| 0 <= i < |order| && order[i] == k;
      RequestedBySuffix(order, q, now, effect, i + 1);
      DrainRemovesDue(q, now, order, q, effect, i);
    }
    forall k | k !in d.ticked && k !in RequestedBy(order, q, now, effect)
      ensures (k in d.queue <==> k in q) && (k in q ==> d.queue[k] == q[k])
    {
      DrainLeavesUntouched(q, now, order, q, effect, k);
    }
    d
  }

  /** With callbacks that schedule nothing, the drain keeps exactly the entries not yet due. */
  lemma {:induction false} QuietDrain(q: Queue, now: int, order: seq<Coord>, effect: TickEffect)
    requires Enumerates(order, q)
    requires forall k :: effect(k) == []
    ensures Drain(q, now, order, effect).queue == map k | k in q && q[k] > now :: q[k]
  {
    var d := Drain(q, now, order, effect);
    NothingRequested(order, q, now, effect);
    forall i | 0 <= i < |order| && q[order[i]] <= now ensures order[i] !in d.queue {
      NothingRequested(order[i + 1..], q, now, effect);
      DrainRemovesDue(q, now, order, q, effect, i);
    }
  }

  /** Callbacks that schedule nothing request no position. */
  lemma {:induction false} NothingRequested(order: seq<Coord>, snap: Queue, now: int, effect: TickEffect)
    requires forall i :: 0 <= i < |order| ==> order[i] in snap
    requires forall k :: effect(k) == []
    ensures RequestedBy(order, snap, now, effect) == {}
    decreases |order|
  {
    if |order| > 0 {
      NothingRequested(order[1..], snap, now, effect);
      assert RequestedIn(effect(order[0])) == {};
    }
  }

  /**
   * A due position that re-schedules itself from its own tick callback is
   * still removed, as long as no other callback schedules it.
   */
  lemma SelfRescheduleDropped(q: Queue, now: int, order: seq<Coord>, effect: TickEffect, k: Coord)
    requires Enumerates(order, q)
    requires k in q && q[k] <= now
    requires forall j :: 0 <= j < |order| && order[j] != k ==> k !in RequestedIn(effect(order[j]))
    ensures k !in Drain(q, now, order, effect).queue
  {
    var i :| 0 <= i < |order| && order[i] == k;
    if k in RequestedBy(order[i + 1..], q, now, effect) {
      var j := RequestedByWitness(order[i + 1..], q, now, effect, k);
      assert false;
    }
    DrainRemovesDue(q, now, order, q, effect, i);
  }
}
