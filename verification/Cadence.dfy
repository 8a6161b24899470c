/** When the sweep keeps the cadence its comment promises, once every 1000 packets (src/main.cpp:99). */
module Cadence {
  import opened Common
  import opened FlowTracker
  import opened Scoring
  import opened Sniffer
  import opened DataPlane

  /** The frames the callback is called with, whoever sent them. */
  function DeliveredFrames(arrivals: seq<Arrival>): seq<Bytes>
  {
    if arrivals == [] then [] else
      var frame := arrivals[|arrivals| - 1].frame;
      DeliveredFrames(arrivals[..|arrivals| - 1]) + if Sniff(frame).Some? then [frame] else []
  }

  /** Every one of the frames reaches the ready size by itself. */
  ghost predicate AllLarge(frames: seq<Bytes>)
  {
    forall i :: 0 <= i < |frames| ==> |frames[i]| >= 512
  }

  // ---- Emissions against deliveries ------------------------------------------------------------

  /** No more payloads than frames; as many as frames exactly when each frame is large; and a run that
      starts with `n` large frames has emitted at least `n` payloads. */
  ghost predicate Counted(p: Plane, frames: seq<Bytes>)
  {
    && p.emissions <= |frames|
    && (p.emissions == |frames| ==> AllLarge(frames))
    && (AllLarge(frames) ==> p.flows == map[])
    && forall n :: 0 <= n <= |frames| && AllLarge(frames[..n]) ==> n <= p.emissions
  }

  /** Any packet adds at most one payload, and a large one on an empty map adds exactly one. */
  lemma DeliverCounts(p: Plane, cfg: Config, key: FlowKey, d: Delivered, now: int, sweepNow: int)
    requires IsExp(cfg.engine.exp)
    ensures var p' := Deliver(p, cfg, key, d, now, sweepNow);
            && p.emissions <= p'.emissions <= p.emissions + 1
            && (p.flows == map[] ==>
                  if |d.payload| >= 512 then p'.emissions == p.emissions + 1 && p'.flows == map[]
                  else p'.emissions == p.emissions)
  {
    if p.flows == map[] {
      assert [] + d.payload == d.payload;
      assert AfterPacket(p.flows, key, d.payload, now).1 == if |d.payload| >= 512 then d.payload else [];
    }
  }

  lemma CountedSnoc(p: Plane, p': Plane, frames: seq<Bytes>, frame: Bytes)
    requires Counted(p, frames)
    requires p.emissions <= p'.emissions <= p.emissions + 1
    requires p.flows == map[] ==>
               if |frame| >= 512 then p'.emissions == p.emissions + 1 && p'.flows == map[]
               else p'.emissions == p.emissions
    ensures Counted(p', frames + [frame])
  {
    var frames' := frames + [frame];
    assert frames'[..|frames|] == frames && frames[..|frames|] == frames && frames'[|frames|] == frame;
    assert AllLarge(frames') <==> AllLarge(frames) && |frame| >= 512 by {
      assert forall i :: 0 <= i < |frames| ==> frames'[i] == frames[i];
    }
    assert AllLarge(frames) ==> p.emissions == |frames|;
    forall n | 0 <= n <= |frames'| && AllLarge(frames'[..n]) ensures n <= p'.emissions {
      if n <= |frames| {
        assert frames'[..n] == frames[..n];
      } else {
        assert frames'[..n] == frames';
      }
    }
  }

  lemma {:induction false} RunIsCounted(cfg: Config, arrivals: seq<Arrival>)
    requires IsExp(cfg.engine.exp)
    ensures Counted(AfterFrames(cfg, arrivals), DeliveredFrames(arrivals))
  {
    if arrivals != [] {
      var before, a := arrivals[..|arrivals| - 1], arrivals[|arrivals| - 1];
      RunIsCounted(cfg, before);
      if Sniff(a.frame).Some? {
        var d := Sniff(a.frame).value;
        var key := KeyFor(d.srcIp, d.dstPort);
        DeliveredIsCompleteIpv4(a.frame);
        DeliverCounts(AfterFrames(cfg, before), cfg, key, d, a.now, a.sweepNow);
        CountedSnoc(AfterFrames(cfg, before), AfterFrames(cfg, arrivals), DeliveredFrames(before), a.frame);
      } else {
        assert DeliveredFrames(arrivals) == DeliveredFrames(before);
      }
    }
  }

  // ---- The promised cadence --------------------------------------------------------------------

  /** After every prefix of the run the sweep has run once for every 1000 frames delivered so far. */
  ghost predicate SweepsPerPacket(cfg: Config, arrivals: seq<Arrival>)
    requires IsExp(cfg.engine.exp)
  {
    forall k :: 0 <= k <= |arrivals| ==> OnPacketSchedule(cfg, arrivals[..k])
  }

  ghost predicate OnPacketSchedule(cfg: Config, arrivals: seq<Arrival>)
    requires IsExp(cfg.engine.exp)
  {
    CountSweeps(AfterFrames(cfg, arrivals).history) == |DeliveredFrames(arrivals)| / 1000
  }

  /** The frames up to the end of the last complete thousand. */
  function WholeThousands(frames: seq<Bytes>): (first: seq<Bytes>)
    ensures first <= frames && |first| % 1000 == 0 && |frames| < |first| + 1000
  {
    frames[..|frames| / 1000 * 1000]
  }

  /** The frames delivered in a prefix of a run are the first of those delivered in the run. */
  lemma {:induction false} DeliveredPrefix(arrivals: seq<Arrival>, k: nat)
    requires k <= |arrivals|
    ensures DeliveredFrames(arrivals[..k]) <= DeliveredFrames(arrivals)
  {
    if k == |arrivals| {
      assert arrivals[..k] == arrivals;
    } else {
      DeliveredPrefix(arrivals[..|arrivals| - 1], k);
      assert arrivals[..|arrivals| - 1][..k] == arrivals[..k];
    }
  }

  /** Some prefix of the run delivers exactly `n` frames. */
  lemma {:induction false} PrefixThatDelivers(arrivals: seq<Arrival>, n: nat)
    requires n <= |DeliveredFrames(arrivals)|
    ensures exists k :: 0 <= k <= |arrivals| && |DeliveredFrames(arrivals[..k])| == n
  {
    if n == |DeliveredFrames(arrivals)| {
      assert arrivals[..|arrivals|] == arrivals;
    } else {
      var before := arrivals[..|arrivals| - 1];
      PrefixThatDelivers(before, n);
      var k :| 0 <= k <= |before| && |DeliveredFrames(before[..k])| == n;
      assert before[..k] == arrivals[..k];
    }
  }

  lemma SameThousand(m: nat, e: nat, n: nat)
    requires n % 1000 == 0 && n <= e <= m < n + 1000
    ensures e / 1000 == m / 1000
  {
  }

  /** Large frames up to a multiple of 1000 keep the sweeps on schedule up to the next one. */
  lemma LargeKeepsSchedule(p: Plane, frames: seq<Bytes>, all: seq<Bytes>)
    requires Counted(p, frames) && OnSchedule(p) && frames <= all && AllLarge(WholeThousands(all))
    ensures CountSweeps(p.history) == |frames| / 1000
  {
    var whole := WholeThousands(all);
    if |frames| < |whole| {
      assert frames[..|frames|] == frames && frames == whole[..|frames|];
      assert AllLarge(frames[..|frames|]);
    } else {
      assert frames[..|whole|] == whole;
      SameThousand(|frames|, p.emissions, |whole|);
    }
  }

  /** On schedule at a multiple of 1000: every frame so far was large. */
  lemma ScheduleNeedsLarge(p: Plane, frames: seq<Bytes>)
    requires Counted(p, frames) && OnSchedule(p)
    requires |frames| % 1000 == 0 && CountSweeps(p.history) == |frames| / 1000
    ensures AllLarge(frames)
  {
    assert p.emissions == |frames|;
  }

  lemma PrefixOnSchedule(cfg: Config, arrivals: seq<Arrival>, k: nat)
    requires IsExp(cfg.engine.exp) && k <= |arrivals|
    requires AllLarge(WholeThousands(DeliveredFrames(arrivals)))
    ensures OnPacketSchedule(cfg, arrivals[..k])
  {
    DeliveredPrefix(arrivals, k);
    RunIsCounted(cfg, arrivals[..k]);
    SweepsFollowEmissions(cfg, arrivals[..k]);
    LargeKeepsSchedule(AfterFrames(cfg, arrivals[..k]), DeliveredFrames(arrivals[..k]), DeliveredFrames(arrivals));
  }

  /** A prefix that ends with a complete thousand, on schedule, has only large frames. */
  lemma ThousandsAreLarge(cfg: Config, prefix: seq<Arrival>)
    requires IsExp(cfg.engine.exp)
    requires |DeliveredFrames(prefix)| % 1000 == 0 && OnPacketSchedule(cfg, prefix)
    ensures AllLarge(DeliveredFrames(prefix))
  {
    RunIsCounted(cfg, prefix);
    SweepsFollowEmissions(cfg, prefix);
    ScheduleNeedsLarge(AfterFrames(cfg, prefix), DeliveredFrames(prefix));
  }

  /** Some prefix of the run delivers exactly its whole thousands. */
  lemma PrefixOfWholeThousands(arrivals: seq<Arrival>)
    ensures exists k :: 0 <= k <= |arrivals| && DeliveredFrames(arrivals[..k]) ==
                                                WholeThousands(DeliveredFrames(arrivals))
  {
    var whole := WholeThousands(DeliveredFrames(arrivals));
    PrefixThatDelivers(arrivals, |whole|);
    var k :| 0 <= k <= |arrivals| && |DeliveredFrames(arrivals[..k])| == |whole|;
    DeliveredPrefix(arrivals, k);
    assert DeliveredFrames(arrivals[..k]) == whole;
  }

  /** The sweep runs once every 1000 packets, as the comment says, exactly when each frame of every complete
      thousand delivered brings 512 bytes by itself. */
  lemma PacketCadenceExactly(cfg: Config, arrivals: seq<Arrival>)
    requires IsExp(cfg.engine.exp)
    ensures SweepsPerPacket(cfg, arrivals) <==> AllLarge(WholeThousands(DeliveredFrames(arrivals)))
  {
    if AllLarge(WholeThousands(DeliveredFrames(arrivals))) {
      forall k | 0 <= k <= |arrivals| ensures OnPacketSchedule(cfg, arrivals[..k]) {
        PrefixOnSchedule(cfg, arrivals, k);
      }
    }
    if SweepsPerPacket(cfg, arrivals) {
      PrefixOfWholeThousands(arrivals);
      var k :| 0 <= k <= |arrivals| &&
               DeliveredFrames(arrivals[..k]) == WholeThousands(DeliveredFrames(arrivals));
      ThousandsAreLarge(cfg, arrivals[..k]);
    }
  }
}
