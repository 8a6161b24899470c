/** The data plane: the capture callback of src/main.cpp, from raw frames to written notifications. */
module DataPlane {
  import opened Common
  import opened FlowTracker
  import opened FlowLedger
  import opened Ipv4Text
  import opened Encoding
  import opened Scoring
  import opened Sniffer

  const TCP: Byte := 6

  /** cleanup_stale(60), in the nanoseconds of the steady clock */
  const TIMEOUT := 60_000_000_000

  const SWEEP_EVERY: nat := 1000

  datatype Config = Config(engine: Engine, threshold: real)

  /** A captured frame with the two steady-clock readings its processing may take. */
  datatype Arrival = Arrival(frame: Bytes, now: int, sweepNow: int)

  /** A notifications/threat_detected message. */
  datatype Notification = Notification(srcIp: string, dstPort: int, confidence: real)

  /** `history` records the calls made on the tracker. */
  datatype Plane = Plane(flows: Flows, emissions: nat, written: seq<Notification>, history: seq<Event>)

  const IDLE := Plane(map[], 0, [], [])

  function KeyOf(src: Addr, dstPort: Port): FlowKey
  {
    FlowKey(src, [0, 0, 0, 0], 0, dstPort, TCP)
  }

  /** inet_pton of the text; the zero-initialised address stays when it is refused. */
  function KeyFor(srcIp: string, dstPort: int): FlowKey
  {
    var src := match Parse(srcIp) case Some(a) => a case None => [0, 0, 0, 0];
    KeyOf(src, dstPort % 65536)
  }

  /** The packet enters the tracker. */
  function Track(p: Plane, key: FlowKey, pkt: Bytes, now: int): (Plane, Bytes)
  {
    var (flows, payload) := AfterPacket(p.flows, key, pkt, now);
    (p.(flows := flows, history := p.history + [Packet(key, pkt, now)]), payload)
  }

  /** A ready payload is scored, and reported when the score is above the threshold. */
  ghost function Report(p: Plane, cfg: Config, srcIp: string, dstPort: int, payload: Bytes): Plane
    requires IsExp(cfg.engine.exp)
  {
    var score := InferScore(cfg.engine, payload);
    p.(emissions := p.emissions + 1,
       written := p.written + if score > cfg.threshold then [Notification(srcIp, dstPort, score)] else [])
  }

  /** After every 1000th payload the stale flows go. */
  function Tidy(p: Plane, sweepNow: int): Plane
  {
    if p.emissions % SWEEP_EVERY == 0 then
      p.(flows := AfterSweep(p.flows, sweepNow, TIMEOUT), history := p.history + [Sweep(sweepNow, TIMEOUT)])
    else p
  }

  /** The callback: it returns before the counter when no payload is ready. */
  ghost function Deliver(p: Plane, cfg: Config, key: FlowKey, d: Delivered, now: int, sweepNow: int): Plane
    requires IsExp(cfg.engine.exp)
  {
    var (q, payload) := Track(p, key, d.payload, now);
    if payload == [] then q else Tidy(Report(q, cfg, d.srcIp, d.dstPort, payload), sweepNow)
  }

  ghost function Receive(p: Plane, cfg: Config, a: Arrival): Plane
    requires IsExp(cfg.engine.exp)
  {
    match Sniff(a.frame)
    case None => p
    case Some(d) => Deliver(p, cfg, KeyFor(d.srcIp, d.dstPort), d, a.now, a.sweepNow)
  }

  ghost function AfterFrames(cfg: Config, arrivals: seq<Arrival>): Plane
    requires IsExp(cfg.engine.exp)
  {
    if arrivals == [] then IDLE
    else Receive(AfterFrames(cfg, arrivals[..|arrivals| - 1]), cfg, arrivals[|arrivals| - 1])
  }

  class Probe {
    const cfg: Config
    const tracker: Tracker
    var pktCount: nat
    var written: seq<Notification>
    ghost var history: seq<Event>

    ghost function State(): Plane
      reads this, tracker
    {
      Plane(tracker.activeFlows, pktCount, written, history)
    }

    constructor (cfg: Config)
      ensures this.cfg == cfg && State() == IDLE && fresh(tracker)
    {
      this.cfg := cfg;
      tracker := new Tracker();
      pktCount := 0;
      written := [];
      history := [];
    }

    method OnPacket(srcIp: string, dstPort: Port, rawPkt: Bytes, now: int, sweepNow: int)
      requires IsExp(cfg.engine.exp)
      modifies this, tracker
      ensures State() == Deliver(old(State()), cfg, KeyFor(srcIp, dstPort), Delivered(srcIp, dstPort, rawPkt),
                                 now, sweepNow)
    {
      var key := KeyFor(srcIp, dstPort);
      var payload := tracker.ProcessPacket(key, rawPkt, now);
      history := history + [Packet(key, rawPkt, now)];
      assert (State(), payload) == Track(old(State()), key, rawPkt, now);
      if payload == [] {
        return;
      }
      var score := Infer(cfg.engine, payload);
      if score > cfg.threshold {
        written := written + [Notification(srcIp, dstPort, score)];
      }
      pktCount := pktCount + 1;
      assert State() == Report(Track(old(State()), key, rawPkt, now).0, cfg, srcIp, dstPort, payload);
      if pktCount % SWEEP_EVERY == 0 {
        tracker.CleanupStale(sweepNow, TIMEOUT);
        history := history + [Sweep(sweepNow, TIMEOUT)];
      }
    }

    method OnFrame(a: Arrival)
      requires IsExp(cfg.engine.exp)
      modifies this, tracker
      ensures State() == Receive(old(State()), cfg, a)
    {
      match Sniff(a.frame)
      case None =>
      case Some(d) => OnPacket(d.srcIp, d.dstPort, d.payload, a.now, a.sweepNow);
    }
  }

  /** What one packet does to the plane, from the bytes held for its key. */
  ghost predicate Delivers(p: Plane, p': Plane, cfg: Config, key: FlowKey, srcIp: string, dstPort: int, pkt: Bytes,
                           now: int, sweepNow: int)
    requires IsExp(cfg.engine.exp)
  {
    var held := if key in p.flows then p.flows[key].buffer else [];
    var payload := if |held| < 4096 then held + pkt else held;
    if |payload| < 512 then
      && p'.flows == p.flows[key := FlowState(payload, now)]
      && p'.emissions == p.emissions && p'.written == p.written
    else
      var score := InferScore(cfg.engine, payload);
      && p'.emissions == p.emissions + 1
      && p'.written == p.written + (if score > cfg.threshold then [Notification(srcIp, dstPort, score)] else [])
      && (forall k :: k in p'.flows <==>
            k in p.flows && k != key && (p'.emissions % 1000 == 0 ==> sweepNow - p.flows[k].lastSeen <= 60_000_000_000))
      && (forall k :: k in p'.flows ==> p'.flows[k] == p.flows[k])
  }

  lemma DeliverExactly(p: Plane, cfg: Config, key: FlowKey, d: Delivered, now: int, sweepNow: int)
    requires IsExp(cfg.engine.exp)
    ensures Delivers(p, Deliver(p, cfg, key, d, now, sweepNow), cfg, key, d.srcIp, d.dstPort, d.payload, now, sweepNow)
  {
  }

  lemma AfterOneMore(cfg: Config, arrivals: seq<Arrival>, a: Arrival)
    requires IsExp(cfg.engine.exp)
    ensures AfterFrames(cfg, arrivals + [a]) == Receive(AfterFrames(cfg, arrivals), cfg, a)
  {
    assert (arrivals + [a])[..|arrivals|] == arrivals;
  }

  // ---- The plane drives the tracker ------------------------------------------------------------

  lemma RunSnoc(history: seq<Event>, e: Event)
    ensures Run(history + [e]) == Apply(Run(history), e).0
  {
    assert (history + [e])[..|history|] == history;
  }

  /** The flows are what the recorded calls make of an empty tracker. */
  ghost predicate Replays(p: Plane)
  {
    p.flows == Run(p.history)
  }

  lemma DeliverReplays(p: Plane, cfg: Config, key: FlowKey, d: Delivered, now: int, sweepNow: int)
    requires IsExp(cfg.engine.exp) && Replays(p)
    ensures Replays(Deliver(p, cfg, key, d, now, sweepNow))
  {
    var e := Packet(key, d.payload, now);
    RunSnoc(p.history, e);
    RunSnoc(p.history + [e], Sweep(sweepNow, TIMEOUT));
  }

  lemma {:induction false} PlaneReplays(cfg: Config, arrivals: seq<Arrival>)
    requires IsExp(cfg.engine.exp)
    ensures Replays(AfterFrames(cfg, arrivals))
  {
    if arrivals != [] {
      PlaneReplays(cfg, arrivals[..|arrivals| - 1]);
      var p, a := AfterFrames(cfg, arrivals[..|arrivals| - 1]), arrivals[|arrivals| - 1];
      if Sniff(a.frame).Some? {
        var d := Sniff(a.frame).value;
        DeliverReplays(p, cfg, KeyFor(d.srcIp, d.dstPort), d, a.now, a.sweepNow);
      }
    }
  }

  // ---- What inference is fed -------------------------------------------------------------------

  /** Every payload the tracker hands to inference fills the model's input: no padding, every position
      attended, SEP last; and nothing from byte 510 on reaches the model. */
  lemma {:induction false} InferenceInputIsFull(history: seq<Event>, i: nat, other: Bytes)
    requires i < |history| && Output(history, i) != []
    ensures var payload := Output(history, i);
            && |payload| >= 512
            && 0 !in Ids(payload) && Ids(payload)[511] == 2
            && (forall k :: 0 <= k < 512 ==> Mask(payload)[k] == 1)
            && Ids(payload[..510] + other) == Ids(payload) && Mask(payload[..510] + other) == Mask(payload)
  {
    PayloadIffReady(history, i);
    ReadyPayloadFillsTheInput(Output(history, i), other);
  }

  // ---- Cadence of the sweep --------------------------------------------------------------------

  /** Payloads handed to inference in a run of the tracker. */
  function CountEmissions(history: seq<Event>): nat
  {
    if history == [] then 0 else
      CountEmissions(history[..|history| - 1]) + if Output(history, |history| - 1) != [] then 1 else 0
  }

  function CountSweeps(history: seq<Event>): nat
  {
    if history == [] then 0 else
      CountSweeps(history[..|history| - 1]) + if history[|history| - 1].Sweep? then 1 else 0
  }

  lemma CountSnoc(history: seq<Event>, e: Event)
    ensures CountEmissions(history + [e]) ==
            CountEmissions(history) + if Apply(Run(history), e).1 != [] then 1 else 0
    ensures CountSweeps(history + [e]) == CountSweeps(history) + if e.Sweep? then 1 else 0
  {
    assert (history + [e])[..|history|] == history;
  }

  ghost predicate OnSchedule(p: Plane)
  {
    && p.emissions == CountEmissions(p.history)
    && CountSweeps(p.history) == p.emissions / 1000
  }

  lemma DeliverKeepsSchedule(p: Plane, cfg: Config, key: FlowKey, d: Delivered, now: int, sweepNow: int)
    requires IsExp(cfg.engine.exp) && Replays(p) && OnSchedule(p)
    ensures OnSchedule(Deliver(p, cfg, key, d, now, sweepNow))
  {
    var (q, payload) := Track(p, key, d.payload, now);
    CountSnoc(p.history, Packet(key, d.payload, now));
    CountSnoc(q.history, Sweep(sweepNow, TIMEOUT));
    ThousandthStep(p.emissions);
  }

  lemma ThousandthStep(n: nat)
    ensures (n + 1) / 1000 == n / 1000 + if (n + 1) % 1000 == 0 then 1 else 0
  {
  }

  /** The sweep has run exactly floor(emissions / 1000) times: it counts payloads, not packets. */
  lemma {:induction false} SweepsFollowEmissions(cfg: Config, arrivals: seq<Arrival>)
    requires IsExp(cfg.engine.exp)
    ensures OnSchedule(AfterFrames(cfg, arrivals))
  {
    if arrivals != [] {
      SweepsFollowEmissions(cfg, arrivals[..|arrivals| - 1]);
      PlaneReplays(cfg, arrivals[..|arrivals| - 1]);
      var p, a := AfterFrames(cfg, arrivals[..|arrivals| - 1]), arrivals[|arrivals| - 1];
      if Sniff(a.frame).Some? {
        var d := Sniff(a.frame).value;
        DeliverKeepsSchedule(p, cfg, KeyFor(d.srcIp, d.dstPort), d, a.now, a.sweepNow);
      }
    }
  }

  ghost predicate SweepsAfterAMinute(p: Plane)
  {
    forall e :: e in p.history && e.Sweep? ==> e.timeout == 60 * 1_000_000_000
  }

  lemma {:induction false} EverySweepTakesAMinute(cfg: Config, arrivals: seq<Arrival>)
    requires IsExp(cfg.engine.exp)
    ensures SweepsAfterAMinute(AfterFrames(cfg, arrivals))
  {
    if arrivals != [] {
      EverySweepTakesAMinute(cfg, arrivals[..|arrivals| - 1]);
    }
  }

  /** Right after a sweep the map holds no more flows than keys heard from in the last 60 seconds. */
  lemma {:induction false} SweepBoundsThePlane(cfg: Config, arrivals: seq<Arrival>)
    requires IsExp(cfg.engine.exp)
    requires var h := AfterFrames(cfg, arrivals).history; h != [] && h[|h| - 1].Sweep?
    ensures var p := AfterFrames(cfg, arrivals);
            var last := p.history[|p.history| - 1];
            |p.flows| <= |RecentKeys(p.history[..|p.history| - 1], last.now, 60 * 1_000_000_000)|
  {
    EverySweepTakesAMinute(cfg, arrivals);
    PlaneReplays(cfg, arrivals);
    var h := AfterFrames(cfg, arrivals).history;
    var last := h[|h| - 1];
    SweepBoundsTheMap(h[..|h| - 1], last.now, last.timeout);
    assert h == h[..|h| - 1] + [Sweep(last.now, last.timeout)];
  }

  /** One bare segment to each of the ports below `n`. */
  function PortScan(src: Addr, n: nat): seq<Arrival>
    requires n <= 65536
  {
    if n == 0 then [] else PortScan(src, n - 1) + [Arrival(BareSegment(src, n - 1), n, n)]
  }

  lemma SmallPacketOpensAFlow(p: Plane, cfg: Config, key: FlowKey, d: Delivered, now: int, sweepNow: int)
    requires IsExp(cfg.engine.exp)
    requires key !in p.flows && |d.payload| < 512
    ensures Deliver(p, cfg, key, d, now, sweepNow) ==
            Plane(p.flows[key := FlowState(d.payload, now)], p.emissions, p.written,
                  p.history + [Packet(key, d.payload, now)])
  {
    assert [] + d.payload == d.payload;
  }

  ghost predicate Scanned(p: Plane, n: nat)
  {
    && |p.history| == n && |p.flows| == n && p.emissions == 0 && CountSweeps(p.history) == 0
    && forall key :: key in p.flows ==> key.dstPort < n
  }

  lemma ScanOneMore(p: Plane, cfg: Config, src: Addr, port: Port, now: int)
    requires IsExp(cfg.engine.exp) && Scanned(p, port)
    ensures Scanned(Receive(p, cfg, Arrival(BareSegment(src, port), now, now)), port + 1)
  {
    var frame := BareSegment(src, port);
    BareSegmentIsDelivered(src, port);
    KeyForPrinted(src, port);
    var key := KeyOf(src, port);
    assert key !in p.flows;
    SmallPacketOpensAFlow(p, cfg, key, Delivered(Print(src), port, frame), now, now);
    CountSnoc(p.history, Packet(key, frame, now));
  }

  /** A refused text leaves the zero address, and the port is cut to 16 bits. */
  lemma KeyForRefused(srcIp: string, dstPort: int)
    requires Parse(srcIp).None?
    ensures KeyFor(srcIp, dstPort) == FlowKey([0, 0, 0, 0], [0, 0, 0, 0], 0, dstPort % 65536, 6)
  {
  }

  /** The key a delivered frame is filed under is its own source address and destination port. */
  lemma KeyForPrinted(src: Addr, port: Port)
    ensures KeyFor(Print(src), port) == KeyOf(src, port) == FlowKey(src, [0, 0, 0, 0], 0, port, 6)
  {
    RoundTrip(src);
  }

  /** Packets alone never bring a sweep, whatever the comment says: each new port leaves one more flow. */
  lemma {:induction false} PacketsAloneNeverSweep(cfg: Config, src: Addr, n: nat)
    requires IsExp(cfg.engine.exp) && n <= 65536
    ensures |PortScan(src, n)| == n
    ensures Scanned(AfterFrames(cfg, PortScan(src, n)), n)
  {
    if n > 0 {
      PacketsAloneNeverSweep(cfg, src, n - 1);
      var before, last := PortScan(src, n - 1), Arrival(BareSegment(src, n - 1), n, n);
      AfterOneMore(cfg, before, last);
      ScanOneMore(AfterFrames(cfg, before), cfg, src, n - 1, n);
    }
  }
}
