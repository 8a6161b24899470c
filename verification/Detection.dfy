/** From raw frames to notifications, over whole runs of the data plane. */
module Detection {
  import opened Common
  import opened FlowTracker
  import opened FlowLedger
  import opened Ipv4Text
  import opened Scoring
  import opened Sniffer
  import opened DataPlane

  // ---- One sender and port ---------------------------------------------------------------------

  /** The frame is delivered as a TCP segment of `src` to `port`. */
  predicate IsFrom(frame: Bytes, src: Addr, port: Port)
  {
    Sniff(frame) == Some(Delivered(Print(src), port, frame))
  }

  /** The frames of one sender and port, in arrival order. */
  function FramesFrom(arrivals: seq<Arrival>, src: Addr, port: Port): seq<Bytes>
  {
    if arrivals == [] then [] else
      var frame := arrivals[|arrivals| - 1].frame;
      FramesFrom(arrivals[..|arrivals| - 1], src, port) + if IsFrom(frame, src, port) then [frame] else []
  }

  predicate Names(n: Notification, src: Addr, port: Port)
  {
    n.srcIp == Print(src) && n.dstPort == port
  }

  /** The notifications that name one sender and port, in the order written. */
  function NotesFor(written: seq<Notification>, src: Addr, port: Port): seq<Notification>
  {
    if written == [] then [] else
      var n := written[|written| - 1];
      NotesFor(written[..|written| - 1], src, port) + if Names(n, src, port) then [n] else []
  }

  /** The segment was emitted and its score is above the threshold. */
  ghost predicate Above(cfg: Config, s: Segment)
    requires IsExp(cfg.engine.exp)
  {
    s.emitted && InferScore(cfg.engine, Flat(s.packets)) > cfg.threshold
  }

  /** One notification for every emitted segment that scores above the threshold. */
  ghost function Expected(cfg: Config, segs: seq<Segment>, src: Addr, port: Port): seq<Notification>
    requires IsExp(cfg.engine.exp)
  {
    if segs == [] then [] else
      Expected(cfg, segs[..|segs| - 1], src, port) + NoteOf(cfg, segs[|segs| - 1], src, port)
  }

  ghost function NoteOf(cfg: Config, s: Segment, src: Addr, port: Port): seq<Notification>
    requires IsExp(cfg.engine.exp)
  {
    if Above(cfg, s) then [Notification(Print(src), port, InferScore(cfg.engine, Flat(s.packets)))] else []
  }

  /** The ledger of one sender and port after a run of frames. */
  ghost function LedgerFor(cfg: Config, arrivals: seq<Arrival>, src: Addr, port: Port): Ledger
    requires IsExp(cfg.engine.exp)
  {
    LedgerOf(AfterFrames(cfg, arrivals).history, KeyOf(src, port))
  }

  // ---- Each step keeps notifications and ledgers in step ---------------------------------------

  ghost predicate InStep(p: Plane, cfg: Config, frames: seq<Bytes>, src: Addr, port: Port)
    requires IsExp(cfg.engine.exp)
  {
    var key := KeyOf(src, port);
    && Replays(p)
    && Fed(p.history, key) == frames
    && NotesFor(p.written, src, port) == Expected(cfg, LedgerOf(p.history, key).closed, src, port)
  }

  lemma LedgerSnoc(history: seq<Event>, e: Event, key: FlowKey)
    ensures LedgerOf(history + [e], key) == Enter(LedgerOf(history, key), e, key)
    ensures Fed(history + [e], key) == Fed(history, key) + if e.Packet? && e.key == key then [e.bytes] else []
  {
    assert (history + [e])[..|history|] == history;
  }

  lemma NotesSnoc(written: seq<Notification>, n: Notification, src: Addr, port: Port)
    ensures NotesFor(written + [n], src, port) ==
            NotesFor(written, src, port) + if Names(n, src, port) then [n] else []
  {
    assert (written + [n])[..|written|] == written;
  }

  lemma ExpectedSnoc(cfg: Config, segs: seq<Segment>, s: Segment, src: Addr, port: Port)
    requires IsExp(cfg.engine.exp)
    ensures Expected(cfg, segs + [s], src, port) == Expected(cfg, segs, src, port) + NoteOf(cfg, s, src, port)
  {
    assert (segs + [s])[..|segs|] == segs;
  }

  /** What the tracker hands back is the segment the ledger closes. */
  lemma PayloadIsTheSegment(history: seq<Event>, key: FlowKey, pkt: Bytes, now: int)
    ensures var open := LedgerOf(history, key).open + [pkt];
            AfterPacket(Run(history), key, pkt, now).1 == if |Flat(open)| >= 512 then Flat(open) else []
  {
    TrackerRefinesLedger(history, key);
    FlatSnoc(LedgerOf(history, key).open, pkt);
  }

  /** The tracker's half of a packet of the sender itself. */
  lemma OwnTrack(p: Plane, frame: Bytes, now: int, key: FlowKey)
    requires Replays(p)
    ensures var (q, payload) := Track(p, key, frame, now);
            var l, l' := LedgerOf(p.history, key), LedgerOf(q.history, key);
            && Replays(q)
            && Fed(q.history, key) == Fed(p.history, key) + [frame]
            && (payload == [] ==> l'.closed == l.closed)
            && (payload != [] ==> exists s: Segment ::
                  l'.closed == l.closed + [s] && s.emitted && Flat(s.packets) == payload)
  {
    RunSnoc(p.history, Packet(key, frame, now));
    LedgerSnoc(p.history, Packet(key, frame, now), key);
    PayloadIsTheSegment(p.history, key, frame, now);
    var l := LedgerOf(p.history, key);
    var s := Segment(l.open + [frame], true);
    if |Flat(s.packets)| >= 512 {
      assert Enter(l, Packet(key, frame, now), key).closed == l.closed + [s];
    }
  }

  /** The segment a payload closes and the notification it may bring keep a sender's account even. */
  lemma OwnNote(written: seq<Notification>, cfg: Config, closed: seq<Segment>, s: Segment, src: Addr, port: Port)
    requires IsExp(cfg.engine.exp) && s.emitted
    requires NotesFor(written, src, port) == Expected(cfg, closed, src, port)
    ensures NotesFor(written + NoteOf(cfg, s, src, port), src, port) == Expected(cfg, closed + [s], src, port)
  {
    ExpectedSnoc(cfg, closed, s, src, port);
    NotesSnoc(written, Notification(Print(src), port, InferScore(cfg.engine, Flat(s.packets))), src, port);
    assert written + [] == written;
  }

  lemma ReportWritesNote(q: Plane, cfg: Config, s: Segment, src: Addr, port: Port)
    requires IsExp(cfg.engine.exp) && s.emitted
    ensures var p := Report(q, cfg, Print(src), port, Flat(s.packets));
            p.flows == q.flows && p.history == q.history && p.written == q.written + NoteOf(cfg, s, src, port)
  {
  }

  /** A packet of the sender itself: emission, segment and notification come together. */
  lemma OwnPacket(p: Plane, cfg: Config, frames: seq<Bytes>, frame: Bytes, now: int, src: Addr, port: Port)
    requires IsExp(cfg.engine.exp) && InStep(p, cfg, frames, src, port)
    ensures var (q, payload) := Track(p, KeyOf(src, port), frame, now);
            InStep(if payload == [] then q else Report(q, cfg, Print(src), port, payload),
                   cfg, frames + [frame], src, port)
  {
    var key := KeyOf(src, port);
    OwnTrack(p, frame, now, key);
    var (q, payload) := Track(p, key, frame, now);
    var closed := LedgerOf(p.history, key).closed;
    if payload != [] {
      var s :| LedgerOf(q.history, key).closed == closed + [s] && s.emitted && Flat(s.packets) == payload;
      OwnNote(p.written, cfg, closed, s, src, port);
      ReportWritesNote(q, cfg, s, src, port);
    }
  }

  /** Another sender's packet: nothing of this one moves. */
  lemma OthersPacket(p: Plane, cfg: Config, frames: seq<Bytes>, frame: Bytes, now: int, src: Addr, port: Port,
                     src': Addr, port': Port)
    requires IsExp(cfg.engine.exp) && InStep(p, cfg, frames, src, port)
    requires src' != src || port' != port
    ensures var (q, payload) := Track(p, KeyOf(src', port'), frame, now);
            InStep(if payload == [] then q else Report(q, cfg, Print(src'), port', payload),
                   cfg, frames, src, port)
  {
    var e := Packet(KeyOf(src', port'), frame, now);
    RunSnoc(p.history, e);
    LedgerSnoc(p.history, e, KeyOf(src, port));
    assert frames + [] == frames;
    var payload := AfterPacket(p.flows, KeyOf(src', port'), frame, now).1;
    if payload != [] {
      var n := Notification(Print(src'), port', InferScore(cfg.engine, payload));
      NotesSnoc(p.written, n, src, port);
      if Names(n, src, port) {
        PrintInjective(src', src);
      }
      assert p.written + [] == p.written;
    }
  }

  lemma TidyKeepsStep(p: Plane, cfg: Config, frames: seq<Bytes>, sweepNow: int, src: Addr, port: Port)
    requires IsExp(cfg.engine.exp) && InStep(p, cfg, frames, src, port)
    ensures InStep(Tidy(p, sweepNow), cfg, frames, src, port)
  {
    var key := KeyOf(src, port);
    var l := LedgerOf(p.history, key);
    RunSnoc(p.history, Sweep(sweepNow, TIMEOUT));
    LedgerSnoc(p.history, Sweep(sweepNow, TIMEOUT), key);
    assert frames + [] == frames;
    ExpectedSnoc(cfg, l.closed, Segment(l.open, false), src, port);
  }

  lemma DeliverKeepsStep(p: Plane, cfg: Config, frames: seq<Bytes>, frame: Bytes, now: int, sweepNow: int,
                         src: Addr, port: Port, src': Addr, port': Port)
    requires IsExp(cfg.engine.exp) && InStep(p, cfg, frames, src, port)
    ensures InStep(Deliver(p, cfg, KeyOf(src', port'), Delivered(Print(src'), port', frame), now, sweepNow), cfg,
                   frames + if src' == src && port' == port then [frame] else [], src, port)
  {
    var (q, payload) := Track(p, KeyOf(src', port'), frame, now);
    var mine := frames + if src' == src && port' == port then [frame] else [];
    if src' == src && port' == port {
      OwnPacket(p, cfg, frames, frame, now, src, port);
    } else {
      OthersPacket(p, cfg, frames, frame, now, src, port, src', port');
      assert mine == frames;
    }
    if payload != [] {
      TidyKeepsStep(Report(q, cfg, Print(src'), port', payload), cfg, mine, sweepNow, src, port);
    }
  }

  lemma IsFromSender(frame: Bytes, src: Addr, port: Port)
    requires Sniff(frame).Some?
    ensures IsFrom(frame, src, port) <==> src == SourceOf(frame) && port == Sniff(frame).value.dstPort
  {
    DeliveredIsCompleteIpv4(frame);
    if Print(src) == Print(SourceOf(frame)) {
      PrintInjective(src, SourceOf(frame));
    }
  }

  lemma {:induction false} RunKeepsStep(cfg: Config, arrivals: seq<Arrival>, src: Addr, port: Port)
    requires IsExp(cfg.engine.exp)
    ensures InStep(AfterFrames(cfg, arrivals), cfg, FramesFrom(arrivals, src, port), src, port)
  {
    if arrivals != [] {
      var before, a := arrivals[..|arrivals| - 1], arrivals[|arrivals| - 1];
      RunKeepsStep(cfg, before, src, port);
      if Sniff(a.frame).Some? {
        var src', port' := SourceOf(a.frame), Sniff(a.frame).value.dstPort;
        IsFromSender(a.frame, src, port);
        KeyForPrinted(src', port');
        DeliverKeepsStep(AfterFrames(cfg, before), cfg, FramesFrom(before, src, port), a.frame, a.now, a.sweepNow,
                         src, port, src', port');
      } else {
        assert FramesFrom(arrivals, src, port) == FramesFrom(before, src, port);
      }
    }
  }

  // ---- What a run of frames reports ------------------------------------------------------------

  /** For any model and threshold: a sender's frames are segmented greedily, and its notifications are
      the scores above the threshold of the segments that were emitted, in order, one each. */
  lemma {:induction false} NotificationsAreScoredSegments(cfg: Config, arrivals: seq<Arrival>, src: Addr, port: Port)
    requires IsExp(cfg.engine.exp)
    ensures var l := LedgerFor(cfg, arrivals, src, port);
            && Segmentation(FramesFrom(arrivals, src, port), l.closed, l.open)
            && NotesFor(AfterFrames(cfg, arrivals).written, src, port) == Expected(cfg, l.closed, src, port)
  {
    RunKeepsStep(cfg, arrivals, src, port);
    LedgerIsGreedy(AfterFrames(cfg, arrivals).history, KeyOf(src, port));
  }

  lemma {:induction false} ExpectedPrefix(cfg: Config, segs: seq<Segment>, n: nat, src: Addr, port: Port)
    requires IsExp(cfg.engine.exp) && n <= |segs|
    ensures Expected(cfg, segs[..n], src, port) <= Expected(cfg, segs, src, port)
  {
    if n == |segs| {
      assert segs[..n] == segs;
    } else {
      ExpectedPrefix(cfg, segs[..|segs| - 1], n, src, port);
      assert segs[..|segs| - 1][..n] == segs[..n];
    }
  }

  /** The heuristic probe: no model, and a threshold between the two heuristic scores. */
  ghost predicate Heuristic(cfg: Config)
  {
    IsExp(cfg.engine.exp) && Unavailable(cfg.engine) && 0.05 <= cfg.threshold < 0.99
  }

  /** The notification written for segment `i`, at its place among those of its sender. */
  ghost predicate Reported(cfg: Config, arrivals: seq<Arrival>, src: Addr, port: Port, i: nat)
    requires IsExp(cfg.engine.exp)
    requires i < |LedgerFor(cfg, arrivals, src, port).closed|
  {
    var notes := NotesFor(AfterFrames(cfg, arrivals).written, src, port);
    var closed := LedgerFor(cfg, arrivals, src, port).closed;
    var place := |Expected(cfg, closed[..i], src, port)|;
    && |Expected(cfg, closed[..i + 1], src, port)| == place + 1
    && place < |notes|
    && notes[place] == Notification(Print(src), port, InferScore(cfg.engine, Flat(closed[i].packets)))
  }

  /** For any model and threshold: a segment writes its notification exactly when it was emitted and scores
      above the threshold. */
  lemma {:induction false} EmissionReportsIffAbove(cfg: Config, arrivals: seq<Arrival>, src: Addr, port: Port, i: nat)
    requires IsExp(cfg.engine.exp) && i < |LedgerFor(cfg, arrivals, src, port).closed|
    ensures Reported(cfg, arrivals, src, port, i) <==> Above(cfg, LedgerFor(cfg, arrivals, src, port).closed[i])
  {
    NotificationsAreScoredSegments(cfg, arrivals, src, port);
    ExpectedAt(cfg, LedgerFor(cfg, arrivals, src, port).closed, i, src, port);
  }

  lemma AboveIffSignature(cfg: Config, s: Segment)
    requires Heuristic(cfg)
    ensures Above(cfg, s) <==> s.emitted && HasSignature(Flat(s.packets))
    ensures Above(cfg, s) ==> InferScore(cfg.engine, Flat(s.packets)) == 0.99
  {
  }

  /** In the heuristic configuration: exactly when its payload contains a signature, with score 0.99. */
  lemma {:induction false} EmissionReportsIffSignature(cfg: Config, arrivals: seq<Arrival>, src: Addr, port: Port,
                                                       i: nat)
    requires Heuristic(cfg) && i < |LedgerFor(cfg, arrivals, src, port).closed|
    ensures var s := LedgerFor(cfg, arrivals, src, port).closed[i];
            && (Reported(cfg, arrivals, src, port, i) <==> s.emitted && HasSignature(Flat(s.packets)))
            && (Reported(cfg, arrivals, src, port, i) ==> InferScore(cfg.engine, Flat(s.packets)) == 0.99)
  {
    EmissionReportsIffAbove(cfg, arrivals, src, port, i);
    AboveIffSignature(cfg, LedgerFor(cfg, arrivals, src, port).closed[i]);
  }

  /** The note of segment `i` stands right after those of the segments before it. */
  lemma ExpectedAt(cfg: Config, closed: seq<Segment>, i: nat, src: Addr, port: Port)
    requires IsExp(cfg.engine.exp) && i < |closed|
    ensures var before, note := Expected(cfg, closed[..i], src, port), NoteOf(cfg, closed[i], src, port);
            && Expected(cfg, closed[..i + 1], src, port) == before + note
            && before + note <= Expected(cfg, closed, src, port)
  {
    assert closed[..i + 1] == closed[..i] + [closed[i]];
    ExpectedSnoc(cfg, closed[..i], closed[i], src, port);
    ExpectedPrefix(cfg, closed, i + 1, src, port);
  }

  // ---- Where a signature can hide --------------------------------------------------------------

  /** Where segment `i` starts in the sender's byte stream. */
  function StartOf(segs: seq<Segment>, i: nat): nat
    requires i <= |segs|
  {
    |Flat(AllPackets(segs[..i]))|
  }

  /** The bytes of segment `i` are the stream between its start and the next one's. */
  lemma SegmentIsSlice(segs: seq<Segment>, open: seq<Bytes>, i: nat)
    requires i < |segs|
    ensures var stream := Flat(AllPackets(segs) + open);
            && StartOf(segs, i) <= StartOf(segs, i + 1) <= |stream|
            && stream[StartOf(segs, i)..StartOf(segs, i + 1)] == Flat(segs[i].packets)
  {
    BytesUpTo(segs, i);
    BytesUpToArePrefix(segs, open, i + 1);
    SliceAfter(Flat(AllPackets(segs[..i])), Flat(segs[i].packets), Flat(AllPackets(segs) + open));
  }

  lemma BytesUpTo(segs: seq<Segment>, i: nat)
    requires i < |segs|
    ensures Flat(AllPackets(segs[..i + 1])) == Flat(AllPackets(segs[..i])) + Flat(segs[i].packets)
  {
    AllPacketsSnoc(segs[..i], segs[i]);
    assert segs[..i + 1] == segs[..i] + [segs[i]];
    FlatAppend(AllPackets(segs[..i]), segs[i].packets);
  }

  lemma BytesUpToArePrefix(segs: seq<Segment>, open: seq<Bytes>, n: nat)
    requires n <= |segs|
    ensures Flat(AllPackets(segs[..n])) <= Flat(AllPackets(segs) + open)
  {
    AllPacketsPrefix(segs, n);
    FlatPrefix(AllPackets(segs[..n]), AllPackets(segs) + open);
  }

  lemma SliceAfter(before: Bytes, mine: Bytes, stream: Bytes)
    requires before + mine <= stream
    ensures stream[|before|..|before + mine|] == mine
  {
  }

  /** Every position before the open part lies in some segment. */
  lemma {:induction false} Locate(segs: seq<Segment>, n: nat, p: nat) returns (i: nat)
    requires n <= |segs| && p < StartOf(segs, n)
    ensures i < n && StartOf(segs, i) <= p < StartOf(segs, i + 1)
  {
    if StartOf(segs, n - 1) <= p {
      i := n - 1;
    } else {
      i := Locate(segs, n - 1, p);
    }
  }

  /** No signature goes unreported but for a cause one can name. Take any occurrence of a signature in the
      bytes a sender delivered to a port. Either an emission that contains it was reported, or it straddles
      a cut between segments, or it lies in a buffer a sweep evicted, or in bytes still held. */
  lemma {:induction false} NoSignatureMissed(cfg: Config, arrivals: seq<Arrival>, src: Addr, port: Port, sig: nat,
                                             at: nat)
    requires Heuristic(cfg) && sig < |SIGNATURES|
    requires OccursAt(SIGNATURES[sig], Text(Flat(FramesFrom(arrivals, src, port))), at)
    ensures var segs := LedgerFor(cfg, arrivals, src, port).closed;
            var end := at + |SIGNATURES[sig]|;
            || (exists i :: 0 <= i < |segs| && StartOf(segs, i) <= at && end <= StartOf(segs, i + 1) &&
                            Reported(cfg, arrivals, src, port, i))
            || (exists i :: 0 < i <= |segs| && at < StartOf(segs, i) < end)
            || (exists i :: 0 <= i < |segs| && StartOf(segs, i) <= at && end <= StartOf(segs, i + 1) &&
                            !segs[i].emitted)
            || StartOf(segs, |segs|) <= at
  {
    NotificationsAreScoredSegments(cfg, arrivals, src, port);
    var l := LedgerFor(cfg, arrivals, src, port);
    var segs, stream := l.closed, Flat(FramesFrom(arrivals, src, port));
    var end := at + |SIGNATURES[sig]|;
    if at < StartOf(segs, |segs|) {
      var i := Locate(segs, |segs|, at);
      if end <= StartOf(segs, i + 1) && segs[i].emitted {
        SegmentIsSlice(segs, l.open, i);
        SliceHasSignature(stream, StartOf(segs, i), StartOf(segs, i + 1), sig, at);
        EmissionReportsIffSignature(cfg, arrivals, src, port, i);
      }
    }
  }

  /** An occurrence is inside a reported payload exactly when it is inside an emitted segment. */
  lemma {:induction false} CoveredExactlyWhenEmitted(cfg: Config, arrivals: seq<Arrival>, src: Addr, port: Port,
                                                     sig: nat, at: nat, i: nat)
    requires Heuristic(cfg) && sig < |SIGNATURES|
    requires OccursAt(SIGNATURES[sig], Text(Flat(FramesFrom(arrivals, src, port))), at)
    requires var segs := LedgerFor(cfg, arrivals, src, port).closed;
             i < |segs| && StartOf(segs, i) <= at && at + |SIGNATURES[sig]| <= StartOf(segs, i + 1)
    ensures Reported(cfg, arrivals, src, port, i) <==> LedgerFor(cfg, arrivals, src, port).closed[i].emitted
  {
    NotificationsAreScoredSegments(cfg, arrivals, src, port);
    var l, stream := LedgerFor(cfg, arrivals, src, port), Flat(FramesFrom(arrivals, src, port));
    SegmentIsSlice(l.closed, l.open, i);
    SliceHasSignature(stream, StartOf(l.closed, i), StartOf(l.closed, i + 1), sig, at);
    EmissionReportsIffSignature(cfg, arrivals, src, port, i);
  }

  /** Packet `k` of the stream is packet `j` of segment `i`. */
  predicate PacketIs(segs: seq<Segment>, k: nat, i: nat, j: nat)
  {
    i < |segs| && j < |segs[i].packets| && k == |AllPackets(segs[..i])| + j
  }

  lemma {:induction false} LocatePacket(segs: seq<Segment>, k: nat)
    requires k < |AllPackets(segs)|
    ensures exists i: nat, j: nat :: PacketIs(segs, k, i, j) && segs[i].packets[j] == AllPackets(segs)[k]
  {
    var last := |segs| - 1;
    var front := segs[..last];
    if k < |AllPackets(front)| {
      LocatePacket(front, k);
      var i: nat, j: nat :| PacketIs(front, k, i, j) && front[i].packets[j] == AllPackets(front)[k];
      assert front[..i] == segs[..i];
      assert PacketIs(segs, k, i, j);
    } else {
      assert PacketIs(segs, k, last, k - |AllPackets(front)|);
    }
  }

  lemma TextAppend(a: Bytes, b: Bytes)
    ensures Text(a + b) == Text(a) + Text(b)
  {
  }

  lemma SignatureAround(before: Bytes, part: Bytes, after: Bytes)
    requires HasSignature(part)
    ensures HasSignature(before + part + after)
  {
    TextAppend(before, part);
    TextAppend(before + part, after);
    var sig: nat :| sig < |SIGNATURES| && Occurs(SIGNATURES[sig], Text(part));
    OccursInside(SIGNATURES[sig], Text(before), Text(part), Text(after));
  }

  /** A signature in one of the packets is a signature in their payload. */
  lemma {:induction false} PacketSignatureInFlat(packets: seq<Bytes>, j: nat)
    requires j < |packets| && HasSignature(packets[j])
    ensures HasSignature(Flat(packets))
  {
    var front, last := packets[..|packets| - 1], packets[|packets| - 1];
    if j < |front| {
      PacketSignatureInFlat(front, j);
      SignatureAround([], Flat(front), last);
      assert [] + Flat(front) + last == Flat(packets);
    } else {
      SignatureAround(Flat(front), last, []);
      assert Flat(front) + last + [] == Flat(packets);
    }
  }

  /** Cuts fall between frames, so a signature inside one frame is never lost to a cut: the frame is still
      held, or it lies in a segment that is reported exactly when no sweep evicted it. */
  lemma {:induction false} FrameSignatureReported(cfg: Config, arrivals: seq<Arrival>, src: Addr, port: Port, k: nat)
    requires Heuristic(cfg) && k < |FramesFrom(arrivals, src, port)|
    requires HasSignature(FramesFrom(arrivals, src, port)[k])
    ensures var segs := LedgerFor(cfg, arrivals, src, port).closed;
            || |AllPackets(segs)| <= k
            || exists i: nat, j: nat :: PacketIs(segs, k, i, j) &&
                 (Reported(cfg, arrivals, src, port, i) <==> segs[i].emitted)
  {
    NotificationsAreScoredSegments(cfg, arrivals, src, port);
    var segs, frames := LedgerFor(cfg, arrivals, src, port).closed, FramesFrom(arrivals, src, port);
    if k < |AllPackets(segs)| {
      LocatePacket(segs, k);
      var i: nat, j: nat :| PacketIs(segs, k, i, j) && segs[i].packets[j] == AllPackets(segs)[k];
      assert frames[k] == AllPackets(segs)[k];
      PacketSignatureInFlat(segs[i].packets, j);
      EmissionReportsIffSignature(cfg, arrivals, src, port, i);
    }
  }

  /** Where frame `k` starts in the stream. */
  function FrameStart(frames: seq<Bytes>, k: nat): nat
    requires k <= |frames|
  {
    |Flat(frames[..k])|
  }

  /** Position `p` of the stream lies in frame `k`, behind its Ethernet and IPv4 headers. */
  predicate BehindHeaders(frames: seq<Bytes>, k: nat, p: nat)
    requires k < |frames|
  {
    FrameStart(frames, k) + 34 <= p < FrameStart(frames, k + 1)
  }

  lemma FramesAreOrdered(frames: seq<Bytes>, j: nat, k: nat)
    requires j <= k <= |frames|
    ensures FrameStart(frames, j) <= FrameStart(frames, k)
  {
    FlatPrefix(frames[..j], frames[..k]);
  }

  lemma SignaturesAreShort(sig: nat)
    requires sig < |SIGNATURES|
    ensures |SIGNATURES[sig]| < 34
  {
  }

  /** A signature split over the payloads of two frames is never joined: the next frame's payload stands behind
      more header bytes than any signature has. So the bytes of an occurrence in the stream that lie behind
      headers all lie in one frame. */
  lemma {:induction false} OccurrenceTakesOneFrame(arrivals: seq<Arrival>, src: Addr, port: Port, sig: nat, at: nat,
                                                   j: nat, p: nat, k: nat, q: nat)
    requires sig < |SIGNATURES|
    requires OccursAt(SIGNATURES[sig], Text(Flat(FramesFrom(arrivals, src, port))), at)
    requires j < |FramesFrom(arrivals, src, port)| && k < |FramesFrom(arrivals, src, port)|
    requires at <= p < at + |SIGNATURES[sig]| && BehindHeaders(FramesFrom(arrivals, src, port), j, p)
    requires at <= q < at + |SIGNATURES[sig]| && BehindHeaders(FramesFrom(arrivals, src, port), k, q)
    ensures j == k
  {
    var frames := FramesFrom(arrivals, src, port);
    SignaturesAreShort(sig);
    if j < k {
      FramesAreOrdered(frames, j + 1, k);
    } else if k < j {
      FramesAreOrdered(frames, k + 1, j);
    }
  }

  lemma SliceHasSignature(stream: Bytes, lo: nat, hi: nat, sig: nat, at: nat)
    requires sig < |SIGNATURES| && OccursAt(SIGNATURES[sig], Text(stream), at)
    requires lo <= at && at + |SIGNATURES[sig]| <= hi <= |stream|
    ensures HasSignature(stream[lo..hi])
  {
    OccursInSlice(SIGNATURES[sig], Text(stream), lo, hi, at);
    TextSlice(stream, lo, hi);
  }

  /** Segment `i` was emitted, scores above the threshold, and `n` reports it. */
  ghost predicate Reports(cfg: Config, segs: seq<Segment>, i: nat, n: Notification, src: Addr, port: Port)
    requires IsExp(cfg.engine.exp) && i < |segs|
  {
    Above(cfg, segs[i]) && n == Notification(Print(src), port, InferScore(cfg.engine, Flat(segs[i].packets)))
  }

  /** And nothing is reported without cause: a sender's notification comes from an emitted segment of its own. */
  lemma {:induction false} EveryNoteHasItsSegment(cfg: Config, segs: seq<Segment>, src: Addr, port: Port, j: nat)
    requires IsExp(cfg.engine.exp) && j < |Expected(cfg, segs, src, port)|
    ensures exists i :: 0 <= i < |segs| && Reports(cfg, segs, i, Expected(cfg, segs, src, port)[j], src, port)
  {
    var last := |segs| - 1;
    var front := segs[..last];
    if j < |Expected(cfg, front, src, port)| {
      EveryNoteHasItsSegment(cfg, front, src, port, j);
      var i :| 0 <= i < last && Reports(cfg, front, i, Expected(cfg, front, src, port)[j], src, port);
      assert Reports(cfg, segs, i, Expected(cfg, segs, src, port)[j], src, port);
    } else {
      assert Reports(cfg, segs, last, Expected(cfg, segs, src, port)[j], src, port);
    }
  }

  /** So is every notification a run writes for a sender. */
  lemma {:induction false} EveryNotificationHasItsSegment(cfg: Config, arrivals: seq<Arrival>, src: Addr, port: Port,
                                                          j: nat)
    requires IsExp(cfg.engine.exp) && j < |NotesFor(AfterFrames(cfg, arrivals).written, src, port)|
    ensures var segs := LedgerFor(cfg, arrivals, src, port).closed;
            exists i :: 0 <= i < |segs| &&
                        Reports(cfg, segs, i, NotesFor(AfterFrames(cfg, arrivals).written, src, port)[j], src, port)
  {
    NotificationsAreScoredSegments(cfg, arrivals, src, port);
    EveryNoteHasItsSegment(cfg, LedgerFor(cfg, arrivals, src, port).closed, src, port, j);
  }

  /** The notification names some sender and port, so it is in the account of one. */
  ghost predicate NamesSomeone(n: Notification)
  {
    exists src: Addr, port: Port :: Names(n, src, port)
  }

  ghost predicate Attributed(p: Plane)
  {
    forall n :: n in p.written ==> NamesSomeone(n)
  }

  lemma DeliverWritesOneNote(p: Plane, cfg: Config, key: FlowKey, d: Delivered, now: int, sweepNow: int)
    requires IsExp(cfg.engine.exp)
    ensures var p' := Deliver(p, cfg, key, d, now, sweepNow);
            || p'.written == p.written
            || exists n: Notification ::
                 p'.written == p.written + [n] && n.srcIp == d.srcIp && n.dstPort == d.dstPort
  {
    var (q, payload) := Track(p, key, d.payload, now);
    if payload != [] {
      var n := Notification(d.srcIp, d.dstPort, InferScore(cfg.engine, payload));
      assert p.written + [] == p.written;
      assert Report(q, cfg, d.srcIp, d.dstPort, payload).written in [p.written, p.written + [n]];
    }
  }

  lemma {:induction false} NotesAreAttributed(cfg: Config, arrivals: seq<Arrival>)
    requires IsExp(cfg.engine.exp)
    ensures Attributed(AfterFrames(cfg, arrivals))
  {
    if arrivals != [] {
      NotesAreAttributed(cfg, arrivals[..|arrivals| - 1]);
      var p, a := AfterFrames(cfg, arrivals[..|arrivals| - 1]), arrivals[|arrivals| - 1];
      if Sniff(a.frame).Some? {
        var d := Sniff(a.frame).value;
        DeliverWritesOneNote(p, cfg, KeyFor(d.srcIp, d.dstPort), d, a.now, a.sweepNow);
        var p' := Receive(p, cfg, a);
        forall n | n in p'.written && n !in p.written ensures NamesSomeone(n) {
          assert Names(n, SourceOf(a.frame), d.dstPort);
        }
      }
    }
  }

  // ---- Who is named ----------------------------------------------------------------------------

  /** The sender delivered, on some port, an emitted segment that contains a signature. */
  ghost predicate Convicted(cfg: Config, arrivals: seq<Arrival>, src: Addr)
    requires IsExp(cfg.engine.exp)
  {
    exists port: Port, i: nat :: ConvictedBy(cfg, arrivals, src, port, i)
  }

  ghost predicate ConvictedBy(cfg: Config, arrivals: seq<Arrival>, src: Addr, port: Port, i: nat)
    requires IsExp(cfg.engine.exp)
  {
    var segs := LedgerFor(cfg, arrivals, src, port).closed;
    i < |segs| && segs[i].emitted && HasSignature(Flat(segs[i].packets))
  }

  lemma {:induction false} NoteIsWritten(written: seq<Notification>, a: Addr, port: Port)
    requires NotesFor(written, a, port) != []
    ensures exists k :: 0 <= k < |written| && Names(written[k], a, port)
  {
    var last := |written| - 1;
    if !Names(written[last], a, port) {
      NoteIsWritten(written[..last], a, port);
      var k :| 0 <= k < last && Names(written[..last][k], a, port);
      assert Names(written[k], a, port);
    }
  }

  lemma {:induction false} WrittenIsNoted(written: seq<Notification>, k: nat, a: Addr, port: Port)
    requires k < |written| && Names(written[k], a, port)
    ensures NotesFor(written, a, port) != []
  {
    var last := |written| - 1;
    if k < last {
      WrittenIsNoted(written[..last], k, a, port);
    }
  }

  /** A note with the sender's address was written. */
  ghost predicate Named(written: seq<Notification>, ip: string)
  {
    exists k :: 0 <= k < |written| && written[k].srcIp == ip
  }

  /** The sender delivered, on some port, an emitted segment that scores above the threshold. */
  ghost predicate Hot(cfg: Config, arrivals: seq<Arrival>, src: Addr)
    requires IsExp(cfg.engine.exp)
  {
    exists port: Port, i: nat :: HotBy(cfg, arrivals, src, port, i)
  }

  ghost predicate HotBy(cfg: Config, arrivals: seq<Arrival>, src: Addr, port: Port, i: nat)
    requires IsExp(cfg.engine.exp)
  {
    var segs := LedgerFor(cfg, arrivals, src, port).closed;
    i < |segs| && Above(cfg, segs[i])
  }

  lemma {:induction false} HotIsNamed(cfg: Config, arrivals: seq<Arrival>, src: Addr, port: Port, i: nat)
    requires IsExp(cfg.engine.exp) && HotBy(cfg, arrivals, src, port, i)
    ensures Named(AfterFrames(cfg, arrivals).written, Print(src))
  {
    EmissionReportsIffAbove(cfg, arrivals, src, port, i);
    NoteIsWritten(AfterFrames(cfg, arrivals).written, src, port);
  }

  lemma {:induction false} NamedIsHot(cfg: Config, arrivals: seq<Arrival>, src: Addr)
    requires IsExp(cfg.engine.exp) && Named(AfterFrames(cfg, arrivals).written, Print(src))
    ensures Hot(cfg, arrivals, src)
  {
    var written := AfterFrames(cfg, arrivals).written;
    var k :| 0 <= k < |written| && written[k].srcIp == Print(src);
    NotesAreAttributed(cfg, arrivals);
    assert NamesSomeone(written[k]);
    var src': Addr, port: Port :| Names(written[k], src', port);
    PrintInjective(src', src);
    WrittenIsNoted(written, k, src, port);
    EveryNotificationHasItsSegment(cfg, arrivals, src, port, 0);
    var segs := LedgerFor(cfg, arrivals, src, port).closed;
    var i: nat :| i < |segs| && Reports(cfg, segs, i, NotesFor(written, src, port)[0], src, port);
    assert HotBy(cfg, arrivals, src, port, i);
  }

  /** For any model and threshold: a sender is named in some notification exactly when it delivered an emitted
      segment that scores above the threshold. */
  lemma {:induction false} NamedExactlyWhenHot(cfg: Config, arrivals: seq<Arrival>, src: Addr)
    requires IsExp(cfg.engine.exp)
    ensures Named(AfterFrames(cfg, arrivals).written, Print(src)) <==> Hot(cfg, arrivals, src)
  {
    if Named(AfterFrames(cfg, arrivals).written, Print(src)) {
      NamedIsHot(cfg, arrivals, src);
    }
    if Hot(cfg, arrivals, src) {
      var port: Port, i: nat :| HotBy(cfg, arrivals, src, port, i);
      HotIsNamed(cfg, arrivals, src, port, i);
    }
  }

  /** In the heuristic configuration the hot senders are those with a signature in an emitted segment. */
  lemma {:induction false} HotIffConvicted(cfg: Config, arrivals: seq<Arrival>, src: Addr)
    requires Heuristic(cfg)
    ensures Hot(cfg, arrivals, src) <==> Convicted(cfg, arrivals, src)
  {
    forall port: Port, i: nat
      ensures HotBy(cfg, arrivals, src, port, i) <==> ConvictedBy(cfg, arrivals, src, port, i)
    {
      var segs := LedgerFor(cfg, arrivals, src, port).closed;
      if i < |segs| {
        AboveIffSignature(cfg, segs[i]);
      }
    }
  }

  lemma {:induction false} NamedExactlyWhenConvicted(cfg: Config, arrivals: seq<Arrival>, src: Addr)
    requires Heuristic(cfg)
    ensures Named(AfterFrames(cfg, arrivals).written, Print(src)) <==> Convicted(cfg, arrivals, src)
  {
    NamedExactlyWhenHot(cfg, arrivals, src);
    HotIffConvicted(cfg, arrivals, src);
  }

  // ---- Bounds ----------------------------------------------------------------------------------

  lemma {:induction false} FramesAreFrames(arrivals: seq<Arrival>, src: Addr, port: Port, i: nat)
    requires i < |FramesFrom(arrivals, src, port)|
    ensures var frame := FramesFrom(arrivals, src, port)[i];
            |frame| >= 34 && exists j :: 0 <= j < |arrivals| && arrivals[j].frame == frame
  {
    var before := arrivals[..|arrivals| - 1];
    if i < |FramesFrom(before, src, port)| {
      FramesAreFrames(before, src, port, i);
    }
  }

  lemma {:induction false} PacketInAll(segs: seq<Segment>, i: nat, j: nat)
    requires i < |segs| && j < |segs[i].packets|
    ensures exists k :: 0 <= k < |AllPackets(segs)| && AllPackets(segs)[k] == segs[i].packets[j]
  {
    var front := segs[..|segs| - 1];
    if i < |front| {
      PacketInAll(front, i, j);
      var k :| 0 <= k < |AllPackets(front)| && AllPackets(front)[k] == front[i].packets[j];
      assert AllPackets(segs)[k] == segs[i].packets[j];
    } else {
      assert AllPackets(segs)[|AllPackets(front)| + j] == segs[i].packets[j];
    }
  }

  /** A flow is cut no later than its 16th frame, and a payload overshoots 511 bytes by less than one frame. */
  lemma SegmentsAreShort(cfg: Config, arrivals: seq<Arrival>, src: Addr, port: Port, largest: nat)
    requires IsExp(cfg.engine.exp)
    requires forall j :: 0 <= j < |arrivals| ==> |arrivals[j].frame| <= largest
    ensures var l := LedgerFor(cfg, arrivals, src, port);
            && |l.open| <= 15
            && forall i :: 0 <= i < |l.closed| ==>
                 && |l.closed[i].packets| <= (if l.closed[i].emitted then 16 else 15)
                 && (l.closed[i].emitted ==> 512 <= |Flat(l.closed[i].packets)| <= 511 + largest)
  {
    NotificationsAreScoredSegments(cfg, arrivals, src, port);
    var l, frames := LedgerFor(cfg, arrivals, src, port), FramesFrom(arrivals, src, port);
    forall k | 0 <= k < |frames| ensures 34 <= |frames[k]| <= largest {
      FramesAreFrames(arrivals, src, port, k);
    }
    OpenIsShort(frames, l.closed, l.open);
    forall i | 0 <= i < |l.closed|
      ensures |l.closed[i].packets| <= (if l.closed[i].emitted then 16 else 15)
      ensures l.closed[i].emitted ==> 512 <= |Flat(l.closed[i].packets)| <= 511 + largest
    {
      ClosedIsShort(frames, l.closed, l.open, i, largest);
    }
  }

  lemma OpenIsShort(frames: seq<Bytes>, closed: seq<Segment>, open: seq<Bytes>)
    requires Segmentation(frames, closed, open)
    requires forall k :: 0 <= k < |frames| ==> 34 <= |frames[k]|
    ensures |open| <= 15
  {
    forall k | 0 <= k < |open| ensures 34 <= |open[k]| {
      assert open[k] == frames[|AllPackets(closed)| + k];
    }
    OpenBound(open);
  }

  lemma ClosedIsShort(frames: seq<Bytes>, closed: seq<Segment>, open: seq<Bytes>, i: nat, largest: nat)
    requires Segmentation(frames, closed, open) && i < |closed|
    requires forall k :: 0 <= k < |frames| ==> 34 <= |frames[k]| <= largest
    ensures |closed[i].packets| <= (if closed[i].emitted then 16 else 15)
    ensures closed[i].emitted ==> 512 <= |Flat(closed[i].packets)| <= 511 + largest
  {
    forall j | 0 <= j < |closed[i].packets| ensures 34 <= |closed[i].packets[j]| <= largest {
      PacketInAll(closed, i, j);
      var k :| 0 <= k < |AllPackets(closed)| && AllPackets(closed)[k] == closed[i].packets[j];
      assert frames[k] == AllPackets(closed)[k];
    }
    SegmentBound(closed[i], largest);
  }
}
