/**
 Detect, alert, block: the data plane behind the XDP filter, the agent's deduplication of what it reports,
 and the block that answers. The filter drops a frame before the capture sees it, as the architecture
 description puts it (doc/architecture/data_plane.md:352).
 */
module ClosedLoop {
  import opened Common
  import opened Ipv4Text
  import opened FlowLedger
  import opened Scoring
  import opened Sniffer
  import opened DataPlane
  import opened Detection
  import Firewall
  import AlertDedup

  datatype Event =
    | Arrive(a: Arrival)
    | Block(args: Option<string>, env: Firewall.Env)

  datatype System = System(host: Firewall.Host, plane: Plane)

  ghost function Step(s: System, cfg: Config, e: Event): System
    requires IsExp(cfg.engine.exp)
  {
    match e
    case Arrive(a) =>
      var (host, verdict) := Firewall.Filter(s.host, a.frame);
      System(host, if verdict == Firewall.Drop then s.plane else Receive(s.plane, cfg, a))
    case Block(args, env) => s.(host := Firewall.Execute(s.host, args, env).0)
  }

  ghost function After(cfg: Config, events: seq<Event>): System
    requires IsExp(cfg.engine.exp)
  {
    if events == [] then System(Firewall.FRESH, IDLE)
    else Step(After(cfg, events[..|events| - 1]), cfg, events[|events| - 1])
  }

  // ---- The two halves of the system ------------------------------------------------------------

  function HostEvent(e: Event): Firewall.Event
  {
    match e
    case Arrive(a) => Firewall.Frame(a.frame)
    case Block(args, env) => Firewall.Block(args, env)
  }

  /** The host's half of a run. */
  function HostEvents(events: seq<Event>): seq<Firewall.Event>
  {
    seq(|events|, i requires 0 <= i < |events| => HostEvent(events[i]))
  }

  function HostAfter(events: seq<Event>): Firewall.Host
  {
    Firewall.After(HostEvents(events))
  }

  /** The frame of an event, unless the filter drops it. */
  function Through(h: Firewall.Host, e: Event): seq<Arrival>
  {
    if e.Arrive? && Firewall.Filter(h, e.a.frame).1 == Firewall.Pass then [e.a] else []
  }

  /** The frames the filter lets through. */
  function Passed(events: seq<Event>): seq<Arrival>
  {
    if events == [] then [] else
      Passed(events[..|events| - 1]) + Through(HostAfter(events[..|events| - 1]), events[|events| - 1])
  }

  lemma LoopSnoc(cfg: Config, events: seq<Event>, e: Event)
    requires IsExp(cfg.engine.exp)
    ensures After(cfg, events + [e]) == Step(After(cfg, events), cfg, e)
    ensures HostAfter(events + [e]) == Firewall.Apply(HostAfter(events), HostEvent(e))
    ensures Passed(events + [e]) == Passed(events) + Through(HostAfter(events), e)
  {
    assert (events + [e])[..|events|] == events;
    assert HostEvents(events + [e])[..|events|] == HostEvents(events);
  }

  /** The loop is the firewall run beside the data plane fed with what passes. */
  lemma {:induction false} HalvesOfTheLoop(cfg: Config, events: seq<Event>)
    requires IsExp(cfg.engine.exp)
    ensures After(cfg, events) == System(HostAfter(events), AfterFrames(cfg, Passed(events)))
  {
    if events != [] {
      var before, e := events[..|events| - 1], events[|events| - 1];
      assert events == before + [e];
      HalvesOfTheLoop(cfg, before);
      LoopSnoc(cfg, before, e);
      if Through(HostAfter(before), e) == [] {
        assert Passed(events) == Passed(before);
      } else {
        AfterOneMore(cfg, Passed(before), e.a);
      }
    }
  }

  /** One arrival, over its bytes: a frame whose source is in the map leaves the data plane alone; any other
      passes, and the data plane receives it. */
  lemma ArrivalExactly(cfg: Config, events: seq<Event>, a: Arrival)
    requires IsExp(cfg.engine.exp)
    ensures var s, s' := After(cfg, events), After(cfg, events + [Arrive(a)]);
            var f := a.frame;
            if |f| >= 34 && f[12] == 8 && f[13] == 0 && f[26..30] in s.host.blacklist then
              s'.plane == s.plane && Passed(events + [Arrive(a)]) == Passed(events)
            else
              s' == System(s.host, Receive(s.plane, cfg, a)) && Passed(events + [Arrive(a)]) == Passed(events) + [a]
  {
    LoopSnoc(cfg, events, Arrive(a));
    HalvesOfTheLoop(cfg, events);
    Firewall.FilterExactly(After(cfg, events).host, a.frame);
    assert Passed(events) + [] == Passed(events);
  }

  /** A call of block changes the host alone. */
  lemma CallExactly(cfg: Config, events: seq<Event>, args: Option<string>, env: Firewall.Env)
    requires IsExp(cfg.engine.exp)
    ensures var s := After(cfg, events);
            && After(cfg, events + [Block(args, env)]) == System(Firewall.Execute(s.host, args, env).0, s.plane)
            && Passed(events + [Block(args, env)]) == Passed(events)
  {
    LoopSnoc(cfg, events, Block(args, env));
    assert Passed(events) + [] == Passed(events);
  }

  /** Event `i` of the loop answered success by ebpf_xdp for `a`. */
  predicate Writes(events: seq<Event>, i: nat, a: Addr)
    requires i < |events|
  {
    Firewall.Writes(HostEvents(events), i, a)
  }

  // ---- A blocked sender is silent --------------------------------------------------------------

  lemma BlockedStaysBlocked(events: seq<Event>, more: seq<Event>, i: nat, a: Addr)
    requires i < |events| && Writes(events, i, a)
    ensures a in HostAfter(events + more).blacklist
  {
    var all := HostEvents(events + more);
    assert all[..i] == HostEvents(events)[..i] && all[i] == HostEvents(events)[i];
    assert Firewall.Writes(all, i, a);
    Firewall.BlacklistIsWhatWasWritten(all, a);
  }

  lemma BlockedFrameStops(h: Firewall.Host, e: Event, a: Addr, port: Port)
    requires a in h.blacklist
    ensures e.Arrive? && IsFrom(e.a.frame, a, port) ==> Through(h, e) == []
  {
    if e.Arrive? && IsFrom(e.a.frame, a, port) {
      DeliveredIsCompleteIpv4(e.a.frame);
      IsFromSender(e.a.frame, a, port);
    }
  }

  lemma FramesSnoc(arrivals: seq<Arrival>, next: seq<Arrival>, a: Addr, port: Port)
    requires |next| <= 1 && (next != [] ==> !IsFrom(next[0].frame, a, port))
    ensures FramesFrom(arrivals + next, a, port) == FramesFrom(arrivals, a, port)
  {
    if next == [] {
      assert arrivals + next == arrivals;
    } else {
      assert (arrivals + next)[..|arrivals|] == arrivals;
    }
  }

  lemma OthersNoteNotMine(p: Plane, cfg: Config, arrival: Arrival, a: Addr, port: Port)
    requires IsExp(cfg.engine.exp) && !IsFrom(arrival.frame, a, port)
    ensures NotesFor(Receive(p, cfg, arrival).written, a, port) == NotesFor(p.written, a, port)
  {
    if Sniff(arrival.frame).Some? {
      var d := Sniff(arrival.frame).value;
      DeliverWritesOneNote(p, cfg, KeyFor(d.srcIp, d.dstPort), d, arrival.now, arrival.sweepNow);
      var p' := Receive(p, cfg, arrival);
      if p'.written != p.written {
        var n :| p'.written == p.written + [n] && n.srcIp == d.srcIp && n.dstPort == d.dstPort;
        NotesSnoc(p.written, n, a, port);
        assert NotesFor(p.written, a, port) + [] == NotesFor(p.written, a, port);
      }
    }
  }

  lemma SilentFrames(h: Firewall.Host, arrivals: seq<Arrival>, e: Event, a: Addr, port: Port)
    requires a in h.blacklist
    ensures FramesFrom(arrivals + Through(h, e), a, port) == FramesFrom(arrivals, a, port)
  {
    BlockedFrameStops(h, e, a, port);
    FramesSnoc(arrivals, Through(h, e), a, port);
  }

  lemma SilentNote(s: System, cfg: Config, e: Event, a: Addr, port: Port)
    requires IsExp(cfg.engine.exp) && a in s.host.blacklist
    ensures NotesFor(Step(s, cfg, e).plane.written, a, port) == NotesFor(s.plane.written, a, port)
  {
    BlockedFrameStops(s.host, e, a, port);
    if Through(s.host, e) != [] {
      OthersNoteNotMine(s.plane, cfg, e.a, a, port);
    }
  }

  lemma PassedOneMore(events: seq<Event>, e: Event)
    ensures Passed(events + [e]) == Passed(events) + Through(HostAfter(events), e)
  {
    assert (events + [e])[..|events|] == events;
  }

  lemma SilentInputStep(events: seq<Event>, e: Event, a: Addr, port: Port)
    requires a in HostAfter(events).blacklist
    ensures FramesFrom(Passed(events + [e]), a, port) == FramesFrom(Passed(events), a, port)
  {
    PassedOneMore(events, e);
    SilentFrames(HostAfter(events), Passed(events), e, a, port);
  }

  lemma SilentOutputStep(cfg: Config, events: seq<Event>, e: Event, a: Addr, port: Port)
    requires IsExp(cfg.engine.exp) && a in HostAfter(events).blacklist
    ensures NotesFor(After(cfg, events + [e]).plane.written, a, port) ==
            NotesFor(After(cfg, events).plane.written, a, port)
  {
    HalvesOfTheLoop(cfg, events);
    SilentNote(After(cfg, events), cfg, e, a, port);
    LoopSnoc(cfg, events, e);
  }

  lemma LastApart(events: seq<Event>, more: seq<Event>)
    requires more != []
    ensures events + more[..|more| - 1] + [more[|more| - 1]] == events + more
  {
  }

  /** After a write no frame of `a` passes, whatever else arrives or is blocked. */
  lemma {:induction false} SilentInput(events: seq<Event>, more: seq<Event>, i: nat, a: Addr, port: Port)
    requires i < |events| && Writes(events, i, a)
    ensures FramesFrom(Passed(events + more), a, port) == FramesFrom(Passed(events), a, port)
  {
    if more == [] {
      assert events + more == events;
    } else {
      var front, e := more[..|more| - 1], more[|more| - 1];
      SilentInput(events, front, i, a, port);
      BlockedStaysBlocked(events, front, i, a);
      SilentInputStep(events + front, e, a, port);
      LastApart(events, more);
    }
  }

  /** Nor is it named again. */
  lemma {:induction false} SilentOutput(cfg: Config, events: seq<Event>, more: seq<Event>, i: nat, a: Addr, port: Port)
    requires IsExp(cfg.engine.exp)
    requires i < |events| && Writes(events, i, a)
    ensures NotesFor(After(cfg, events + more).plane.written, a, port) ==
            NotesFor(After(cfg, events).plane.written, a, port)
  {
    if more == [] {
      assert events + more == events;
    } else {
      var front, e := more[..|more| - 1], more[|more| - 1];
      SilentOutput(cfg, events, front, i, a, port);
      BlockedStaysBlocked(events, front, i, a);
      SilentOutputStep(cfg, events + front, e, a, port);
      LastApart(events, more);
    }
  }

  /** From here on, whatever happens: no frame of `a` gets past the filter or into the tracker, and no
      notification names `a` again. */
  ghost predicate Silenced(cfg: Config, events: seq<Event>, a: Addr)
    requires IsExp(cfg.engine.exp)
  {
    forall more: seq<Event> :: SilentDuring(cfg, events, more, a)
  }

  ghost predicate SilentDuring(cfg: Config, events: seq<Event>, more: seq<Event>, a: Addr)
    requires IsExp(cfg.engine.exp)
  {
    var s, s' := After(cfg, events), After(cfg, events + more);
    && (forall port: Port :: NotesFor(s'.plane.written, a, port) == NotesFor(s.plane.written, a, port))
    && (forall port: Port :: Fed(s'.plane.history, KeyOf(a, port)) == Fed(s.plane.history, KeyOf(a, port)))
    && (forall frame: Bytes :: |frame| >= 34 && frame[12] == 8 && frame[13] == 0 && frame[26..30] == a ==>
          Firewall.Filter(s'.host, frame).1 == Firewall.Drop)
  }

  lemma SilentPort(cfg: Config, events: seq<Event>, more: seq<Event>, i: nat, a: Addr, port: Port)
    requires IsExp(cfg.engine.exp)
    requires i < |events| && Writes(events, i, a)
    ensures var s, s' := After(cfg, events), After(cfg, events + more);
            && NotesFor(s'.plane.written, a, port) == NotesFor(s.plane.written, a, port)
            && Fed(s'.plane.history, KeyOf(a, port)) == Fed(s.plane.history, KeyOf(a, port))
  {
    SilentInput(events, more, i, a, port);
    SilentOutput(cfg, events, more, i, a, port);
    HalvesOfTheLoop(cfg, events + more);
    HalvesOfTheLoop(cfg, events);
    RunKeepsStep(cfg, Passed(events), a, port);
    RunKeepsStep(cfg, Passed(events + more), a, port);
  }

  /** Once execute has answered success by ebpf_xdp for a sender, the sender is silenced. */
  lemma {:induction false} BlockedSenderIsSilent(cfg: Config, events: seq<Event>, i: nat, a: Addr)
    requires IsExp(cfg.engine.exp)
    requires i < |events| && Writes(events, i, a)
    ensures Silenced(cfg, events, a)
  {
    forall more: seq<Event> ensures SilentDuring(cfg, events, more, a) {
      forall port: Port
        ensures NotesFor(After(cfg, events + more).plane.written, a, port) ==
                NotesFor(After(cfg, events).plane.written, a, port)
        ensures Fed(After(cfg, events + more).plane.history, KeyOf(a, port)) ==
                Fed(After(cfg, events).plane.history, KeyOf(a, port))
      {
        SilentPort(cfg, events, more, i, a, port);
      }
      BlockedStaysBlocked(events, more, i, a);
      HalvesOfTheLoop(cfg, events + more);
    }
  }

  lemma {:induction false} MapHoldsExactlyTheWritten(cfg: Config, events: seq<Event>, a: Addr)
    requires IsExp(cfg.engine.exp)
    ensures a in After(cfg, events).host.blacklist <==> exists i :: 0 <= i < |events| && Writes(events, i, a)
  {
    HalvesOfTheLoop(cfg, events);
    Firewall.BlacklistIsWhatWasWritten(HostEvents(events), a);
    if a in After(cfg, events).host.blacklist {
      var i :| 0 <= i < |HostEvents(events)| && Firewall.Writes(HostEvents(events), i, a);
      assert Writes(events, i, a);
    }
    forall i | 0 <= i < |events| && Writes(events, i, a) ensures Firewall.EverWritten(HostEvents(events), a) {
      assert Firewall.Writes(HostEvents(events), i, a);
    }
  }

  lemma BareSegmentIsFrom(a: Addr, port: Port)
    ensures CompleteIpv4(BareSegment(a, port)) && SourceOf(BareSegment(a, port)) == a
  {
    BareSegmentIsDelivered(a, port);
    DeliveredIsCompleteIpv4(BareSegment(a, port));
    PrintInjective(SourceOf(BareSegment(a, port)), a);
  }

  /** A sender is silenced exactly when the kernel map holds its address: being named, sending more or an
      iptables rule makes no difference. */
  lemma {:induction false} SilencedExactly(cfg: Config, events: seq<Event>, a: Addr)
    requires IsExp(cfg.engine.exp)
    ensures Silenced(cfg, events, a) <==> a in After(cfg, events).host.blacklist
  {
    if Silenced(cfg, events, a) {
      assert SilentDuring(cfg, events, [], a);
      assert events + [] == events;
      BareSegmentIsFrom(a, 0);
      CompleteExactly(BareSegment(a, 0));
      assert Firewall.Filter(After(cfg, events).host, BareSegment(a, 0)).1 == Firewall.Drop;
    }
    MapHoldsExactlyTheWritten(cfg, events, a);
    if a in After(cfg, events).host.blacklist {
      var i :| 0 <= i < |events| && Writes(events, i, a);
      BlockedSenderIsSilent(cfg, events, i, a);
    }
  }

  // ---- From a report to its investigation ------------------------------------------------------

  /** The agent reads the notifications in order, each with its own clock reading. */
  ghost predicate ReadBy(written: seq<Notification>, readings: seq<AlertDedup.Reading>)
  {
    |readings| == |written| && forall k :: 0 <= k < |written| ==> readings[k].ip == written[k].srcIp
  }

  /** Every report is investigated, or the same address was less than a window before, whatever the clock does. */
  lemma ReportIsInvestigated(readings: seq<AlertDedup.Reading>, k: nat, window: real)
    requires k < |readings| && readings[k].now >= window
    ensures exists j :: 0 <= j <= k && AlertDedup.Accepts(readings, j, window) && readings[j].ip == readings[k].ip &&
                        (j == k || readings[k].now - readings[j].now < window)
  {
    if !AlertDedup.Accepts(readings, k, window) {
      AlertDedup.RejectionPointsBack(readings, k, window);
    }
  }

  /** An address is investigated exactly when an emitted segment of its sender scored above the threshold and
      some alert for it was read past the first window of the epoch. */
  lemma {:induction false} InvestigatedExactlyWhenHot(cfg: Config, events: seq<Event>, a: Addr,
                                                      readings: seq<AlertDedup.Reading>, window: real)
    requires IsExp(cfg.engine.exp)
    requires ReadBy(After(cfg, events).plane.written, readings)
    ensures AlertDedup.Investigated(readings, window, Print(a)) <==>
            Hot(cfg, Passed(events), a) && AlertDedup.PastWindow(readings, window, Print(a))
  {
    HalvesOfTheLoop(cfg, events);
    NamedExactlyWhenHot(cfg, Passed(events), a);
    AlertDedup.InvestigatedExactly(readings, window, Print(a));
    var written := After(cfg, events).plane.written;
    if AlertDedup.PastWindow(readings, window, Print(a)) {
      var k :| 0 <= k < |readings| && readings[k].ip == Print(a) && readings[k].now >= window;
      assert written[k].srcIp == Print(a);
    }
  }

  // ---- From a block to silence -----------------------------------------------------------------

  lemma WritesLast(events: seq<Event>, args: Option<string>, env: Firewall.Env, a: Addr)
    ensures Writes(events + [Block(args, env)], |events|, a) <==>
            && Parse(Firewall.IpArgument(args)) == Some(a)
            && Firewall.Execute(HostAfter(events), args, env).1
               == Firewall.Blocked(Firewall.EbpfXdp, Firewall.IpArgument(args))
  {
    var asked := HostEvents(events + [Block(args, env)]);
    assert asked[..|events|] == HostEvents(events);
    assert asked[|events|] == Firewall.Block(args, env);
  }

  /** The text of a notification, passed unchanged to block, becomes the key the filter looks up. */
  lemma {:induction false} AskedIsWritten(cfg: Config, events: seq<Event>, a: Addr, env: Firewall.Env)
    requires IsExp(cfg.engine.exp)
    ensures Writes(events + [Block(Some(Print(a)), env)], |events|, a) <==>
            var blacklist := After(cfg, events).host.blacklist;
            env.mapOpens && env.updateAllowed && (a in blacklist || |blacklist| < 100000)
  {
    HalvesOfTheLoop(cfg, events);
    WritesLast(events, Some(Print(a)), env, a);
    Firewall.PrintedIsWritten(HostAfter(events), a, env);
  }

  /** A call of block silences a sender exactly when its text, up to the first NUL, is the sender's address and
      the map takes it; or when the sender was silenced before. The iptables fallback also answers success, but
      its rule stands behind the capture. */
  lemma {:induction false} BlockSilencesExactly(cfg: Config, events: seq<Event>, args: Option<string>, a: Addr,
                                                env: Firewall.Env)
    requires IsExp(cfg.engine.exp)
    ensures Silenced(cfg, events + [Block(args, env)], a) <==>
            || a in After(cfg, events).host.blacklist
            || (CString(Firewall.IpArgument(args)) == Print(a) && Firewall.Taken(After(cfg, events).host, a, env))
  {
    SilencedExactly(cfg, events + [Block(args, env)], a);
    LoopSnoc(cfg, events, Block(args, env));
    Firewall.BlockAdds(After(cfg, events).host, args, env, a);
  }

  /** The printed address is its own text. */
  lemma {:induction false} BlockingSilences(cfg: Config, events: seq<Event>, a: Addr, env: Firewall.Env)
    requires IsExp(cfg.engine.exp)
    ensures Silenced(cfg, events + [Block(Some(Print(a)), env)], a) <==> Firewall.Taken(After(cfg, events).host, a, env)
  {
    BlockSilencesExactly(cfg, events, Some(Print(a)), a, env);
    RoundTrip(a);
    ParseExactlyPrinted(Print(a), a);
  }

  // ---- Which senders are dropped ---------------------------------------------------------------

  /** The agent blocks only what was reported to it: every text passed to block is the address of a
      notification written before. */
  ghost predicate Obedient(cfg: Config, events: seq<Event>)
    requires IsExp(cfg.engine.exp)
  {
    forall j :: 0 <= j < |events| && events[j].Block? ==>
      Named(After(cfg, events[..j]).plane.written, Firewall.IpArgument(events[j].args))
  }

  /** What an obedient agent wrote into the map is the address of a sender that was hot by then. */
  lemma {:induction false} WrittenIsHot(cfg: Config, events: seq<Event>, j: nat, a: Addr)
    requires IsExp(cfg.engine.exp) && Obedient(cfg, events)
    requires j < |events| && Writes(events, j, a)
    ensures Hot(cfg, Passed(events[..j]), a)
  {
    var ip := Firewall.IpArgument(events[j].args);
    WritesIsBlock(events, j, a);
    var written := After(cfg, events[..j]).plane.written;
    HalvesOfTheLoop(cfg, events[..j]);
    var k :| 0 <= k < |written| && written[k].srcIp == ip;
    NotesAreAttributed(cfg, Passed(events[..j]));
    assert NamesSomeone(written[k]);
    var src: Addr, port: Port :| Names(written[k], src, port);
    RoundTrip(src);
    NamedExactlyWhenHot(cfg, Passed(events[..j]), a);
  }

  lemma WritesIsBlock(events: seq<Event>, j: nat, a: Addr)
    requires j < |events| && Writes(events, j, a)
    ensures events[j].Block? && Parse(Firewall.IpArgument(events[j].args)) == Some(a)
  {
    assert HostEvents(events)[j] == HostEvent(events[j]);
  }

  /** The sender was hot, and the map took its address after that. */
  ghost predicate HotAndBlocked(cfg: Config, events: seq<Event>, a: Addr)
    requires IsExp(cfg.engine.exp)
  {
    exists j :: 0 <= j < |events| && Writes(events, j, a) && Hot(cfg, Passed(events[..j]), a)
  }

  /** Behind an obedient agent the map holds exactly the addresses of such senders: they alone are silenced. */
  lemma {:induction false} SilencesExactlyTheHot(cfg: Config, events: seq<Event>, a: Addr)
    requires IsExp(cfg.engine.exp) && Obedient(cfg, events)
    ensures a in After(cfg, events).host.blacklist <==> HotAndBlocked(cfg, events, a)
    ensures Silenced(cfg, events, a) <==> HotAndBlocked(cfg, events, a)
  {
    SilencedExactly(cfg, events, a);
    MapHoldsExactlyTheWritten(cfg, events, a);
    forall j | 0 <= j < |events| && Writes(events, j, a) ensures Hot(cfg, Passed(events[..j]), a) {
      WrittenIsHot(cfg, events, j, a);
    }
  }

  /** For any model and threshold: behind an obedient agent the frames dropped are exactly the complete IPv4
      frames of senders with an emitted segment above the threshold before they were blocked. */
  lemma {:induction false} DropsExactlyTheHot(cfg: Config, events: seq<Event>, frame: Bytes)
    requires IsExp(cfg.engine.exp) && Obedient(cfg, events)
    ensures Firewall.Filter(After(cfg, events).host, frame).1 == Firewall.Drop <==>
            |frame| >= 34 && frame[12] == 8 && frame[13] == 0 && HotAndBlocked(cfg, events, frame[26..30])
  {
    Firewall.FilterExactly(After(cfg, events).host, frame);
    if |frame| >= 34 {
      SilencesExactlyTheHot(cfg, events, frame[26..30]);
    }
  }

  lemma {:induction false} ObedientSnoc(cfg: Config, events: seq<Event>, e: Event)
    requires IsExp(cfg.engine.exp) && Obedient(cfg, events)
    ensures Obedient(cfg, events + [e]) <==>
            (e.Block? ==> Named(After(cfg, events).plane.written, Firewall.IpArgument(e.args)))
  {
    var all := events + [e];
    assert all[..|events|] == events && all[|events|] == e;
    forall j | 0 <= j < |events| ensures all[..j] == events[..j] && all[j] == events[j] {
    }
  }

  lemma StepOnlyAppends(s: System, cfg: Config, e: Event)
    requires IsExp(cfg.engine.exp)
    ensures s.plane.written <= Step(s, cfg, e).plane.written
  {
    if Through(s.host, e) != [] && Sniff(e.a.frame).Some? {
      var d := Sniff(e.a.frame).value;
      DeliverWritesOneNote(s.plane, cfg, KeyFor(d.srcIp, d.dstPort), d, e.a.now, e.a.sweepNow);
    }
  }

  lemma {:induction false} WrittenOnlyGrows(cfg: Config, all: seq<Event>, n: nat)
    requires IsExp(cfg.engine.exp) && n <= |all|
    ensures After(cfg, all[..n]).plane.written <= After(cfg, all).plane.written
  {
    if n == |all| {
      assert all[..n] == all;
    } else {
      var front, e := all[..|all| - 1], all[|all| - 1];
      WrittenOnlyGrows(cfg, front, n);
      assert front[..n] == all[..n];
      StepOnlyAppends(After(cfg, front), cfg, e);
    }
  }

  /** Being hot is for good: whatever happens later, the sender stays one the agent may block. */
  lemma {:induction false} HotLasts(cfg: Config, events: seq<Event>, more: seq<Event>, a: Addr)
    requires IsExp(cfg.engine.exp) && Hot(cfg, Passed(events), a)
    ensures Hot(cfg, Passed(events + more), a)
  {
    HalvesOfTheLoop(cfg, events);
    HalvesOfTheLoop(cfg, events + more);
    NamedExactlyWhenHot(cfg, Passed(events), a);
    assert (events + more)[..|events|] == events;
    WrittenOnlyGrows(cfg, events + more, |events|);
    var written, written' := After(cfg, events).plane.written, After(cfg, events + more).plane.written;
    var k :| 0 <= k < |written| && written[k].srcIp == Print(a);
    assert written'[k] == written[k];
    NamedExactlyWhenHot(cfg, Passed(events + more), a);
  }

  /** The whole loop, up to the agent's own judgement, for any model, threshold, clock and outcome of the system
      calls. An obedient agent may block a sender exactly when an emitted segment of the sender scored above the
      threshold; exactly then its address has been investigated, unless every alert for it was read in the first
      window of the epoch; and the block silences it exactly when the map takes it. */
  lemma {:induction false} HotLeadsToSilence(cfg: Config, events: seq<Event>, a: Addr, env: Firewall.Env,
                                             readings: seq<AlertDedup.Reading>, window: real)
    requires IsExp(cfg.engine.exp) && Obedient(cfg, events)
    requires ReadBy(After(cfg, events).plane.written, readings)
    ensures var blocked := events + [Block(Some(Print(a)), env)];
            && (Obedient(cfg, blocked) <==> Hot(cfg, Passed(events), a))
            && (AlertDedup.Investigated(readings, window, Print(a)) <==>
                Hot(cfg, Passed(events), a) && AlertDedup.PastWindow(readings, window, Print(a)))
            && (Silenced(cfg, blocked, a) <==> Firewall.Taken(After(cfg, events).host, a, env))
            && (Obedient(cfg, blocked) ==> (Silenced(cfg, blocked, a) <==> HotAndBlocked(cfg, blocked, a)))
  {
    var e := Block(Some(Print(a)), env);
    ObedientSnoc(cfg, events, e);
    HalvesOfTheLoop(cfg, events);
    NamedExactlyWhenHot(cfg, Passed(events), a);
    InvestigatedExactlyWhenHot(cfg, events, a, readings, window);
    BlockingSilences(cfg, events, a, env);
    if Obedient(cfg, events + [e]) {
      SilencesExactlyTheHot(cfg, events + [e], a);
    }
  }

  // ---- Without a model: the same for signatures ------------------------------------------------

  lemma {:induction false} SignatureIsInvestigated(cfg: Config, events: seq<Event>, a: Addr,
                                                   readings: seq<AlertDedup.Reading>, window: real)
    requires Heuristic(cfg)
    requires ReadBy(After(cfg, events).plane.written, readings)
    ensures AlertDedup.Investigated(readings, window, Print(a)) <==>
            Convicted(cfg, Passed(events), a) && AlertDedup.PastWindow(readings, window, Print(a))
  {
    InvestigatedExactlyWhenHot(cfg, events, a, readings, window);
    HotIffConvicted(cfg, Passed(events), a);
  }

  /** The sender was convicted, and the map took its address after that. */
  ghost predicate ConvictedAndBlocked(cfg: Config, events: seq<Event>, a: Addr)
    requires IsExp(cfg.engine.exp)
  {
    exists j :: 0 <= j < |events| && Writes(events, j, a) && Convicted(cfg, Passed(events[..j]), a)
  }

  lemma {:induction false} BlockedHotIffConvicted(cfg: Config, events: seq<Event>, a: Addr)
    requires Heuristic(cfg)
    ensures HotAndBlocked(cfg, events, a) <==> ConvictedAndBlocked(cfg, events, a)
  {
    forall j | 0 <= j < |events|
      ensures Hot(cfg, Passed(events[..j]), a) <==> Convicted(cfg, Passed(events[..j]), a)
    {
      HotIffConvicted(cfg, Passed(events[..j]), a);
    }
  }

  lemma {:induction false} DropsExactlyTheConvicted(cfg: Config, events: seq<Event>, frame: Bytes)
    requires Heuristic(cfg) && Obedient(cfg, events)
    ensures Firewall.Filter(After(cfg, events).host, frame).1 == Firewall.Drop <==>
            |frame| >= 34 && frame[12] == 8 && frame[13] == 0 && ConvictedAndBlocked(cfg, events, frame[26..30])
  {
    DropsExactlyTheHot(cfg, events, frame);
    if |frame| >= 34 {
      BlockedHotIffConvicted(cfg, events, frame[26..30]);
    }
  }

  lemma {:induction false} ConvictionLasts(cfg: Config, events: seq<Event>, more: seq<Event>, a: Addr)
    requires Heuristic(cfg) && Convicted(cfg, Passed(events), a)
    ensures Convicted(cfg, Passed(events + more), a)
  {
    HotIffConvicted(cfg, Passed(events), a);
    HotLasts(cfg, events, more, a);
    HotIffConvicted(cfg, Passed(events + more), a);
  }

  lemma {:induction false} SignatureLeadsToSilence(cfg: Config, events: seq<Event>, a: Addr, env: Firewall.Env,
                                                   readings: seq<AlertDedup.Reading>, window: real)
    requires Heuristic(cfg) && Obedient(cfg, events)
    requires ReadBy(After(cfg, events).plane.written, readings)
    ensures var blocked := events + [Block(Some(Print(a)), env)];
            && (Obedient(cfg, blocked) <==> Convicted(cfg, Passed(events), a))
            && (AlertDedup.Investigated(readings, window, Print(a)) <==>
                Convicted(cfg, Passed(events), a) && AlertDedup.PastWindow(readings, window, Print(a)))
            && (Silenced(cfg, blocked, a) <==> Firewall.Taken(After(cfg, events).host, a, env))
            && (Obedient(cfg, blocked) ==> (Silenced(cfg, blocked, a) <==> ConvictedAndBlocked(cfg, blocked, a)))
  {
    HotLeadsToSilence(cfg, events, a, env, readings, window);
    HotIffConvicted(cfg, Passed(events), a);
    BlockedHotIffConvicted(cfg, events + [Block(Some(Print(a)), env)], a);
  }
}
