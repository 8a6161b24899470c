/** What a whole run of the flow tracker does to one key, whatever else is interleaved with it. */
module FlowLedger {
  import opened Common
  import opened FlowTracker

  // ---- What the tracker is observed to do to one key -------------------------------------------

  /** A buffer leaving the map: handed to inference, or erased by a sweep. */
  datatype Cut = Cut(bytes: Bytes, emitted: bool)

  /** The buffers of `key` that left the map during the run, in order. */
  function Cuts(events: seq<Event>, key: FlowKey): seq<Cut>
  {
    if events == [] then [] else
      Cuts(events[..|events| - 1], key) + CutAt(Run(events[..|events| - 1]), events[|events| - 1], key)
  }

  function CutAt(before: Flows, e: Event, key: FlowKey): seq<Cut>
  {
    var (after, payload) := Apply(before, e);
    match e
    case Packet(k, _, _) => if k == key && payload != [] then [Cut(payload, true)] else []
    case Sweep(_, _) => if key in before && key !in after then [Cut(before[key].buffer, false)] else []
  }

  function CutBytes(cuts: seq<Cut>): Bytes
  {
    if cuts == [] then [] else CutBytes(cuts[..|cuts| - 1]) + cuts[|cuts| - 1].bytes
  }

  /** The packets of `key` in the run, in order. */
  function Fed(events: seq<Event>, key: FlowKey): seq<Bytes>
  {
    if events == [] then [] else
      var e := events[|events| - 1];
      Fed(events[..|events| - 1], key) + if e.Packet? && e.key == key then [e.bytes] else []
  }

  // ---- The reference: cutting one packet stream ------------------------------------------------

  /** A run of whole packets. */
  datatype Segment = Segment(packets: seq<Bytes>, emitted: bool)

  datatype Ledger = Ledger(closed: seq<Segment>, open: seq<Bytes>, lastSeen: int)

  /** The ledger of one key knows no map, no other key and no 4096-byte guard. */
  function Enter(l: Ledger, e: Event, key: FlowKey): Ledger
  {
    match e
    case Packet(k, bytes, now) =>
      if k != key then l
      else if |Flat(l.open + [bytes])| >= 512 then
        Ledger(l.closed + [Segment(l.open + [bytes], true)], [], now)
      else Ledger(l.closed, l.open + [bytes], now)
    case Sweep(now, timeout) =>
      if l.open != [] && now - l.lastSeen > timeout then
        Ledger(l.closed + [Segment(l.open, false)], [], l.lastSeen)
      else l
  }

  function LedgerOf(events: seq<Event>, key: FlowKey): Ledger
  {
    if events == [] then Ledger([], [], 0)
    else Enter(LedgerOf(events[..|events| - 1], key), events[|events| - 1], key)
  }

  function CutsOf(segs: seq<Segment>): seq<Cut>
  {
    seq(|segs|, i requires 0 <= i < |segs| => Cut(Flat(segs[i].packets), segs[i].emitted))
  }

  function AllPackets(segs: seq<Segment>): seq<Bytes>
  {
    if segs == [] then [] else AllPackets(segs[..|segs| - 1]) + segs[|segs| - 1].packets
  }

  /** Fewer than 512 bytes, and so for every prefix. */
  ghost predicate Underfull(packets: seq<Bytes>)
  {
    forall j :: 0 <= j <= |packets| ==> |Flat(packets[..j])| < 512
  }

  /** The shortest run of whole packets that reaches 512 bytes. */
  ghost predicate ShortestReady(packets: seq<Bytes>)
  {
    && |Flat(packets)| >= 512
    && forall j :: 0 <= j < |packets| ==> |Flat(packets[..j])| < 512
  }

  ghost predicate GoodSegment(s: Segment)
  {
    && s.packets != []
    && if s.emitted then ShortestReady(s.packets) else Underfull(s.packets)
  }

  /** `segs` and then `open` is a greedy segmentation of the packet list `fed`. */
  ghost predicate Segmentation(fed: seq<Bytes>, segs: seq<Segment>, open: seq<Bytes>)
  {
    && AllPackets(segs) + open == fed
    && (forall i :: 0 <= i < |segs| ==> GoodSegment(segs[i]))
    && Underfull(open)
  }

  // ---- The tracker refines the reference -------------------------------------------------------

  /** The state and the cuts of `key` are those of its own ledger, for every interleaving. */
  lemma {:induction false} TrackerRefinesLedger(events: seq<Event>, key: FlowKey)
    ensures var l := LedgerOf(events, key);
            && Cuts(events, key) == CutsOf(l.closed)
            && Agrees(Run(events), l, key)
  {
    if events != [] {
      var before := events[..|events| - 1];
      TrackerRefinesLedger(before, key);
      ApplyRefinesEnter(Run(before), LedgerOf(before, key), events[|events| - 1], key);
    }
  }

  ghost predicate Agrees(flows: Flows, l: Ledger, key: FlowKey)
  {
    && (key in flows <==> l.open != [])
    && (key in flows ==> flows[key] == FlowState(Flat(l.open), l.lastSeen))
    && |Flat(l.open)| < 512
  }

  lemma ApplyRefinesEnter(flows: Flows, l: Ledger, e: Event, key: FlowKey)
    requires Agrees(flows, l, key)
    ensures Agrees(Apply(flows, e).0, Enter(l, e, key), key)
    ensures l.closed <= Enter(l, e, key).closed
    ensures CutsOf(Enter(l, e, key).closed) == CutsOf(l.closed) + CutAt(flows, e, key)
  {
    if e.Packet? && e.key == key {
      assert Held(flows, key) == Flat(l.open);
      FlatSnoc(l.open, e.bytes);
    }
  }

  lemma FlatSnoc(packets: seq<Bytes>, last: Bytes)
    ensures Flat(packets + [last]) == Flat(packets) + last
  {
    assert (packets + [last])[..|packets|] == packets;
  }

  /** The ledger's segments are a greedy segmentation of exactly the packets fed for the key. */
  lemma {:induction false} LedgerIsGreedy(events: seq<Event>, key: FlowKey)
    ensures Segmentation(Fed(events, key), LedgerOf(events, key).closed, LedgerOf(events, key).open)
  {
    if events != [] {
      var before, e := events[..|events| - 1], events[|events| - 1];
      LedgerIsGreedy(before, key);
      EnterKeepsGreedy(Fed(before, key), LedgerOf(before, key), e, key);
    }
  }

  lemma EnterKeepsGreedy(fed: seq<Bytes>, l: Ledger, e: Event, key: FlowKey)
    requires Segmentation(fed, l.closed, l.open)
    ensures var l' := Enter(l, e, key);
            Segmentation(fed + if e.Packet? && e.key == key then [e.bytes] else [], l'.closed, l'.open)
  {
    assert fed + [] == fed;
    if e.Packet? && e.key == key {
      PacketKeepsGreedy(fed, l, e.bytes, e.now, key);
    } else if Enter(l, e, key) != l {
      CloseKeepsGreedy(fed, l.closed, l.open, Segment(l.open, false));
      assert l.open[|l.open|..] == [];
    }
  }

  lemma PacketKeepsGreedy(fed: seq<Bytes>, l: Ledger, bytes: Bytes, now: int, key: FlowKey)
    requires Segmentation(fed, l.closed, l.open)
    ensures var l' := Enter(l, Packet(key, bytes, now), key);
            Segmentation(fed + [bytes], l'.closed, l'.open)
  {
    var longer := l.open + [bytes];
    PrefixesOfSnoc(l.open, longer);
    if |Flat(longer)| >= 512 {
      CloseKeepsGreedy(fed, l.closed, l.open, Segment(longer, true));
      assert longer[|l.open|..] == [bytes];
    }
  }

  lemma CloseKeepsGreedy(fed: seq<Bytes>, segs: seq<Segment>, open: seq<Bytes>, s: Segment)
    requires Segmentation(fed, segs, open)
    requires GoodSegment(s) && open <= s.packets
    ensures Segmentation(fed + s.packets[|open|..], segs + [s], [])
  {
    assert (segs + [s])[..|segs|] == segs;
    assert s.packets == open + s.packets[|open|..];
  }

  lemma PrefixesOfSnoc(packets: seq<Bytes>, longer: seq<Bytes>)
    requires |longer| == |packets| + 1 && longer[..|packets|] == packets
    requires Underfull(packets)
    ensures forall j :: 0 <= j < |longer| ==> |Flat(longer[..j])| < 512
    ensures longer[..|longer|] == longer
  {
    forall j | 0 <= j < |longer| ensures |Flat(longer[..j])| < 512 {
      assert longer[..j] == packets[..j];
    }
  }

  /** Nothing is lost, duplicated or reordered: emitted, evicted and still-held bytes are the bytes fed. */
  lemma {:induction false} Conservation(events: seq<Event>, key: FlowKey)
    ensures CutBytes(Cuts(events, key)) + Held(Run(events), key) == Flat(Fed(events, key))
  {
    TrackerRefinesLedger(events, key);
    LedgerIsGreedy(events, key);
    var l := LedgerOf(events, key);
    CutBytesAreFlat(l.closed);
    FlatAppend(AllPackets(l.closed), l.open);
  }

  lemma {:induction false} CutBytesAreFlat(segs: seq<Segment>)
    ensures CutBytes(CutsOf(segs)) == Flat(AllPackets(segs))
  {
    if segs != [] {
      var front := segs[..|segs| - 1];
      CutBytesAreFlat(front);
      assert CutsOf(segs)[..|segs| - 1] == CutsOf(front);
      FlatAppend(AllPackets(front), segs[|segs| - 1].packets);
    }
  }

  // ---- The greedy segmentation is the only one -------------------------------------------------

  /** Without sweeps every buffer that left was emitted. */
  lemma {:induction false} NoSweepNoEviction(events: seq<Event>, key: FlowKey)
    requires forall i :: 0 <= i < |events| ==> events[i].Packet?
    ensures forall i :: 0 <= i < |LedgerOf(events, key).closed| ==> LedgerOf(events, key).closed[i].emitted
  {
    if events != [] {
      NoSweepNoEviction(events[..|events| - 1], key);
    }
  }

  /** Two eviction-free greedy segmentations of one packet list are equal. */
  lemma {:induction false} GreedyIsUnique(fed: seq<Bytes>, segs: seq<Segment>, open: seq<Bytes>,
                                          segs': seq<Segment>, open': seq<Bytes>)
    requires Segmentation(fed, segs, open) && Segmentation(fed, segs', open')
    requires forall s :: s in segs + segs' ==> s.emitted
    ensures segs == segs' && open == open'
    decreases |fed|
  {
    if segs == [] || segs' == [] {
      assert segs != [] ==> segs[0] in segs + segs';
      assert segs' != [] ==> segs'[0] in segs + segs';
      OpenIsAll(fed, segs, open);
      OpenIsAll(fed, segs', open');
    } else {
      SameFirstSegment(fed, segs, open, segs', open');
      var rest := fed[|segs[0].packets|..];
      forall s | s in segs[1..] + segs'[1..] ensures s.emitted {
        assert s in segs + segs';
      }
      GreedyIsUnique(rest, segs[1..], open, segs'[1..], open');
      assert segs == [segs[0]] + segs[1..] && segs' == [segs'[0]] + segs'[1..];
    }
  }

  lemma SameFirstSegment(fed: seq<Bytes>, segs: seq<Segment>, open: seq<Bytes>,
                         segs': seq<Segment>, open': seq<Bytes>)
    requires Segmentation(fed, segs, open) && Segmentation(fed, segs', open')
    requires segs != [] && segs' != [] && segs[0].emitted && segs'[0].emitted
    ensures segs[0] == segs'[0]
    ensures |segs[0].packets| <= |fed| && segs[0].packets != []
    ensures Segmentation(fed[|segs[0].packets|..], segs[1..], open)
    ensures Segmentation(fed[|segs[0].packets|..], segs'[1..], open')
  {
    RestOfSegmentation(fed, segs, open);
    RestOfSegmentation(fed, segs', open');
    SameFirstCut(fed, segs[0].packets, segs'[0].packets);
  }

  /** An underfull packet list admits no emission: all of it stays open. */
  lemma OpenIsAll(fed: seq<Bytes>, segs: seq<Segment>, open: seq<Bytes>)
    requires Segmentation(fed, segs, open)
    ensures segs == [] ==> open == fed
    ensures segs != [] && segs[0].emitted ==> !Underfull(fed)
  {
    if segs == [] {
      assert AllPackets(segs) + open == open;
    } else {
      RestOfSegmentation(fed, segs, open);
      assert fed[..|segs[0].packets|] == segs[0].packets;
    }
  }

  lemma NotReadyBefore(q: seq<Bytes>, p: seq<Bytes>)
    requires ShortestReady(q) && p < q
    ensures |Flat(p)| < 512
  {
    assert q[..|p|] == p;
  }

  lemma SameFirstCut(fed: seq<Bytes>, p: seq<Bytes>, p': seq<Bytes>)
    requires p <= fed && p' <= fed && ShortestReady(p) && ShortestReady(p')
    ensures p == p'
  {
    if |p| < |p'| {
      NotReadyBefore(p', p);
    } else if |p'| < |p| {
      NotReadyBefore(p, p');
    }
  }

  lemma RestOfSegmentation(fed: seq<Bytes>, segs: seq<Segment>, open: seq<Bytes>)
    requires segs != [] && Segmentation(fed, segs, open)
    ensures segs[0].packets <= fed
    ensures Segmentation(fed[|segs[0].packets|..], segs[1..], open)
  {
    FirstSegment(segs[0], segs[1..]);
    assert segs == [segs[0]] + segs[1..];
    assert fed == segs[0].packets + (AllPackets(segs[1..]) + open);
  }

  lemma AllPacketsSnoc(segs: seq<Segment>, s: Segment)
    ensures AllPackets(segs + [s]) == AllPackets(segs) + s.packets
  {
    assert (segs + [s])[..|segs|] == segs;
  }

  lemma {:induction false} FirstSegment(first: Segment, rest: seq<Segment>)
    ensures AllPackets([first] + rest) == first.packets + AllPackets(rest)
  {
    if rest == [] {
      AllPacketsSnoc([], first);
      assert [first] + rest == [] + [first];
    } else {
      var front, last := rest[..|rest| - 1], rest[|rest| - 1];
      assert rest == front + [last];
      calc {
        AllPackets([first] + rest);
        { assert [first] + rest == [first] + front + [last]; AllPacketsSnoc([first] + front, last); }
        AllPackets([first] + front) + last.packets;
        { FirstSegment(first, front); }
        first.packets + AllPackets(front) + last.packets;
        first.packets + (AllPackets(front) + last.packets);
        { AllPacketsSnoc(front, last); }
        first.packets + AllPackets(rest);
      }
    }
  }

  lemma {:induction false} AllPacketsPrefix(segs: seq<Segment>, n: nat)
    requires n <= |segs|
    ensures AllPackets(segs[..n]) <= AllPackets(segs)
  {
    if n == |segs| {
      assert segs[..n] == segs;
    } else {
      AllPacketsPrefix(segs[..|segs| - 1], n);
      assert segs[..|segs| - 1][..n] == segs[..n];
    }
  }

  /** In a run of packets alone, whatever emitted greedy segmentation one writes down is what left the map. */
  lemma {:induction false} EmissionsAreTheGreedySegmentation(events: seq<Event>, key: FlowKey, segs: seq<Segment>,
                                                             open: seq<Bytes>)
    requires forall i :: 0 <= i < |events| ==> events[i].Packet?
    requires forall s :: s in segs ==> s.emitted
    requires Segmentation(Fed(events, key), segs, open)
    ensures Cuts(events, key) == CutsOf(segs)
    ensures Held(Run(events), key) == Flat(open)
  {
    NoSweepNoEviction(events, key);
    LedgerIsGreedy(events, key);
    TrackerRefinesLedger(events, key);
    GreedyIsUnique(Fed(events, key), segs, open, LedgerOf(events, key).closed, LedgerOf(events, key).open);
  }

  // ---- Non-interference ------------------------------------------------------------------------

  /** The run with every packet of the other keys taken out; the sweeps stay where they were. */
  function OnlyKey(events: seq<Event>, key: FlowKey): seq<Event>
  {
    if events == [] then [] else
      var e := events[|events| - 1];
      OnlyKey(events[..|events| - 1], key) + if e.Packet? && e.key != key then [] else [e]
  }

  lemma {:induction false} LedgerIgnoresOtherKeys(events: seq<Event>, key: FlowKey)
    ensures LedgerOf(OnlyKey(events, key), key) == LedgerOf(events, key)
  {
    if events != [] {
      var before, e := events[..|events| - 1], events[|events| - 1];
      LedgerIgnoresOtherKeys(before, key);
      assert OnlyKey(before, key) + [] == OnlyKey(before, key);
      assert (OnlyKey(before, key) + [e])[..|OnlyKey(before, key)|] == OnlyKey(before, key);
    }
  }

  /** What happens to one key does not depend on any other key's packets. */
  lemma {:induction false} NonInterference(events: seq<Event>, key: FlowKey)
    ensures Cuts(OnlyKey(events, key), key) == Cuts(events, key)
    ensures key in Run(OnlyKey(events, key)) <==> key in Run(events)
    ensures key in Run(events) ==> Run(OnlyKey(events, key))[key] == Run(events)[key]
  {
    LedgerIgnoresOtherKeys(events, key);
    TrackerRefinesLedger(events, key);
    TrackerRefinesLedger(OnlyKey(events, key), key);
  }

  // ---- Reachable states ------------------------------------------------------------------------

  /** No reachable buffer holds 512 bytes, so the 4096-byte guard is always true and drops nothing. */
  lemma {:induction false} GuardNeverFails(events: seq<Event>, key: FlowKey, pkt: Bytes, now: int)
    ensures |Held(Run(events), key)| < 512
    ensures var (after, payload) := AfterPacket(Run(events), key, pkt, now);
            if key in after then payload == [] && after[key].buffer == Held(Run(events), key) + pkt
            else payload == Held(Run(events), key) + pkt
  {
    TrackerRefinesLedger(events, key);
  }

  /** A payload comes back exactly when 512 bytes are there, and then the key has left the map. */
  lemma {:induction false} PayloadIffReady(events: seq<Event>, i: nat)
    requires i < |events| && events[i].Packet?
    ensures var key := events[i].key;
            && (Output(events, i) != [] <==> |Output(events, i)| >= 512)
            && (Output(events, i) != [] <==> |Held(Run(events[..i]), key) + events[i].bytes| >= 512)
            && (Output(events, i) != [] <==> key !in Run(events[..i + 1]))
  {
    assert events[..i + 1][..i] == events[..i];
    TrackerRefinesLedger(events[..i], events[i].key);
  }

  // ---- When a sweep evicts ---------------------------------------------------------------------

  /** The clock reading of the latest packet of `key`. */
  function LatestPacket(events: seq<Event>, key: FlowKey): Option<int>
  {
    if events == [] then None else
      var e := events[|events| - 1];
      if e.Packet? && e.key == key then Some(e.now) else LatestPacket(events[..|events| - 1], key)
  }

  lemma {:induction false} LastSeenIsLatestPacket(events: seq<Event>, key: FlowKey)
    ensures LedgerOf(events, key).open != [] ==> LatestPacket(events, key) == Some(LedgerOf(events, key).lastSeen)
  {
    if events != [] {
      LastSeenIsLatestPacket(events[..|events| - 1], key);
    }
  }

  /** A sweep erases a flow exactly when its latest packet is older than the timeout, and leaves the rest alone. */
  lemma {:induction false} SweepErasesExactlyTheIdle(events: seq<Event>, now: int, timeout: int, key: FlowKey)
    requires key in Run(events)
    ensures LatestPacket(events, key).Some?
    ensures var after := Run(events + [Sweep(now, timeout)]);
            if now - LatestPacket(events, key).value > timeout then key !in after
            else key in after && after[key] == Run(events)[key]
  {
    assert (events + [Sweep(now, timeout)])[..|events|] == events;
    TrackerRefinesLedger(events, key);
    LastSeenIsLatestPacket(events, key);
  }

  /** The keys with a packet no more than `timeout` before `now`. */
  function RecentKeys(events: seq<Event>, now: int, timeout: int): set<FlowKey>
  {
    set e | e in events && e.Packet? && now - e.now <= timeout :: e.key
  }

  lemma {:induction false} LatestPacketIsThere(events: seq<Event>, key: FlowKey)
    requires LatestPacket(events, key).Some?
    ensures exists e :: e in events && e.Packet? && e.key == key && e.now == LatestPacket(events, key).value
  {
    var e := events[|events| - 1];
    if e.Packet? && e.key == key {
      assert e in events;
    } else {
      LatestPacketIsThere(events[..|events| - 1], key);
    }
  }

  /** Right after a sweep, only keys heard from within the timeout are left. */
  lemma {:induction false} SweepBoundsTheMap(events: seq<Event>, now: int, timeout: int)
    ensures var after := Run(events + [Sweep(now, timeout)]);
            after.Keys <= RecentKeys(events, now, timeout) && |after| <= |RecentKeys(events, now, timeout)|
  {
    assert (events + [Sweep(now, timeout)])[..|events|] == events;
    var after := Run(events + [Sweep(now, timeout)]);
    forall key | key in after ensures key in RecentKeys(events, now, timeout) {
      SweepErasesExactlyTheIdle(events, now, timeout, key);
      LatestPacketIsThere(events, key);
    }
    SubsetSize(after.Keys, RecentKeys(events, now, timeout));
    assert |after| == |after.Keys|;
  }

  lemma {:induction false} SubsetSize<T>(a: set<T>, b: set<T>)
    requires a <= b
    ensures |a| <= |b|
  {
    if a != {} {
      var x :| x in a;
      SubsetSize(a - {x}, b - {x});
    }
  }

  // ---- How long a segment can be ---------------------------------------------------------------

  lemma {:induction false} FlatGrows(packets: seq<Bytes>, least: nat)
    requires forall i :: 0 <= i < |packets| ==> |packets[i]| >= least
    ensures |Flat(packets)| >= |packets| * least
  {
    if packets != [] {
      FlatGrows(packets[..|packets| - 1], least);
      assert |packets| * least == (|packets| - 1) * least + least;
    }
  }

  /** Packets of at least 34 bytes: a cut comes no later than the 16th, and overshoots by less than one packet. */
  lemma SegmentBound(s: Segment, largest: nat)
    requires GoodSegment(s)
    requires forall i :: 0 <= i < |s.packets| ==> 34 <= |s.packets[i]| <= largest
    ensures |s.packets| <= 16
    ensures s.emitted ==> 512 <= |Flat(s.packets)| <= 511 + largest
    ensures !s.emitted ==> |s.packets| <= 15
  {
    var last := |s.packets| - 1;
    FlatGrows(s.packets[..last], 34);
    assert Flat(s.packets) == Flat(s.packets[..last]) + s.packets[last];
    if !s.emitted {
      FlatGrows(s.packets, 34);
      assert s.packets[..|s.packets|] == s.packets;
    }
  }

  lemma OpenBound(open: seq<Bytes>)
    requires Underfull(open)
    requires forall i :: 0 <= i < |open| ==> 34 <= |open[i]|
    ensures |open| <= 15
  {
    FlatGrows(open, 34);
    assert open[..|open|] == open;
  }
}
