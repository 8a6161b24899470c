/** One investigation per address and window: AlertDedup in scripts/multi_agent_soc.py. */
module AlertDedup {

  type Seen = map<string, real>

  /** One call of should_process, with the wall-clock reading it takes. */
  datatype Reading = Reading(ip: string, now: real)

  /** dict.get(ip, 0.0) */
  function Last(seen: Seen, ip: string): real
  {
    if ip in seen then seen[ip] else 0.0
  }

  predicate Rejects(seen: Seen, r: Reading, window: real)
  {
    r.now - Last(seen, r.ip) < window
  }

  /** The dictionary that drops entries ten windows old whenever it accepts. */
  function Pruned(seen: Seen, r: Reading, window: real): Seen
  {
    if Rejects(seen, r, window) then seen else
      var stored := seen[r.ip := r.now];
      map ip | ip in stored && stored[ip] > r.now - window * 10.0 :: stored[ip]
  }

  /** The dictionary that never forgets. */
  function Unpruned(seen: Seen, r: Reading, window: real): Seen
  {
    if Rejects(seen, r, window) then seen else seen[r.ip := r.now]
  }

  function PrunedAfter(readings: seq<Reading>, window: real): Seen
  {
    if readings == [] then map[]
    else Pruned(PrunedAfter(readings[..|readings| - 1], window), readings[|readings| - 1], window)
  }

  function UnprunedAfter(readings: seq<Reading>, window: real): Seen
  {
    if readings == [] then map[]
    else Unpruned(UnprunedAfter(readings[..|readings| - 1], window), readings[|readings| - 1], window)
  }

  /** What should_process answers at call `i`. */
  predicate Accepts(readings: seq<Reading>, i: nat, window: real)
    requires i < |readings|
  {
    !Rejects(PrunedAfter(readings[..i], window), readings[i], window)
  }

  predicate AcceptsUnpruned(readings: seq<Reading>, i: nat, window: real)
    requires i < |readings|
  {
    !Rejects(UnprunedAfter(readings[..i], window), readings[i], window)
  }

  class AlertDedup {
    const window: real
    var seen: Seen

    constructor (window: real)
      ensures this.window == window && seen == map[]
    {
      this.window := window;
      seen := map[];
    }

    method ShouldProcess(ip: string, now: real) returns (accepted: bool)
      modifies this
      ensures accepted == !Rejects(old(seen), Reading(ip, now), window)
      ensures seen == Pruned(old(seen), Reading(ip, now), window)
      ensures accepted <==> now - (if ip in old(seen) then old(seen)[ip] else 0.0) >= window
      ensures !accepted ==> seen == old(seen)
      ensures accepted ==>
                forall k :: k in seen <==>
                  if k == ip then window > 0.0 else k in old(seen) && old(seen)[k] > now - 10.0 * window
      ensures accepted ==> forall k :: k in seen ==> seen[k] == if k == ip then now else old(seen)[k]
    {
      var last := if ip in seen then seen[ip] else 0.0;
      if now - last < window {
        return false;
      }
      seen := seen[ip := now];
      var cutoff := now - window * 10.0;
      seen := map k | k in seen && seen[k] > cutoff :: seen[k];
      return true;
    }
  }

  datatype Alert = Alert(ip: string, port: int, score: real)

  /** listen_for_alerts: the callback the agent registers, behind the dedup. */
  class AlertListener {
    const dedup: AlertDedup
    var investigated: seq<Alert>

    constructor (dedup: AlertDedup)
      ensures this.dedup == dedup && investigated == []
    {
      this.dedup := dedup;
      investigated := [];
    }

    method DedupCallback(alert: Alert, now: real)
      modifies this, dedup
      ensures dedup.seen == Pruned(old(dedup.seen), Reading(alert.ip, now), dedup.window)
      ensures investigated == old(investigated) +
                              if Rejects(old(dedup.seen), Reading(alert.ip, now), dedup.window) then [] else [alert]
      ensures investigated == old(investigated) +
                              var last := if alert.ip in old(dedup.seen) then old(dedup.seen)[alert.ip] else 0.0;
                              if now - last < dedup.window then [] else [alert]
    {
      var accepted := dedup.ShouldProcess(alert.ip, now);
      if !accepted {
        return;
      }
      investigated := investigated + [alert];
    }
  }

  // ---- The pruned dictionary decides like the unpruned one -------------------------------------

  /** No reading falls more than `tolerance` below an earlier one. */
  ghost predicate Regress(readings: seq<Reading>, tolerance: real)
  {
    forall i, j :: 0 <= i < j < |readings| ==> readings[i].now - tolerance <= readings[j].now
  }

  ghost predicate Agree(readings: seq<Reading>, window: real)
  {
    forall i :: 0 <= i < |readings| ==> (Accepts(readings, i, window) <==> AcceptsUnpruned(readings, i, window))
  }

  /** What a missing entry means: its last acceptance is ten windows behind some reading. */
  ghost predicate Forgotten(readings: seq<Reading>, at: real, window: real)
  {
    exists j :: 0 <= j < |readings| && at <= readings[j].now - window * 10.0
  }

  ghost predicate PrunedOf(readings: seq<Reading>, pruned: Seen, full: Seen, window: real)
  {
    && (forall ip :: ip in pruned ==> ip in full && full[ip] == pruned[ip])
    && (forall ip :: ip in full ==> full[ip] >= window)
    && (forall ip :: ip in full && ip !in pruned ==> Forgotten(readings, full[ip], window))
  }

  /** Within nine windows of clock regress, one more reading is decided alike. */
  lemma SameDecision(readings: seq<Reading>, r: Reading, pruned: Seen, full: Seen, window: real)
    requires window >= 0.0
    requires PrunedOf(readings, pruned, full, window)
    requires Regress(readings + [r], 9.0 * window)
    ensures Rejects(pruned, r, window) <==> Rejects(full, r, window)
  {
    if r.ip in full && r.ip !in pruned {
      var j :| 0 <= j < |readings| && full[r.ip] <= readings[j].now - window * 10.0;
      assert (readings + [r])[j] == readings[j] && (readings + [r])[|readings|] == r;
    }
  }

  lemma PruneStep(readings: seq<Reading>, r: Reading, pruned: Seen, full: Seen, window: real)
    requires window >= 0.0
    requires PrunedOf(readings, pruned, full, window)
    requires Rejects(pruned, r, window) <==> Rejects(full, r, window)
    ensures PrunedOf(readings + [r], Pruned(pruned, r, window), Unpruned(full, r, window), window)
  {
    var readings', full' := readings + [r], Unpruned(full, r, window);
    var pruned' := Pruned(pruned, r, window);
    assert readings'[|readings|] == r;
    forall ip | ip in full' && ip !in pruned' ensures Forgotten(readings', full'[ip], window) {
      if ip in full && ip !in pruned && full'[ip] == full[ip] {
        var j :| 0 <= j < |readings| && full[ip] <= readings[j].now - window * 10.0;
        assert readings'[j] == readings[j];
      }
    }
  }

  lemma {:induction false} WithinTolerance(readings: seq<Reading>, window: real)
    requires window >= 0.0 && Regress(readings, 9.0 * window)
    ensures PrunedOf(readings, PrunedAfter(readings, window), UnprunedAfter(readings, window), window)
    ensures Agree(readings, window)
  {
    if readings != [] {
      var before, r := readings[..|readings| - 1], readings[|readings| - 1];
      assert readings == before + [r];
      WithinTolerance(before, window);
      SameDecision(before, r, PrunedAfter(before, window), UnprunedAfter(before, window), window);
      PruneStep(before, r, PrunedAfter(before, window), UnprunedAfter(before, window), window);
      forall i | 0 <= i < |readings|
        ensures Accepts(readings, i, window) <==> AcceptsUnpruned(readings, i, window)
      {
        if i < |before| {
          assert readings[..i] == before[..i];
          assert Accepts(before, i, window) <==> AcceptsUnpruned(before, i, window);
        }
      }
    }
  }

  /** Two addresses and three alerts on which the two dictionaries part, past the tolerance. */
  function Parting(window: real, excess: real): seq<Reading>
  {
    if window == 0.0 then [Reading("a", 1.0), Reading("a", 1.0 - excess)]
    else [Reading("a", window), Reading("b", 11.0 * window), Reading("a", 2.0 * window - excess)]
  }

  /** Whatever is left of `tolerance` past nine windows, cut to what Parting can use. */
  function Excess(window: real, tolerance: real): real
  {
    var room := if window == 0.0 then 1.0 else window;
    if tolerance - 9.0 * window < room then tolerance - 9.0 * window else room
  }

  /** The pruned dictionary accepts the last alert, which the unpruned one rejects. */
  lemma PartingAcceptsTwice(window: real, excess: real)
    requires window >= 0.0 && 0.0 < excess <= if window == 0.0 then 1.0 else window
    ensures var rs := Parting(window, excess);
            Accepts(rs, |rs| - 1, window) && !AcceptsUnpruned(rs, |rs| - 1, window)
  {
    var rs := Parting(window, excess);
    assert rs[..0] == [] && rs[..1][..0] == [] && rs[..1][0] == rs[0];
    if window > 0.0 {
      assert rs[..2][..1] == rs[..1] && rs[..2][1] == rs[1];
      assert PrunedAfter(rs[..1], window) == map["a" := window];
      assert UnprunedAfter(rs[..1], window) == map["a" := window];
      assert "a" !in PrunedAfter(rs[..2], window);
    }
  }

  lemma PartingDisagrees(window: real, excess: real)
    requires window >= 0.0 && 0.0 < excess <= if window == 0.0 then 1.0 else window
    ensures Regress(Parting(window, excess), 9.0 * window + excess)
    ensures !Agree(Parting(window, excess), window)
  {
    PartingAcceptsTwice(window, excess);
  }

  /** Nine windows is exactly how far the clock may fall back: less never matters, more can. */
  lemma ToleranceIsExact(window: real, tolerance: real)
    requires window >= 0.0
    ensures (forall readings :: Regress(readings, tolerance) ==> Agree(readings, window)) <==>
            tolerance <= 9.0 * window
  {
    if tolerance <= 9.0 * window {
      forall readings | Regress(readings, tolerance) ensures Agree(readings, window) {
        assert Regress(readings, 9.0 * window);
        WithinTolerance(readings, window);
      }
    } else {
      var excess := Excess(window, tolerance);
      PartingDisagrees(window, excess);
      assert Regress(Parting(window, excess), tolerance);
    }
  }

  // ---- What the dictionary holds, whatever the clock does ----------------------------------------

  /** What call `k` leaves of the entry that call `j` made: it neither replaces it nor prunes it. */
  predicate Spares(readings: seq<Reading>, k: nat, j: nat, window: real)
    requires k < |readings| && j < |readings|
  {
    Accepts(readings, k, window) ==>
      && (readings[k].ip == readings[j].ip ==> k == j)
      && readings[j].now > readings[k].now - window * 10.0
  }

  /** Call `j` was accepted and its entry is there after the run. */
  ghost predicate Held(readings: seq<Reading>, j: nat, window: real)
    requires j < |readings|
  {
    Accepts(readings, j, window) && forall k :: j <= k < |readings| ==> Spares(readings, k, j, window)
  }

  lemma PrefixAccepts(readings: seq<Reading>, n: nat, j: nat, window: real)
    requires j < n <= |readings|
    ensures readings[..n][j] == readings[j]
    ensures Accepts(readings[..n], j, window) <==> Accepts(readings, j, window)
  {
    assert readings[..n][..j] == readings[..j];
  }

  lemma PrefixSpares(readings: seq<Reading>, n: nat, k: nat, j: nat, window: real)
    requires k < n <= |readings| && j < n
    ensures Spares(readings[..n], k, j, window) <==> Spares(readings, k, j, window)
  {
    PrefixAccepts(readings, n, k, window);
  }

  lemma HeldOneMore(readings: seq<Reading>, j: nat, window: real)
    requires readings != [] && j < |readings| - 1
    ensures Held(readings, j, window) <==>
            Held(readings[..|readings| - 1], j, window) && Spares(readings, |readings| - 1, j, window)
  {
    var last := |readings| - 1;
    PrefixAccepts(readings, last, j, window);
    forall k | j <= k < last
      ensures Spares(readings[..last], k, j, window) <==> Spares(readings, k, j, window)
    {
      PrefixSpares(readings, last, k, j, window);
    }
  }

  ghost predicate HeldAt(readings: seq<Reading>, ip: string, at: real, window: real)
  {
    exists j :: 0 <= j < |readings| && readings[j] == Reading(ip, at) && Held(readings, j, window)
  }

  lemma HeldAtOneMore(readings: seq<Reading>, ip: string, at: real, window: real)
    requires readings != []
    ensures var before, r := readings[..|readings| - 1], readings[|readings| - 1];
            HeldAt(readings, ip, at, window) <==>
            if Rejects(PrunedAfter(before, window), r, window) then HeldAt(before, ip, at, window)
            else at > r.now - window * 10.0 &&
                 if r.ip == ip then at == r.now else HeldAt(before, ip, at, window)
  {
    var last := |readings| - 1;
    var before, r := readings[..last], readings[last];
    assert Accepts(readings, last, window) <==> !Rejects(PrunedAfter(before, window), r, window);
    if HeldAt(readings, ip, at, window) {
      var j :| 0 <= j < |readings| && readings[j] == Reading(ip, at) && Held(readings, j, window);
      assert Spares(readings, last, j, window);
      if j < last {
        HeldOneMore(readings, j, window);
        assert before[j] == Reading(ip, at);
      }
    }
    if HeldAt(before, ip, at, window) {
      var j :| 0 <= j < last && before[j] == Reading(ip, at) && Held(before, j, window);
      HeldOneMore(readings, j, window);
      assert readings[j] == Reading(ip, at);
    }
    if Accepts(readings, last, window) && r == Reading(ip, at) && Spares(readings, last, last, window) {
      assert Held(readings, last, window);
    }
  }

  /** The entries of the pruned dictionary are the accepted readings held, for every clock and window. */
  lemma {:induction false} HoldsExactlyTheHeld(readings: seq<Reading>, ip: string, at: real, window: real)
    ensures ip in PrunedAfter(readings, window) && PrunedAfter(readings, window)[ip] == at <==>
            HeldAt(readings, ip, at, window)
  {
    if readings != [] {
      HoldsExactlyTheHeld(readings[..|readings| - 1], ip, at, window);
      HeldAtOneMore(readings, ip, at, window);
    }
  }

  /** Why call `i` was rejected, for every clock and window: an acceptance of the address that is still held
      lies less than a window back; or none is held and the reading is below the window, where a missing entry
      counts as 0.0. */
  lemma {:induction false} RejectsExactly(readings: seq<Reading>, i: nat, window: real)
    requires i < |readings|
    ensures !Accepts(readings, i, window) <==>
            || (exists j :: 0 <= j < i && readings[j].ip == readings[i].ip && Held(readings[..i], j, window) &&
                            readings[i].now - readings[j].now < window)
            || (readings[i].now < window &&
                forall j :: 0 <= j < i && readings[j].ip == readings[i].ip ==> !Held(readings[..i], j, window))
  {
    var before, ip := readings[..i], readings[i].ip;
    var seen := PrunedAfter(before, window);
    forall j | 0 <= j < i && readings[j].ip == ip && Held(before, j, window)
      ensures ip in seen && seen[ip] == readings[j].now
    {
      assert before[j] == Reading(ip, readings[j].now);
      HoldsExactlyTheHeld(before, ip, readings[j].now, window);
    }
    if ip in seen {
      HoldsExactlyTheHeld(before, ip, seen[ip], window);
      var j :| 0 <= j < i && before[j] == Reading(ip, seen[ip]) && Held(before, j, window);
      assert readings[j] == before[j];
    }
  }

  /** So a rejection always points back to an acceptance less than a window before, or to a reading below the
      window. */
  lemma RejectionPointsBack(readings: seq<Reading>, i: nat, window: real)
    requires i < |readings| && !Accepts(readings, i, window)
    ensures || (exists j :: 0 <= j < i && readings[j].ip == readings[i].ip && Accepts(readings, j, window) &&
                            readings[i].now - readings[j].now < window)
            || readings[i].now < window
  {
    RejectsExactly(readings, i, window);
    if readings[i].now >= window {
      var j :| 0 <= j < i && readings[j].ip == readings[i].ip && Held(readings[..i], j, window) &&
               readings[i].now - readings[j].now < window;
      PrefixAccepts(readings, i, j, window);
    }
  }

  ghost predicate Investigated(readings: seq<Reading>, window: real, ip: string)
  {
    exists j :: 0 <= j < |readings| && Accepts(readings, j, window) && readings[j].ip == ip
  }

  /** Some reading taken for an alert of `ip` is at least a window past the epoch. */
  ghost predicate PastWindow(readings: seq<Reading>, window: real, ip: string)
  {
    exists k :: 0 <= k < |readings| && readings[k].ip == ip && readings[k].now >= window
  }

  /** The first acceptance of an address finds no entry, so its reading is past the window. */
  lemma {:induction false} AcceptedIsPast(readings: seq<Reading>, j: nat, window: real)
    requires j < |readings| && Accepts(readings, j, window)
    ensures PastWindow(readings, window, readings[j].ip)
    decreases j
  {
    var before, ip := readings[..j], readings[j].ip;
    var seen := PrunedAfter(before, window);
    if ip in seen {
      HoldsExactlyTheHeld(before, ip, seen[ip], window);
      var k :| 0 <= k < j && before[k] == Reading(ip, seen[ip]) && Held(before, k, window);
      PrefixAccepts(readings, j, k, window);
      AcceptedIsPast(readings, k, window);
    }
  }

  /** Nobody starves: an address is investigated exactly when it was reported at a reading past the window,
      whatever the clock does. */
  lemma {:induction false} InvestigatedExactly(readings: seq<Reading>, window: real, ip: string)
    ensures Investigated(readings, window, ip) <==> PastWindow(readings, window, ip)
  {
    if Investigated(readings, window, ip) {
      var j :| 0 <= j < |readings| && Accepts(readings, j, window) && readings[j].ip == ip;
      AcceptedIsPast(readings, j, window);
    }
    if PastWindow(readings, window, ip) {
      var k :| 0 <= k < |readings| && readings[k].ip == ip && readings[k].now >= window;
      if !Accepts(readings, k, window) {
        RejectionPointsBack(readings, k, window);
      }
    }
  }

  // ---- Rate and starvation ---------------------------------------------------------------------

  /** An accepted reading of `ip` at exactly `at`. */
  ghost predicate AcceptedAt(readings: seq<Reading>, ip: string, at: real, window: real)
  {
    exists j :: 0 <= j < |readings| && readings[j] == Reading(ip, at) && AcceptsUnpruned(readings, j, window)
  }

  lemma PrefixDecides(readings: seq<Reading>, n: nat, j: nat, window: real)
    requires j < n <= |readings|
    ensures readings[..n][j] == readings[j]
    ensures AcceptsUnpruned(readings[..n], j, window) <==> AcceptsUnpruned(readings, j, window)
  {
    assert readings[..n][..j] == readings[..j];
  }

  /** The unpruned entry is an accepted reading of that address. */
  lemma {:induction false} EntryWasAccepted(readings: seq<Reading>, ip: string, window: real)
    ensures ip in UnprunedAfter(readings, window) ==>
              AcceptedAt(readings, ip, UnprunedAfter(readings, window)[ip], window)
  {
    if readings != [] {
      var last := |readings| - 1;
      EntryWasAccepted(readings[..last], ip, window);
      if AcceptsUnpruned(readings, last, window) && readings[last].ip == ip {
        assert readings[last] == Reading(ip, readings[last].now);
      } else if ip in UnprunedAfter(readings[..last], window) {
        var at := UnprunedAfter(readings[..last], window)[ip];
        var j :| 0 <= j < last && readings[..last][j] == Reading(ip, at) &&
                 AcceptsUnpruned(readings[..last], j, window);
        PrefixDecides(readings, last, j, window);
      }
    }
  }

  /** And no accepted reading of that address is later. */
  lemma {:induction false} EntryIsLatest(readings: seq<Reading>, j: nat, window: real)
    requires window >= 0.0 && j < |readings| && AcceptsUnpruned(readings, j, window)
    ensures var full := UnprunedAfter(readings, window);
            readings[j].ip in full && readings[j].now <= full[readings[j].ip]
  {
    var last := |readings| - 1;
    if j < last {
      PrefixDecides(readings, last, j, window);
      EntryIsLatest(readings[..last], j, window);
    }
  }

  /** Accepted alerts of one address lie at least a window apart. */
  lemma AcceptancesAreSpaced(readings: seq<Reading>, i: nat, j: nat, window: real)
    requires window >= 0.0 && Regress(readings, 9.0 * window)
    requires i < j < |readings| && readings[i].ip == readings[j].ip
    requires Accepts(readings, i, window) && Accepts(readings, j, window)
    ensures readings[i].now + window <= readings[j].now
  {
    WithinTolerance(readings, window);
    PrefixDecides(readings, j, i, window);
    EntryIsLatest(readings[..j], i, window);
  }

  /** One investigation per window: any two acceptances of one address lie at least a window apart. */
  ghost predicate Spaced(readings: seq<Reading>, window: real)
  {
    forall i, j :: 0 <= i < j < |readings| && readings[i].ip == readings[j].ip &&
                   Accepts(readings, i, window) && Accepts(readings, j, window) ==>
                     readings[i].now + window <= readings[j].now
  }

  /** Past the tolerance the same three alerts break the spacing: the first and the last are both accepted. */
  lemma PartingIsNotSpaced(window: real, excess: real)
    requires window >= 0.0 && 0.0 < excess <= if window == 0.0 then 1.0 else window
    ensures !Spaced(Parting(window, excess), window)
  {
    var rs := Parting(window, excess);
    assert rs[..0] == [];
    assert Accepts(rs, 0, window);
    PartingAcceptsTwice(window, excess);
    assert rs[0].now + window > rs[|rs| - 1].now;
  }

  /** Spacing holds for every run within a tolerance exactly when the tolerance is at most nine windows. */
  lemma SpacingIsExact(window: real, tolerance: real)
    requires window >= 0.0
    ensures (forall readings :: Regress(readings, tolerance) ==> Spaced(readings, window)) <==>
            tolerance <= 9.0 * window
  {
    if tolerance <= 9.0 * window {
      forall readings: seq<Reading> | Regress(readings, tolerance) ensures Spaced(readings, window) {
        assert Regress(readings, 9.0 * window);
        forall i, j | 0 <= i < j < |readings| && readings[i].ip == readings[j].ip &&
                      Accepts(readings, i, window) && Accepts(readings, j, window)
          ensures readings[i].now + window <= readings[j].now
        {
          AcceptancesAreSpaced(readings, i, j, window);
        }
      }
    } else {
      var excess := Excess(window, tolerance);
      PartingIsNotSpaced(window, excess);
      PartingDisagrees(window, excess);
      assert Regress(Parting(window, excess), tolerance);
    }
  }

  /** Call `i` was rejected if and only if its address was accepted less than a window before; or was never
      accepted and the reading itself is below the window. */
  ghost predicate Justified(readings: seq<Reading>, i: nat, window: real)
    requires i < |readings|
  {
    !Accepts(readings, i, window) <==>
      || (exists j :: 0 <= j < i && readings[j].ip == readings[i].ip && Accepts(readings, j, window) &&
                      readings[i].now - readings[j].now < window)
      || (readings[i].now < window &&
          forall j :: 0 <= j < i && readings[j].ip == readings[i].ip ==> !Accepts(readings, j, window))
  }

  lemma RejectionsAreJustified(readings: seq<Reading>, i: nat, window: real)
    requires window >= 0.0 && Regress(readings, 9.0 * window) && i < |readings|
    ensures Justified(readings, i, window)
  {
    WithinTolerance(readings, window);
    var before, ip := readings[..i], readings[i].ip;
    EntryWasAccepted(before, ip, window);
    forall j | 0 <= j < i && readings[j].ip == ip && Accepts(readings, j, window)
      ensures ip in UnprunedAfter(before, window) && readings[j].now <= UnprunedAfter(before, window)[ip]
    {
      PrefixDecides(readings, i, j, window);
      EntryIsLatest(before, j, window);
    }
    if ip in UnprunedAfter(before, window) {
      var at := UnprunedAfter(before, window)[ip];
      var j :| 0 <= j < i && before[j] == Reading(ip, at) && AcceptsUnpruned(before, j, window);
      PrefixDecides(readings, i, j, window);
      assert Accepts(readings, j, window);
    }
    assert Accepts(readings, i, window) <==> AcceptsUnpruned(readings, i, window);
  }

  /** Past the tolerance the other half fails: an alert is accepted in spite of an acceptance just before. */
  lemma PartingIsNotJustified(window: real, excess: real)
    requires window >= 0.0 && 0.0 < excess <= if window == 0.0 then 1.0 else window
    ensures var rs := Parting(window, excess); !Justified(rs, |rs| - 1, window)
  {
    var rs := Parting(window, excess);
    assert rs[..0] == [];
    assert Accepts(rs, 0, window);
    PartingAcceptsTwice(window, excess);
    assert rs[|rs| - 1].now - rs[0].now < window;
  }

  lemma JustificationIsExact(window: real, tolerance: real)
    requires window >= 0.0
    ensures (forall readings: seq<Reading>, i: nat ::
               i < |readings| && Regress(readings, tolerance) ==> Justified(readings, i, window)) <==>
            tolerance <= 9.0 * window
  {
    if tolerance <= 9.0 * window {
      forall readings: seq<Reading>, i: nat | i < |readings| && Regress(readings, tolerance)
        ensures Justified(readings, i, window)
      {
        assert Regress(readings, 9.0 * window);
        RejectionsAreJustified(readings, i, window);
      }
    } else {
      var excess := Excess(window, tolerance);
      var rs := Parting(window, excess);
      PartingIsNotJustified(window, excess);
      PartingDisagrees(window, excess);
      assert Regress(rs, tolerance);
    }
  }

  predicate Counted(readings: seq<Reading>, j: nat, ip: string, from: real, to: real, window: real)
    requires j < |readings|
  {
    readings[j].ip == ip && from <= readings[j].now <= to && Accepts(readings, j, window)
  }

  /** How many of the first `n` alerts are accepted for `ip` with a reading between `from` and `to`. */
  function AcceptedIn(readings: seq<Reading>, n: nat, ip: string, from: real, to: real, window: real): nat
    requires n <= |readings|
  {
    if n == 0 then 0 else
      AcceptedIn(readings, n - 1, ip, from, to, window) +
      if Counted(readings, n - 1, ip, from, to, window) then 1 else 0
  }

  /** `n` windows end to end. */
  function Windows(n: nat, window: real): real
  {
    if n == 0 then 0.0 else Windows(n - 1, window) + window
  }

  /** One of the first `n` alerts is counted, and no earlier than `bound`. */
  ghost predicate CountedSince(readings: seq<Reading>, n: nat, ip: string, from: real, to: real, window: real,
                               bound: real)
    requires n <= |readings|
  {
    exists j :: 0 <= j < n && Counted(readings, j, ip, from, to, window) && bound <= readings[j].now
  }

  lemma NextCounted(readings: seq<Reading>, m: nat, ip: string, from: real, to: real, window: real, bound: real)
    requires window >= 0.0 && Regress(readings, 9.0 * window) && m < |readings|
    requires CountedSince(readings, m, ip, from, to, window, bound)
    requires Counted(readings, m, ip, from, to, window)
    ensures CountedSince(readings, m + 1, ip, from, to, window, bound + window)
  {
    var j :| 0 <= j < m && Counted(readings, j, ip, from, to, window) && bound <= readings[j].now;
    AcceptancesAreSpaced(readings, j, m, window);
  }

  /** `count` alerts counted so far push the latest of them `count - 1` windows past `from`. */
  ghost predicate Pushed(readings: seq<Reading>, n: nat, ip: string, from: real, to: real, window: real, count: nat)
    requires n <= |readings|
  {
    count > 0 ==> CountedSince(readings, n, ip, from, to, window, from + Windows(count - 1, window))
  }

  lemma PushStep(readings: seq<Reading>, m: nat, ip: string, from: real, to: real, window: real, count: nat)
    requires window >= 0.0 && Regress(readings, 9.0 * window) && m < |readings|
    requires Pushed(readings, m, ip, from, to, window, count)
    ensures Pushed(readings, m + 1, ip, from, to, window,
                   count + if Counted(readings, m, ip, from, to, window) then 1 else 0)
  {
    if Counted(readings, m, ip, from, to, window) {
      if count > 0 {
        NextCounted(readings, m, ip, from, to, window, from + Windows(count - 1, window));
      }
    }
  }

  lemma {:induction false} CountPushesLatest(readings: seq<Reading>, n: nat, ip: string, from: real, to: real,
                                             window: real)
    requires window >= 0.0 && Regress(readings, 9.0 * window) && n <= |readings|
    ensures Pushed(readings, n, ip, from, to, window, AcceptedIn(readings, n, ip, from, to, window))
  {
    if n > 0 {
      CountPushesLatest(readings, n - 1, ip, from, to, window);
      PushStep(readings, n - 1, ip, from, to, window, AcceptedIn(readings, n - 1, ip, from, to, window));
    }
  }

  /** An interval from `from` to `to` lets through at most floor((to - from) / window) + 1 alerts of `ip`. */
  ghost predicate RateKept(readings: seq<Reading>, ip: string, from: real, to: real, window: real)
    requires window > 0.0
  {
    AcceptedIn(readings, |readings|, ip, from, to, window) <= ((to - from) / window).Floor + 1
  }

  lemma RateLimit(readings: seq<Reading>, ip: string, from: real, to: real, window: real)
    requires window > 0.0 && from <= to && Regress(readings, 9.0 * window)
    ensures RateKept(readings, ip, from, to, window)
  {
    CountPushesLatest(readings, |readings|, ip, from, to, window);
    var count := AcceptedIn(readings, |readings|, ip, from, to, window);
    WindowsThatFit(if count == 0 then 0 else count - 1, to - from, window);
  }

  /** Past the tolerance two alerts are accepted within less than a window. */
  lemma PartingBreaksTheRate(window: real, excess: real)
    requires window > 0.0 && 0.0 < excess <= window
    ensures !RateKept(Parting(window, excess), "a", window, 2.0 * window - excess, window)
  {
    var rs, to := Parting(window, excess), 2.0 * window - excess;
    assert rs[..0] == [];
    PartingAcceptsTwice(window, excess);
    assert Counted(rs, 0, "a", window, to, window) && Counted(rs, 2, "a", window, to, window);
    assert AcceptedIn(rs, 1, "a", window, to, window) == 1;
    assert AcceptedIn(rs, 2, "a", window, to, window) == 1;
    QuotientBelowOne(to - window, window);
  }

  lemma ProductSign(a: real, b: real)
    requires a >= 0.0 && b >= 0.0
    ensures a * b >= 0.0
  {
  }

  lemma QuotientBelowOne(length: real, window: real)
    requires window > 0.0 && 0.0 <= length < window
    ensures (length / window).Floor == 0
  {
    var q := length / window;
    assert q * window == length;
    if q >= 1.0 {
      ProductSign(q - 1.0, window);
    }
    QuotientSign(length, window);
  }

  /** The rate holds for every run within a tolerance exactly when the tolerance is at most nine windows. */
  lemma RateIsExact(window: real, tolerance: real)
    requires window > 0.0
    ensures (forall readings: seq<Reading>, ip: string, from: real, to: real ::
               Regress(readings, tolerance) && from <= to ==> RateKept(readings, ip, from, to, window)) <==>
            tolerance <= 9.0 * window
  {
    if tolerance <= 9.0 * window {
      forall readings: seq<Reading>, ip: string, from: real, to: real | Regress(readings, tolerance) && from <= to
        ensures RateKept(readings, ip, from, to, window)
      {
        assert Regress(readings, 9.0 * window);
        RateLimit(readings, ip, from, to, window);
      }
    } else {
      var excess := Excess(window, tolerance);
      PartingBreaksTheRate(window, excess);
      PartingDisagrees(window, excess);
      assert Regress(Parting(window, excess), tolerance);
    }
  }

  lemma {:induction false} WindowsThatFit(n: nat, length: real, window: real)
    requires window > 0.0 && length >= 0.0 && Windows(n, window) <= length
    ensures n <= (length / window).Floor
  {
    if n == 0 {
      QuotientSign(length, window);
    } else {
      WindowsPositive(n - 1, window);
      WindowsThatFit(n - 1, length - window, window);
      QuotientDrop(length, window);
    }
  }

  lemma QuotientIs(length: real, window: real, q: real)
    requires window > 0.0 && q * window == length
    ensures length / window == q
  {
  }

  lemma QuotientDrop(length: real, window: real)
    requires window > 0.0
    ensures (length - window) / window == length / window - 1.0
  {
    var q := length / window;
    assert (q - 1.0) * window == q * window - window == length - window;
    QuotientIs(length - window, window, q - 1.0);
  }

  lemma QuotientSign(length: real, window: real)
    requires window > 0.0 && length >= 0.0
    ensures length / window >= 0.0
  {
  }

  lemma {:induction false} WindowsPositive(n: nat, window: real)
    requires window > 0.0
    ensures Windows(n, window) >= 0.0
  {
    if n > 0 {
      WindowsPositive(n - 1, window);
    }
  }
}
