/** Block and drop: src/mcp_server/tools/sec_tools.cpp writes the map that src/ebpf/xdp_filter.c reads. */
module Firewall {
  import opened Common
  import opened Ipv4Text
  import opened Sniffer

  const MAX_ENTRIES: nat := 100000

  const U32: nat := 0x1_0000_0000

  type Counter = c: int | 0 <= c < U32

  /** The kernel's aegis_blacklist map and the DROP rules appended to iptables. */
  datatype Host = Host(blacklist: map<Addr, Counter>, rules: seq<string>)

  const FRESH := Host(map[], [])

  /** What the system lets one call do; an update can also fail because the map is full. */
  datatype Env = Env(mapOpens: bool, updateAllowed: bool, iptablesWorks: bool)

  datatype Method = EbpfXdp | IptablesFallback

  datatype Answer =
    | Blocked(how: Method, ip: string)
    | InvalidIp
    | BothFailed

  datatype Verdict = Pass | Drop

  predicate HasRoom(blacklist: map<Addr, Counter>, key: Addr)
  {
    key in blacklist || |blacklist| < MAX_ENTRIES
  }

  /** args.value("ip", "") */
  function IpArgument(args: Option<string>): string
  {
    match args case Some(ip) => ip case None => ""
  }

  /** SecTools::execute */
  function Execute(h: Host, args: Option<string>, env: Env): (Host, Answer)
  {
    var ip := IpArgument(args);
    match Parse(ip)
    case None => (h, InvalidIp)
    case Some(target) =>
      if env.mapOpens && env.updateAllowed && HasRoom(h.blacklist, target) then
        (h.(blacklist := h.blacklist[target := 1]), Blocked(EbpfXdp, ip))
      else if env.iptablesWorks then
        (h.(rules := h.rules + [CString(ip)]), Blocked(IptablesFallback, ip))
      else (h, BothFailed)
  }

  /** xdp_firewall */
  function Filter(h: Host, frame: Bytes): (Host, Verdict)
  {
    if CompleteIpv4(frame) && SourceOf(frame) in h.blacklist then
      var src := SourceOf(frame);
      (h.(blacklist := h.blacklist[src := (h.blacklist[src] + 1) % U32]), Drop)
    else (h, Pass)
  }

  /** The kernel side: the map, its update syscall and the program that reads it. */
  class Kernel {
    var blacklist: map<Addr, Counter>

    constructor ()
      ensures blacklist == map[]
    {
      blacklist := map[];
    }

    /** raw_bpf_map_update with BPF_ANY: overwrites an entry, or adds one while there is room. */
    method MapUpdate(key: Addr, value: Counter, allowed: bool) returns (ok: bool)
      modifies this
      ensures ok == (allowed && (key in old(blacklist) || |old(blacklist)| < 100000))
      ensures blacklist == if ok then old(blacklist)[key := value] else old(blacklist)
    {
      ok := allowed && (key in blacklist || |blacklist| < MAX_ENTRIES);
      if ok {
        blacklist := blacklist[key := value];
      }
    }

    method XdpFirewall(frame: Bytes) returns (verdict: Verdict)
      modifies this
      ensures verdict == Filter(Host(old(blacklist), []), frame).1
      ensures blacklist == Filter(Host(old(blacklist), []), frame).0.blacklist
      ensures verdict == Drop <==>
              |frame| >= 34 && frame[12] == 8 && frame[13] == 0 && frame[26..30] in old(blacklist)
      ensures verdict == Pass ==> blacklist == old(blacklist)
      ensures verdict == Drop ==>
                var count := (old(blacklist)[frame[26..30]] as int + 1) % 0x1_0000_0000;
                blacklist == old(blacklist)[frame[26..30] := count]
    {
      if ETHER_HEADER > |frame| {
        return Pass;
      }
      if Word(frame, 12) != ETHERTYPE_IP {
        return Pass;
      }
      if ETHER_HEADER + IP_HEADER > |frame| {
        return Pass;
      }
      var srcIp: Addr := frame[26..30];
      if srcIp in blacklist {
        blacklist := blacklist[srcIp := (blacklist[srcIp] + 1) % U32];
        return Drop;
      }
      return Pass;
    }
  }

  class SecTools {
    const kernel: Kernel
    var rules: seq<string>

    constructor (kernel: Kernel)
      ensures this.kernel == kernel && rules == []
    {
      this.kernel := kernel;
      rules := [];
    }

    ghost function State(): Host
      reads this, kernel
    {
      Host(kernel.blacklist, rules)
    }

    /** iptables -w -A INPUT -s ip -j DROP */
    method IptablesBlock(ip: string, works: bool) returns (ok: bool)
      modifies this
      ensures ok == works && rules == if works then old(rules) + [CString(ip)] else old(rules)
    {
      if works {
        rules := rules + [CString(ip)];
      }
      ok := works;
    }

    method ExecuteTool(args: Option<string>, env: Env) returns (answer: Answer)
      modifies this, kernel
      ensures (State(), answer) == Execute(old(State()), args, env)
      ensures rules == old(rules) + if answer == Blocked(IptablesFallback, IpArgument(args))
                                    then [CString(IpArgument(args))] else []
      ensures answer != Blocked(EbpfXdp, IpArgument(args)) ==> kernel.blacklist == old(kernel.blacklist)
      ensures answer == Blocked(EbpfXdp, IpArgument(args)) ==>
                Parse(IpArgument(args)).Some? &&
                kernel.blacklist == old(kernel.blacklist)[Parse(IpArgument(args)).value := 1]
    {
      var ip := IpArgument(args);
      var parsed := Parse(ip);
      if parsed.None? {
        return InvalidIp;
      }
      if env.mapOpens {
        var ok := kernel.MapUpdate(parsed.value, 1, env.updateAllowed);
        if ok {
          return Blocked(EbpfXdp, ip);
        }
      }
      var ok := IptablesBlock(ip, env.iptablesWorks);
      if ok {
        return Blocked(IptablesFallback, ip);
      }
      return BothFailed;
    }
  }

  /** A call with the text of an address: one of three answers, each with all that it changes. */
  lemma AnswersMean(h: Host, args: Option<string>, env: Env, a: Addr)
    requires CString(IpArgument(args)) == Print(a)
    ensures var stored := env.mapOpens && env.updateAllowed && (a in h.blacklist || |h.blacklist| < 100000);
            Execute(h, args, env) ==
            if stored then (Host(h.blacklist[a := 1], h.rules), Blocked(EbpfXdp, IpArgument(args)))
            else if env.iptablesWorks then
              (Host(h.blacklist, h.rules + [Print(a)]), Blocked(IptablesFallback, IpArgument(args)))
            else (h, BothFailed)
  {
    ParseExactlyPrinted(IpArgument(args), a);
  }

  /** The printed address itself: the map is written exactly when it opens, may be updated and has room. */
  lemma PrintedIsWritten(h: Host, a: Addr, env: Env)
    ensures Parse(Print(a)) == Some(a)
    ensures Execute(h, Some(Print(a)), env).1 == Blocked(EbpfXdp, Print(a)) <==>
            env.mapOpens && env.updateAllowed && (a in h.blacklist || |h.blacklist| < 100000)
  {
    RoundTrip(a);
    FieldsOfPrint(a);
    AnswersMean(h, Some(Print(a)), env, a);
  }

  /** Only the text of an address gets past validation. */
  lemma InvalidIffNoAddress(h: Host, args: Option<string>, env: Env)
    ensures Execute(h, args, env).1 == InvalidIp <==> forall a: Addr :: CString(IpArgument(args)) != Print(a)
    ensures Execute(h, args, env).1 == InvalidIp ==> Execute(h, args, env).0 == h
    ensures args.None? ==> Execute(h, args, env).1 == InvalidIp
  {
    if args.None? {
      assert Fields([]) == [[]];
    }
    forall a: Addr | CString(IpArgument(args)) == Print(a) ensures Parse(IpArgument(args)) == Some(a) {
      ParseExactlyPrinted(IpArgument(args), a);
    }
    if Parse(IpArgument(args)).Some? {
      ParseExactlyPrinted(IpArgument(args), Parse(IpArgument(args)).value);
    }
  }

  /** What the filter does to a frame, over its bytes: the rules stay, a drop counts one in the source's entry. */
  lemma FilterExactly(h: Host, frame: Bytes)
    ensures var (h', verdict) := Filter(h, frame);
            && (verdict == Drop <==>
                  |frame| >= 34 && frame[12] == 8 && frame[13] == 0 && frame[26..30] in h.blacklist)
            && (verdict == Pass ==> h' == h)
            && (verdict == Drop ==>
                  var count := (h.blacklist[frame[26..30]] as int + 1) % 0x1_0000_0000;
                  h' == Host(h.blacklist[frame[26..30] := count], h.rules))
  {
    CompleteExactly(frame);
  }

  /** The kernel map takes `a` when asked to, or has it already. */
  predicate Taken(h: Host, a: Addr, env: Env)
  {
    a in h.blacklist || (env.mapOpens && env.updateAllowed && |h.blacklist| < 100000)
  }

  /** After a call the map has an address exactly if it had it, or the text was the address and the map took it. */
  lemma BlockAdds(h: Host, args: Option<string>, env: Env, a: Addr)
    ensures a in Execute(h, args, env).0.blacklist <==>
            a in h.blacklist || (CString(IpArgument(args)) == Print(a) && Taken(h, a, env))
  {
    ParseExactlyPrinted(IpArgument(args), a);
  }

  // ---- Whole runs ------------------------------------------------------------------------------

  datatype Event =
    | Frame(bytes: Bytes)
    | Block(args: Option<string>, env: Env)

  function Apply(h: Host, e: Event): Host
  {
    match e
    case Frame(bytes) => Filter(h, bytes).0
    case Block(args, env) => Execute(h, args, env).0
  }

  function After(events: seq<Event>): Host
  {
    if events == [] then FRESH else Apply(After(events[..|events| - 1]), events[|events| - 1])
  }

  /** Event `i` answered success by ebpf_xdp for `a`. */
  predicate Writes(events: seq<Event>, i: nat, a: Addr)
    requires i < |events|
  {
    && events[i].Block?
    && Parse(IpArgument(events[i].args)) == Some(a)
    && Execute(After(events[..i]), events[i].args, events[i].env).1 == Blocked(EbpfXdp, IpArgument(events[i].args))
  }

  predicate Drops(events: seq<Event>, i: nat)
    requires i < |events|
  {
    events[i].Frame? && Filter(After(events[..i]), events[i].bytes).1 == Drop
  }

  ghost predicate EverWritten(events: seq<Event>, a: Addr)
  {
    exists i :: 0 <= i < |events| && Writes(events, i, a)
  }

  lemma EverWrittenSnoc(events: seq<Event>, a: Addr)
    requires events != []
    ensures EverWritten(events, a) <==>
            EverWritten(events[..|events| - 1], a) || Writes(events, |events| - 1, a)
  {
    var before := events[..|events| - 1];
    forall i | 0 <= i < |before| ensures Writes(before, i, a) <==> Writes(events, i, a) {
      assert before[..i] == events[..i];
    }
  }

  lemma ApplyAddsOnlyWrites(events: seq<Event>, a: Addr)
    requires events != []
    ensures a in After(events).blacklist <==>
            a in After(events[..|events| - 1]).blacklist || Writes(events, |events| - 1, a)
  {
  }

  /** The map holds exactly the addresses written: frames and their wrapping counters add and remove none. */
  lemma {:induction false} BlacklistIsWhatWasWritten(events: seq<Event>, a: Addr)
    ensures a in After(events).blacklist <==> EverWritten(events, a)
  {
    if events != [] {
      BlacklistIsWhatWasWritten(events[..|events| - 1], a);
      EverWrittenSnoc(events, a);
      ApplyAddsOnlyWrites(events, a);
    }
  }

  /** A frame is dropped exactly when it is complete IPv4 and its source was written before. */
  lemma DropsExactly(events: seq<Event>, i: nat)
    requires i < |events| && events[i].Frame?
    ensures var f := events[i].bytes;
            Drops(events, i) <==>
            && |f| >= 34 && f[12] == 8 && f[13] == 0
            && exists j :: 0 <= j < i && Writes(events, j, f[26..30])
  {
    CompleteExactly(events[i].bytes);
    if CompleteIpv4(events[i].bytes) {
      var src := SourceOf(events[i].bytes);
      BlacklistIsWhatWasWritten(events[..i], src);
      forall j | 0 <= j < i ensures Writes(events[..i], j, src) <==> Writes(events, j, src) {
        assert events[..i][..j] == events[..j];
      }
    }
  }

  /** Event `i` answered success by iptables_fallback. */
  predicate FallsBack(events: seq<Event>, i: nat)
    requires i < |events|
  {
    && events[i].Block?
    && Execute(After(events[..i]), events[i].args, events[i].env).1
       == Blocked(IptablesFallback, IpArgument(events[i].args))
  }

  /** The texts of the calls answered iptables_fallback, in order. */
  function FallbackTexts(events: seq<Event>): seq<string>
  {
    if events == [] then [] else
      var last := |events| - 1;
      FallbackTexts(events[..last]) +
      if FallsBack(events, last) then [CString(IpArgument(events[last].args))] else []
  }

  /** Rules are only ever appended, one for each such call: neither frames nor other calls touch them. */
  lemma {:induction false} RulesAreTheFallbacks(events: seq<Event>)
    ensures After(events).rules == FallbackTexts(events)
  {
    if events != [] {
      RulesAreTheFallbacks(events[..|events| - 1]);
    }
  }

  /** Frames of `a` dropped since `a` was last written. */
  function DropsSinceWrite(events: seq<Event>, a: Addr): nat
  {
    if events == [] then 0 else
      var last := |events| - 1;
      if Writes(events, last, a) then 0
      else DropsSinceWrite(events[..last], a) +
           if Drops(events, last) && SourceOf(events[last].bytes) == a then 1 else 0
  }

  lemma NextCount(count: nat)
    ensures ((1 + count) % 0x1_0000_0000 + 1) % 0x1_0000_0000 == (1 + (count + 1)) % 0x1_0000_0000
  {
  }

  lemma BlockStep(h: Host, args: Option<string>, env: Env, a: Addr)
    requires a in Execute(h, args, env).0.blacklist
    ensures var (h', answer) := Execute(h, args, env);
            if Parse(IpArgument(args)) == Some(a) && answer == Blocked(EbpfXdp, IpArgument(args))
            then h'.blacklist[a] == 1
            else a in h.blacklist && h'.blacklist[a] == h.blacklist[a]
  {
  }

  lemma FrameStep(h: Host, frame: Bytes, a: Addr)
    requires a in Filter(h, frame).0.blacklist
    ensures var (h', verdict) := Filter(h, frame);
            && a in h.blacklist
            && h'.blacklist[a] == if verdict == Drop && SourceOf(frame) == a
                                  then (h.blacklist[a] as int + 1) % 0x1_0000_0000 else h.blacklist[a]
  {
  }

  /** A map value is one plus the drops since the address was last written, modulo 2^32. */
  lemma {:induction false} CounterCountsDrops(events: seq<Event>, a: Addr)
    requires a in After(events).blacklist
    ensures After(events).blacklist[a] == (1 + DropsSinceWrite(events, a)) % 0x1_0000_0000
  {
    var last := |events| - 1;
    var h := After(events[..last]);
    match events[last]
    case Block(args, env) =>
      BlockStep(h, args, env, a);
      if !Writes(events, last, a) {
        CounterCountsDrops(events[..last], a);
      }
    case Frame(bytes) =>
      FrameStep(h, bytes, a);
      CounterCountsDrops(events[..last], a);
      NextCount(DropsSinceWrite(events[..last], a));
  }

  /** The map never outgrows its declaration. */
  lemma {:induction false} MapStaysBounded(events: seq<Event>)
    ensures |After(events).blacklist| <= 100000
  {
    if events != [] {
      var h, e := After(events[..|events| - 1]), events[|events| - 1];
      MapStaysBounded(events[..|events| - 1]);
      var h' := Apply(h, e);
      if h'.blacklist.Keys != h.blacklist.Keys {
        var a :| a in h'.blacklist && a !in h.blacklist;
        assert h'.blacklist.Keys == h.blacklist.Keys + {a};
      }
      assert |h'.blacklist| == |h'.blacklist.Keys| && |h.blacklist| == |h.blacklist.Keys|;
    }
  }
}
