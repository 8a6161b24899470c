/** Flow reassembly: src/capture/flow_tracker.hpp and flow_tracker.cpp. */
module FlowTracker {
  import opened Common

  datatype FlowKey = FlowKey(srcIp: Addr, dstIp: Addr, srcPort: Port, dstPort: Port, protocol: Byte)

  datatype FlowState = FlowState(buffer: Bytes, lastSeen: int)

  type Flows = map<FlowKey, FlowState>

  const MAX_FLOW_BUFFER := 4096

  const READY_SIZE := 512

  /** One call on the tracker, with the steady-clock reading it takes. */
  datatype Event =
    | Packet(key: FlowKey, bytes: Bytes, now: int)
    | Sweep(now: int, timeout: int)

  function Held(flows: Flows, key: FlowKey): Bytes
  {
    if key in flows then flows[key].buffer else []
  }

  /** The flows after a packet, and the payload handed back (empty: not ready yet). */
  function AfterPacket(flows: Flows, key: FlowKey, pkt: Bytes, now: int): (Flows, Bytes)
  {
    var held := Held(flows, key);
    var buffer := if |held| < MAX_FLOW_BUFFER then held + pkt else held;
    if |buffer| >= READY_SIZE then (flows - {key}, buffer)
    else (flows[key := FlowState(buffer, now)], [])
  }

  /** The flows a sweep keeps: those seen no longer than `timeout` ago. */
  function AfterSweep(flows: Flows, now: int, timeout: int): Flows
  {
    map key | key in flows && now - flows[key].lastSeen <= timeout :: flows[key]
  }

  function Apply(flows: Flows, e: Event): (Flows, Bytes)
  {
    match e
    case Packet(key, bytes, now) => AfterPacket(flows, key, bytes, now)
    case Sweep(now, timeout) => (AfterSweep(flows, now, timeout), [])
  }

  /** The flows after a whole run that starts with an empty tracker. */
  function Run(events: seq<Event>): Flows
  {
    if events == [] then map[] else Apply(Run(events[..|events| - 1]), events[|events| - 1]).0
  }

  /** What the call at position `i` of a run hands back. */
  function Output(events: seq<Event>, i: nat): Bytes
    requires i < |events|
  {
    Apply(Run(events[..i]), events[i]).1
  }

  class Tracker {
    var activeFlows: Flows

    constructor ()
      ensures activeFlows == map[]
    {
      activeFlows := map[];
    }

    method ProcessPacket(key: FlowKey, pkt: Bytes, now: int) returns (payload: Bytes)
      modifies this
      ensures (activeFlows, payload) == AfterPacket(old(activeFlows), key, pkt, now)
      ensures var held := if key in old(activeFlows) then old(activeFlows)[key].buffer else [];
              var buffer := if |held| < 4096 then held + pkt else held;
              && payload == (if |buffer| >= 512 then buffer else [])
              && (key in activeFlows <==> |buffer| < 512)
              && (key in activeFlows ==> activeFlows[key] == FlowState(buffer, now))
      ensures activeFlows - {key} == old(activeFlows) - {key}
    {
      // operator[] creates an empty entry when the key is new
      if key !in activeFlows {
        activeFlows := activeFlows[key := FlowState([], now)];
      }
      activeFlows := activeFlows[key := activeFlows[key].(lastSeen := now)];

      if |activeFlows[key].buffer| < MAX_FLOW_BUFFER {
        activeFlows := activeFlows[key := activeFlows[key].(buffer := activeFlows[key].buffer + pkt)];
      }

      if |activeFlows[key].buffer| >= READY_SIZE {
        payload := activeFlows[key].buffer;
        activeFlows := activeFlows - {key};
        assert activeFlows == old(activeFlows) - {key};
        return;
      }
      payload := [];
      assert activeFlows == old(activeFlows)[key := activeFlows[key]];
    }

    /** Erases while iterating; `next` is any entry the iteration order has not reached yet. */
    method CleanupStale(now: int, timeout: int)
      modifies this
      ensures activeFlows == AfterSweep(old(activeFlows), now, timeout)
    {
      var ahead := activeFlows.Keys;
      while ahead != {}
        invariant ahead <= activeFlows.Keys <= old(activeFlows).Keys
        invariant forall key :: key in activeFlows ==> activeFlows[key] == old(activeFlows)[key]
        invariant forall key :: key in old(activeFlows) && key !in ahead ==>
                                  (key in activeFlows <==> now - old(activeFlows)[key].lastSeen <= timeout)
        decreases |ahead|
      {
        var next :| next in ahead;
        ahead := ahead - {next};
        if now - activeFlows[next].lastSeen > timeout {
          activeFlows := activeFlows - {next};
        }
      }
    }
  }
}
