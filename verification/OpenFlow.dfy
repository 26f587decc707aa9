/** Flow tables with OpenFlow 1.0 semantics: prioritised lookup (section 3.4), replacing adds and
    non-strict deletes (section 4.6). */
module OpenFlow {
  import opened Common

  /** A missing field is a wildcard. */
  datatype Match = Match(inPort: Option<string>, dlDst: Option<string>)

  datatype Action = Normal | ToInPort | Output(port: string)

  datatype FlowKey = FlowKey(priority: nat, m: Match)

  datatype Packet = Packet(inPort: string, dlDst: string)

  /** An add with the match and priority of an existing flow replaces it, so these two are the key. */
  type Table = map<FlowKey, Action>

  predicate Subsumes(general: Match, special: Match) {
    && (general.inPort.Some? ==> general.inPort == special.inPort)
    && (general.dlDst.Some? ==> general.dlDst == special.dlDst)
  }

  predicate Hits(m: Match, p: Packet) {
    Subsumes(m, Match(Some(p.inPort), Some(p.dlDst)))
  }

  function AddFlow(t: Table, k: FlowKey, a: Action): Table {
    t[k := a]
  }

  /** Non-strict: flows equal to `m` or more specific than it go, whatever their priority. */
  function DelFlows(t: Table, m: Match): Table {
    map k | k in t && !Subsumes(m, k.m) :: t[k]
  }

  ghost predicate SubTable(t: Table, u: Table) {
    forall k :: k in t ==> k in u && u[k] == t[k]
  }

  /** `k` is the one flow of highest priority that the packet hits. */
  ghost predicate Decides(t: Table, p: Packet, k: FlowKey) {
    && k in t
    && Hits(k.m, p)
    && forall other :: other in t && Hits(other.m, p) && other != k ==> other.priority < k.priority
  }

  /** Keys of flows for one input port, optionally narrowed to one destination. */
  function PortKey(priority: nat, port: string): FlowKey {
    FlowKey(priority, Match(Some(port), None))
  }

  function PortMacKey(priority: nat, port: string, mac: string): FlowKey {
    FlowKey(priority, Match(Some(port), Some(mac)))
  }
}
