/** One record of the audit ledger, and what a reader asks of it. */
module Records {
  import opened Wrappers
  import opened Json
  import opened Text

  datatype ToolChanges = ToolChanges(added: U32, removed: U32, changed: U32, drifted: U32)

  /** The v1 members, then the later ones, any unknown ones as read, and the chain's link. */
  datatype Record = Record(
    seqNo: nat,
    tsUnixMs: nat,
    agent: string,
    server: string,
    methodName: Option<string>,
    tool: Option<string>,
    decision: string,
    rule: Option<string>,
    latencyMs: nat,
    kind: Option<string>,
    uri: Option<string>,
    transforms: Option<seq<string>>,
    actor: Option<string>,
    peer: Option<string>,
    configFrom: Option<string>,
    configTo: Option<string>,
    toolChanges: Option<ToolChanges>,
    extra: seq<Member>,
    prevHash: string,
    hash: string)

  datatype Filter = Filter(
    decision: Option<string>,
    server: Option<string>,
    tool: Option<string>,
    agent: Option<string>,
    rule: Option<string>,
    kind: Option<string>,
    since: Option<nat>,
    until: Option<nat>)
  {
    static predicate Is(want: Option<string>, have: Option<string>) {
      want.None? || have == want
    }

    /** A record passes when it meets every part of the filter that is set. */
    predicate Matches(r: Record) {
      && Is(decision, Some(r.decision))
      && Is(server, Some(r.server))
      && Is(tool, r.tool)
      && Is(agent, Some(r.agent))
      && Is(rule, r.rule)
      && Is(kind, Some(r.kind.GetOr("call")))
      && !TooOld(r)
      && (until.Some? ==> r.tsUnixMs < until.value)
    }

    predicate TooOld(r: Record) {
      since.Some? && r.tsUnixMs < since.value
    }
  }

  /** A filter wants a record exactly when it is what each part of the filter that is set
    * asks for; one with no kind is a call; and times start at `since` and stop short of
    * `until`. */
  lemma {:induction false} MatchesMeans(f: Filter, r: Record)
    ensures f.Matches(r) <==>
            && (f.decision.Some? ==> r.decision == f.decision.value)
            && (f.server.Some? ==> r.server == f.server.value)
            && (f.tool.Some? ==> r.tool.Some? && r.tool.value == f.tool.value)
            && (f.agent.Some? ==> r.agent == f.agent.value)
            && (f.rule.Some? ==> r.rule.Some? && r.rule.value == f.rule.value)
            && (f.kind.Some? ==> if r.kind.Some? then r.kind.value == f.kind.value else f.kind.value == "call")
            && (f.since.Some? ==> f.since.value <= r.tsUnixMs)
            && (f.until.Some? ==> r.tsUnixMs < f.until.value)
    ensures f.TooOld(r) <==> f.since.Some? && r.tsUnixMs < f.since.value
  {
  }
}
