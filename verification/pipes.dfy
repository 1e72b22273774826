/** The records the poster works on: pipes as returned by the node's
    `/api/pipes` endpoint (only the parts the report reads), and the rows and
    report derived from them. */
module Pipes {
  import opened Results

  /** One notification rule of a pipe: its `type` and `description`. */
  datatype Rule = Rule(ruleType: string, description: string)

  /** The `notifications` object of a pipe's metadata: its `rules` list when
      that key is present, and the names of any other keys it holds. */
  datatype Notifications = Notifications(rules: Option<seq<Rule>>, otherKeys: set<string>)
  {
    /** `len()` of the object: how many keys it has. */
    function Size(): nat {
      (if rules.Some? then 1 else 0) + |otherKeys - {"rules"}|
    }
  }

  /** The `metadata` object of an effective configuration. */
  datatype Metadata = Metadata(notifications: Option<Notifications>)

  /** `config.effective` of a pipe: only its optional `metadata` key is read. */
  datatype EffectiveConfig = EffectiveConfig(metadata: Option<Metadata>)

  /** A pipe, identified by its `_id`. */
  datatype Pipe = Pipe(id: string, effective: EffectiveConfig)

  /** The dictionary key whose absence raised a `KeyError`. */
  datatype KeyError = KeyError(key: string)

  /** One report row: the pipe's `_id`, its copied rules and its rule types. */
  datatype Row = Row(id: string, rules: seq<Rule>, pipeRuleTypes: seq<string>)

  /** The report handed to the template: distinct rule types and sorted rows. */
  datatype Report = Report(ruleTypes: seq<string>, pipes: seq<Row>)

  /** Evaluates `p['config']['effective']['metadata']['notifications']['rules']`,
      failing with the first key on that path that is absent. */
  function RulesOf(p: Pipe): (r: Result<seq<Rule>, KeyError>)
    ensures r.Success? <==>
      && p.effective.metadata.Some?
      && p.effective.metadata.value.notifications.Some?
      && p.effective.metadata.value.notifications.value.rules.Some?
    ensures r.Success? ==> r.value == p.effective.metadata.value.notifications.value.rules.value
    ensures p.effective.metadata.None? ==> r == Failure(KeyError("metadata"))
    ensures p.effective.metadata.Some? && p.effective.metadata.value.notifications.None? ==>
      r == Failure(KeyError("notifications"))
    ensures (&& p.effective.metadata.Some?
             && p.effective.metadata.value.notifications.Some?
             && p.effective.metadata.value.notifications.value.rules.None?) ==>
      r == Failure(KeyError("rules"))
  {
    match p.effective.metadata
    case None => Failure(KeyError("metadata"))
    case Some(m) =>
      match m.notifications
      case None => Failure(KeyError("notifications"))
      case Some(n) =>
        match n.rules
        case None => Failure(KeyError("rules"))
        case Some(rules) => Success(rules)
  }
}
