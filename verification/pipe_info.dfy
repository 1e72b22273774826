/** `get_pipe_info`: one row per pipe with its rules copied and their types
    listed, the distinct rule types over all pipes in first-seen order, and
    the rows sorted by `_id`. */
module PipeInfo {
  import opened Results
  import opened Seqs
  import opened Pipes
  import opened Dedup
  import opened Sorting

  /** Appended to every description when it is copied into a row. */
  const Separator: string := ";  "

  /** The rules as copied into a row: same types, in the same order, each
      description followed by the separator. */
  function CopyRules(rules: seq<Rule>): (copied: seq<Rule>)
    ensures |copied| == |rules|
    ensures forall i :: 0 <= i < |rules| ==>
      copied[i].ruleType == rules[i].ruleType && copied[i].description == rules[i].description + Separator
  {
    if |rules| == 0 then []
    else
      var last := rules[|rules| - 1];
      CopyRules(rules[..|rules| - 1]) + [Rule(last.ruleType, last.description + Separator)]
  }

  /** The type of each rule, in rule order. */
  function TypesOf(rules: seq<Rule>): (types: seq<string>)
    ensures |types| == |rules|
    ensures forall i :: 0 <= i < |rules| ==> types[i] == rules[i].ruleType
  {
    if |rules| == 0 then [] else TypesOf(rules[..|rules| - 1]) + [rules[|rules| - 1].ruleType]
  }

  /** `s` ends with the separator. */
  predicate EndsWithSeparator(s: string) {
    |s| >= |Separator| && s[|s| - |Separator|..] == Separator
  }

  /** A row's `pipe_rule_types` lists the types of its own rules, and every
      description in it carries the separator. */
  ghost predicate WellFormedRow(row: Row) {
    && row.pipeRuleTypes == TypesOf(row.rules)
    && forall i :: 0 <= i < |row.rules| ==> EndsWithSeparator(row.rules[i].description)
  }

  /** The row built for one pipe from its `_id` and its rules. */
  function BuildRow(id: string, rules: seq<Rule>): (row: Row)
    ensures row.id == id
    ensures |row.rules| == |rules| && |row.pipeRuleTypes| == |rules|
    ensures forall i :: 0 <= i < |rules| ==>
      && row.rules[i].ruleType == rules[i].ruleType
      && row.rules[i].description == rules[i].description + Separator
      && row.pipeRuleTypes[i] == rules[i].ruleType
    ensures WellFormedRow(row)
  {
    var copied := CopyRules(rules);
    assert TypesOf(copied) == TypesOf(rules);
    Row(id, copied, TypesOf(rules))
  }

  /** Position of the first pipe whose rules cannot be reached, or the
      number of pipes when every pipe has them. */
  function FirstWithoutRules(pipes: seq<Pipe>): (k: nat)
    ensures k <= |pipes|
    ensures forall j :: 0 <= j < k ==> RulesOf(pipes[j]).Success?
    ensures k < |pipes| ==> RulesOf(pipes[k]).Failure?
  {
    if |pipes| == 0 || RulesOf(pipes[0]).Failure? then 0
    else 1 + FirstWithoutRules(pipes[1..])
  }

  /** The rows in input order. The loop stops with the `KeyError` of the
      first pipe lacking `metadata`, `notifications` or `rules`. */
  function CollectRows(pipes: seq<Pipe>): (r: Result<seq<Row>, KeyError>)
    ensures r.Success? <==> forall i :: 0 <= i < |pipes| ==> RulesOf(pipes[i]).Success?
    ensures r.Success? ==> |r.value| == |pipes| && forall i :: 0 <= i < |pipes| ==>
      RulesOf(pipes[i]).Success? && r.value[i] == BuildRow(pipes[i].id, RulesOf(pipes[i]).value)
    ensures r.Failure? ==> RulesOf(pipes[FirstWithoutRules(pipes)]) == Failure(r.error)
  {
    if |pipes| == 0 then Success([])
    else
      match RulesOf(pipes[0])
      case Failure(e) => Failure(e)
      case Success(rules) =>
        match CollectRows(pipes[1..])
        case Failure(e) => Failure(e)
        case Success(rows) => Success([BuildRow(pipes[0].id, rules)] + rows)
  }

  /** The rule types of the rows, row after row, duplicates kept. */
  function RowRuleTypes(rows: seq<Row>): seq<string>
  {
    if |rows| == 0 then [] else RowRuleTypes(rows[..|rows| - 1]) + rows[|rows| - 1].pipeRuleTypes
  }

  /** The `type` of every rule of every pipe, pipe after pipe in input order,
      duplicates kept; pipes without rules contribute nothing. */
  function InputRuleTypes(pipes: seq<Pipe>): (types: seq<string>)
    ensures forall t :: t in types <==>
      exists i :: 0 <= i < |pipes| && RulesOf(pipes[i]).Success? && t in TypesOf(RulesOf(pipes[i]).value)
  {
    if |pipes| == 0 then []
    else
      var n := |pipes| - 1;
      assert forall i :: 0 <= i < n ==> pipes[..n][i] == pipes[i];
      var own := match RulesOf(pipes[n]) case Success(rules) => TypesOf(rules) case Failure(_) => [];
      InputRuleTypes(pipes[..n]) + own
  }

  /** The report for the given pipes: the distinct rule types, in first-seen
      order, and the rows sorted by `_id`; or the `KeyError` of the first pipe
      whose rules cannot be reached. */
  function GetPipeInfo(pipes: seq<Pipe>): (r: Result<Report, KeyError>)
    ensures r.Success? <==> forall i :: 0 <= i < |pipes| ==> RulesOf(pipes[i]).Success?
    ensures r.Failure? ==> RulesOf(pipes[FirstWithoutRules(pipes)]) == Failure(r.error)
    ensures r.Success? ==>
      && SortedById(r.value.pipes)
      && multiset(r.value.pipes) == multiset(CollectRows(pipes).value)
      && SameOrderPerId(r.value.pipes, CollectRows(pipes).value)
    ensures r.Success? ==> NoDups(r.value.ruleTypes)
    ensures r.Success? ==> forall t :: t in r.value.ruleTypes <==> t in InputRuleTypes(pipes)
  {
    match CollectRows(pipes)
    case Failure(e) => Failure(e)
    case Success(rows) =>
      SortByIdSortedStable(rows);
      RowRuleTypesMatchInput(pipes);
      Success(Report(Distinct(RowRuleTypes(rows)), SortById(rows)))
  }

  /** Collecting types from the rows gives the types of the input rules. */
  lemma {:induction false} RowRuleTypesMatchInput(pipes: seq<Pipe>)
    requires CollectRows(pipes).Success?
    ensures RowRuleTypes(CollectRows(pipes).value) == InputRuleTypes(pipes)
  {
    if |pipes| > 0 {
      var n := |pipes| - 1;
      assert CollectRows(pipes[..n]).Success?;
      RowRuleTypesMatchInput(pipes[..n]);
      var rows := CollectRows(pipes).value;
      assert rows[..n] == CollectRows(pipes[..n]).value;
    }
  }

  /** `rule_types` is `get_distinct` of all rule types in input order, taken
      before the rows are sorted: duplicate-free, exactly the types that occur,
      ordered by first occurrence. */
  lemma {:induction false} RuleTypesFirstSeen(pipes: seq<Pipe>)
    requires forall i :: 0 <= i < |pipes| ==> RulesOf(pipes[i]).Success?
    ensures GetPipeInfo(pipes).value.ruleTypes == Distinct(InputRuleTypes(pipes))
    ensures IsFirstSeenDedup(InputRuleTypes(pipes), GetPipeInfo(pipes).value.ruleTypes)
  {
    RowRuleTypesMatchInput(pipes);
    DistinctFirstSeenOrder(InputRuleTypes(pipes));
  }

  /** The rows of the report are the rows built from the input pipes, sorted
      by `_id` exactly as any stable sort would place them. */
  lemma RowsAreStablySorted(pipes: seq<Pipe>, t: seq<Row>)
    requires GetPipeInfo(pipes).Success?
    requires SortedById(t) && SameOrderPerId(t, CollectRows(pipes).value)
    ensures GetPipeInfo(pipes).value.pipes == t
  {
    SortByIdIsUnique(CollectRows(pipes).value, t);
  }
}
