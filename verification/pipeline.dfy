/** The data path of a run, from the pipes fetched from the node to the table
    cells: filter, build the report, lay out the cells. Fetching, publishing
    and the process exit are not part of this model. */
module Pipeline {
  import opened Results
  import opened Seqs
  import opened Pipes
  import opened NotificationFilter
  import opened Dedup
  import opened Sorting
  import opened PipeInfo
  import opened Template
  import StringOrder

  /** `get_pipe_info(pipes_with_notifications(pipes))`. The filter only asks
      for a non-empty `notifications` object, while the report needs its
      `rules` key: building the report fails exactly when a pipe passes the
      filter without `rules`, and the error names that key. */
  function BuildReport(pipes: seq<Pipe>): (r: Result<Report, KeyError>)
    ensures r.Failure? <==>
      exists i :: 0 <= i < |pipes| && HasNotifications(pipes[i]) && RulesOf(pipes[i]).Failure?
    ensures r.Failure? ==> r.error == KeyError("rules")
  {
    GetPipeInfo(PipesWithNotifications(pipes))
  }

  /** A pipe whose `notifications` object holds keys but no `rules` passes the
      filter and stops the report with a `KeyError` for `rules`. */
  lemma NotificationsWithoutRulesStopReport()
    ensures var p := Pipe("p", EffectiveConfig(Some(Metadata(Some(Notifications(None, {"email"}))))));
      && HasNotifications(p)
      && BuildReport([p]) == Failure(KeyError("rules"))
  {
  }

  /** A pipe whose `rules` list is empty also passes the filter: it gets a row
      with no rule types, so every cell of that row is the placeholder. */
  lemma EmptyRulesGivePlaceholderRow()
    ensures var p := Pipe("p", EffectiveConfig(Some(Metadata(Some(Notifications(Some([]), {}))))));
      && HasNotifications(p)
      && BuildReport([p]) == Success(Report([], [Row("p", [], [])]))
    ensures forall t :: Cell(Row("p", [], []), t) == Placeholder
  {
  }

  /** With no pipe passing the filter the report is empty and the table is
      its header row alone. */
  lemma NoNotifiablePipes(pipes: seq<Pipe>)
    requires forall i :: 0 <= i < |pipes| ==> !HasNotifications(pipes[i])
    ensures BuildReport(pipes) == Success(Report([], []))
    ensures Render(Report([], [])) == [[PipeColumn]]
  {
    assert [PipeColumn] + [] == [PipeColumn];
  }

  // Two pipes, already filtered, given out of `_id` order.
  const SlackPipe := Pipe("p2", EffectiveConfig(Some(Metadata(Some(Notifications(Some([Rule("slack", "d1")]), {}))))))
  const EmailPipe := Pipe("p1", EffectiveConfig(Some(Metadata(Some(Notifications(Some([Rule("email", "d2")]), {}))))))
  const SlackRow := Row("p2", [Rule("slack", "d1;  ")], ["slack"])
  const EmailRow := Row("p1", [Rule("email", "d2;  ")], ["email"])

  lemma ScenarioFilter()
    ensures PipesWithNotifications([SlackPipe, EmailPipe]) == [SlackPipe, EmailPipe]
  {
    var p2, p1 := SlackPipe, EmailPipe;
    assert HasNotifications(p2) && HasNotifications(p1);
    assert [p2, p1][..1] == [p2] && [p2][..0] == [];
    assert Filter(HasNotifications, [p2]) == [p2];
  }

  lemma ScenarioBuildRows()
    ensures BuildRow("p1", [Rule("email", "d2")]) == EmailRow
    ensures BuildRow("p2", [Rule("slack", "d1")]) == SlackRow
  {
    var r1, r2 := Rule("email", "d2"), Rule("slack", "d1");
    assert [r1][..0] == [] && [r2][..0] == [];
    assert "d2" + Separator == "d2;  " && "d1" + Separator == "d1;  ";
  }

  lemma ScenarioRows()
    ensures CollectRows([SlackPipe, EmailPipe]) == Success([SlackRow, EmailRow])
  {
    var pipes := [SlackPipe, EmailPipe];
    ScenarioBuildRows();
    assert RulesOf(pipes[0]) == Success([Rule("slack", "d1")]);
    assert RulesOf(pipes[1]) == Success([Rule("email", "d2")]);
    var rows := CollectRows(pipes).value;
    assert rows[0] == SlackRow && rows[1] == EmailRow;
    assert rows == [SlackRow, EmailRow];
  }

  lemma ScenarioColumns()
    ensures Distinct(RowRuleTypes([SlackRow, EmailRow])) == ["slack", "email"]
  {
    var row2, row1 := SlackRow, EmailRow;
    assert [row2, row1][..1] == [row2] && [row2][..0] == [];
    assert RowRuleTypes([row2]) == ["slack"];
    assert ["slack"] + ["email"] == ["slack", "email"];
    assert RowRuleTypes([row2, row1]) == ["slack", "email"];
    assert ["slack", "email"][..1] == ["slack"] && ["slack"][..0] == [];
    assert Distinct(["slack"]) == ["slack"];
  }

  lemma ScenarioOrder()
    ensures SortById([SlackRow, EmailRow]) == [EmailRow, SlackRow]
  {
  }

  lemma ScenarioCells()
    ensures Cell(EmailRow, "slack") == Placeholder && Cell(EmailRow, "email") == "d2;  "
    ensures Cell(SlackRow, "slack") == "d1;  " && Cell(SlackRow, "email") == Placeholder
  {
  }

  lemma ScenarioRender()
    ensures Render(Report(["slack", "email"], [EmailRow, SlackRow])) ==
      [["Pipe", "slack", "email"], ["p1", "&#32;", "d2;  "], ["p2", "d1;  ", "&#32;"]]
  {
    ScenarioCells();
    var types := ["slack", "email"];
    var emailCells, slackCells := RowCells(EmailRow, types), RowCells(SlackRow, types);
    assert emailCells == ["p1", "&#32;", "d2;  "];
    assert slackCells == ["p2", "d1;  ", "&#32;"];
    var table := Render(Report(types, [EmailRow, SlackRow]));
    assert table[0] == ["Pipe", "slack", "email"];
    assert table[1] == emailCells && table[2] == slackCells;
  }

  /** The two pipes give the columns in first-seen order and the rows in
      `_id` order, with descriptions or the placeholder in the cells. */
  lemma TwoPipeScenario()
    ensures BuildReport([SlackPipe, EmailPipe]) == Success(Report(["slack", "email"], [EmailRow, SlackRow]))
    ensures Render(BuildReport([SlackPipe, EmailPipe]).value) ==
      [["Pipe", "slack", "email"], ["p1", "&#32;", "d2;  "], ["p2", "d1;  ", "&#32;"]]
  {
    ScenarioFilter();
    ScenarioRows();
    ScenarioColumns();
    ScenarioOrder();
    ScenarioRender();
  }
}
