/** What the fixed HTML template puts in each table cell. Only the logical
    content of the cells is modelled: a header row, then one row per pipe in
    report order. Markup, whitespace and comments around the cells are not. */
module Template {
  import opened Pipes
  import opened PipeInfo

  /** First header cell. */
  const PipeColumn: string := "Pipe"

  /** Written into a cell when the pipe has no rule of the column's type. */
  const Placeholder: string := "&#32;"

  /** The descriptions of the rules of type `t`, concatenated in rule order. */
  function DescriptionsOfType(rules: seq<Rule>, t: string): string
  {
    if |rules| == 0 then ""
    else
      var last := rules[|rules| - 1];
      DescriptionsOfType(rules[..|rules| - 1], t) + (if last.ruleType == t then last.description else "")
  }

  /** The cell of `row` in the column of rule type `t`: the placeholder when
      the row has no rule of that type. In a well-formed row a cell with
      descriptions ends with the separator, so the placeholder appears exactly
      when the type is absent. */
  function Cell(row: Row, t: string): (cell: string)
    ensures t !in row.pipeRuleTypes ==> cell == Placeholder
    ensures WellFormedRow(row) && t in row.pipeRuleTypes ==> EndsWithSeparator(cell)
    ensures WellFormedRow(row) ==> (cell == Placeholder <==> t !in row.pipeRuleTypes)
  {
    DescriptionsEndWithSeparator(row.rules, t);
    assert !EndsWithSeparator(Placeholder) by {
      assert Placeholder[|Placeholder| - 1] != Separator[|Separator| - 1];
    }
    if t in row.pipeRuleTypes then DescriptionsOfType(row.rules, t) else Placeholder
  }

  /** One table row: the pipe id, then one cell per rule type column. */
  function RowCells(row: Row, ruleTypes: seq<string>): (cells: seq<string>)
    ensures |cells| == 1 + |ruleTypes|
    ensures cells[0] == row.id
    ensures forall i :: 0 <= i < |ruleTypes| ==> cells[i + 1] == Cell(row, ruleTypes[i])
  {
    if |ruleTypes| == 0 then [row.id]
    else RowCells(row, ruleTypes[..|ruleTypes| - 1]) + [Cell(row, ruleTypes[|ruleTypes| - 1])]
  }

  /** The body rows, one per report row, in report order. */
  function BodyRows(rows: seq<Row>, ruleTypes: seq<string>): (table: seq<seq<string>>)
    ensures |table| == |rows|
    ensures forall i :: 0 <= i < |rows| ==> table[i] == RowCells(rows[i], ruleTypes)
  {
    if |rows| == 0 then []
    else BodyRows(rows[..|rows| - 1], ruleTypes) + [RowCells(rows[|rows| - 1], ruleTypes)]
  }

  /** The whole table: the header row, then the body rows. Every row has one
      cell for the pipe id and one per rule type. */
  function Render(report: Report): (table: seq<seq<string>>)
    ensures |table| == 1 + |report.pipes|
    ensures table[0] == [PipeColumn] + report.ruleTypes
    ensures forall i :: 0 <= i < |report.pipes| ==> table[i + 1] == RowCells(report.pipes[i], report.ruleTypes)
    ensures forall i :: 0 <= i < |table| ==> |table[i]| == 1 + |report.ruleTypes|
  {
    [[PipeColumn] + report.ruleTypes] + BodyRows(report.pipes, report.ruleTypes)
  }

  /** The descriptions of the input rules of type `t`, each followed by the
      separator, concatenated in rule order. */
  function SuffixedDescriptions(rules: seq<Rule>, t: string): string
  {
    if |rules| == 0 then ""
    else
      var last := rules[|rules| - 1];
      SuffixedDescriptions(rules[..|rules| - 1], t) +
        (if last.ruleType == t then last.description + Separator else "")
  }

  /** Reading the copied rules gives the input descriptions with the separator. */
  lemma {:induction false} CopiedDescriptions(rules: seq<Rule>, t: string)
    ensures DescriptionsOfType(CopyRules(rules), t) == SuffixedDescriptions(rules, t)
  {
    if |rules| > 0 {
      var n := |rules| - 1;
      var copied := CopyRules(rules);
      CopiedDescriptions(rules[..n], t);
      assert copied[..n] == CopyRules(rules[..n]);
    }
  }

  /** The cell of a row built from a pipe's rules for column `t` holds the
      pipe's descriptions of type `t`, each with the separator, in rule order;
      it holds the placeholder exactly when the pipe has no rule of type `t`. */
  lemma {:induction false} CellOfBuiltRow(id: string, rules: seq<Rule>, t: string)
    ensures Cell(BuildRow(id, rules), t) ==
      if t in TypesOf(rules) then SuffixedDescriptions(rules, t) else Placeholder
    ensures Cell(BuildRow(id, rules), t) == Placeholder <==> t !in TypesOf(rules)
  {
    CopiedDescriptions(rules, t);
  }

  /** When the rules' descriptions all end with the separator and some rule
      has type `t`, their concatenation for `t` ends with the separator too. */
  lemma {:induction false} DescriptionsEndWithSeparator(rules: seq<Rule>, t: string)
    ensures (forall i :: 0 <= i < |rules| ==> EndsWithSeparator(rules[i].description)) && t in TypesOf(rules) ==>
      EndsWithSeparator(DescriptionsOfType(rules, t))
  {
    if (forall i :: 0 <= i < |rules| ==> EndsWithSeparator(rules[i].description)) && t in TypesOf(rules) {
      SeparatedDescriptionsEnd(rules, t);
    }
  }

  /** The induction behind `DescriptionsEndWithSeparator`, on the last rule. */
  lemma {:induction false} SeparatedDescriptionsEnd(rules: seq<Rule>, t: string)
    requires forall i :: 0 <= i < |rules| ==> EndsWithSeparator(rules[i].description)
    requires t in TypesOf(rules)
    ensures EndsWithSeparator(DescriptionsOfType(rules, t))
  {
    var n := |rules| - 1;
    var prefix := DescriptionsOfType(rules[..n], t);
    if rules[n].ruleType == t {
      EndsWithSeparatorAfter(prefix, rules[n].description);
    } else {
      assert t in TypesOf(rules[..n]) by {
        var types := TypesOf(rules);
        var i :| 0 <= i < |types| && types[i] == t;
        assert TypesOf(rules[..n])[i] == t;
      }
      assert forall j :: 0 <= j < n ==> EndsWithSeparator(rules[..n][j].description) by {
        forall j | 0 <= j < n
          ensures EndsWithSeparator(rules[..n][j].description)
        {
          assert rules[..n][j] == rules[j];
        }
      }
      SeparatedDescriptionsEnd(rules[..n], t);
      assert DescriptionsOfType(rules, t) == prefix + "";
    }
  }

  /** Text put in front keeps the separator at the end. */
  lemma EndsWithSeparatorAfter(prefix: string, d: string)
    requires EndsWithSeparator(d)
    ensures EndsWithSeparator(prefix + d)
  {
  }
}
