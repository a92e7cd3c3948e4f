/** What `eval` promises: how the payload is parsed, which errors come out
    of which tables, and how the two matching phases decide the result. */
module TableProperties {
  import opened Values
  import opened Exceptions
  import Collection
  import opened Helper
  import opened Table

  // ---------------------------------------------------------------------
  // Parsing

  /** A table as written: a header whose only `out` is its last cell, and
      condition rows of the header's width that hold no `out`. */
  predicate WellFormedTable(out: Value, header: seq<Value>, rows: seq<seq<Value>>) {
    |header| > 0 && header[|header| - 1] == out && out !in header[..|header| - 1] &&
    forall i :: 0 <= i < |rows| ==> |rows[i]| == |header| && out !in rows[i]
  }

  /** Laying out a well-formed table as the payload and parsing it gives the
      same header and rows back, with the output column last. */
  lemma ParseTable(out: Value, header: seq<Value>, rows: seq<seq<Value>>)
    requires WellFormedTable(out, header, rows)
    ensures Parse(out, header + Collection.Concat(rows)) == Ok(Grid(header, rows, |header| - 1))
  {
    var vars := header + Collection.Concat(rows);
    var k := |header| - 1;
    var w := |header|;
    assert header == header[..k] + [out];
    assert out !in Collection.Concat(rows) by {
      Collection.InConcat(rows, out);
    }
    assert multiset(vars)[out] == 1;
    assert IndexOf(vars, out) == k by {
      assert vars[k] == out && out !in vars[..k];
    }
    assert |vars| % w == 0 && Collection.SplitArrayAsNLength(vars, w) == [header] + rows by {
      RowsTile(header, rows);
    }
  }

  /** The header followed by the rows, all of one width, is cut back into
      the same rows. */
  lemma RowsTile(header: seq<Value>, rows: seq<seq<Value>>)
    requires |header| > 0 && forall i :: 0 <= i < |rows| ==> |rows[i]| == |header|
    ensures var vars := header + Collection.Concat(rows);
      |vars| % |header| == 0 && Collection.SplitArrayAsNLength(vars, |header|) == [header] + rows
  {
    var w := |header|;
    var all := [header] + rows;
    forall j | 0 <= j < |all|
      ensures |all[j]| == w
    {
      if j > 0 {
        assert all[j] == rows[j - 1];
      }
    }
    Collection.ConcatLength(all, w);
    Collection.ConcatCons(header, rows);
    Collection.DivModUnique(|rows| + 1, w, 0);
    Collection.SplitOfConcat(all, w);
  }

  /** What the parser has established when it accepts a payload. */
  lemma AcceptedPayload(out: Value, vars: seq<Value>)
    requires Parse(out, vars).Ok?
    ensures var k := IndexOf(vars, out);
      multiset(vars)[out] == 1 && 0 <= k < |vars| && vars[k] == out && out !in vars[..k] &&
      |vars| % (k + 1) == 0 &&
      Parse(out, vars) == Ok(Grid(Collection.SplitArrayAsNLength(vars, k + 1)[0],
                                  Collection.SplitArrayAsNLength(vars, k + 1)[1..], k))
  {
  }

  /** Conversely, an accepted payload is a well-formed table laid out row by
      row, and the output column is the header's last. */
  lemma ParseAccepted(out: Value, vars: seq<Value>)
    requires Parse(out, vars).Ok?
    ensures var grid := Parse(out, vars).value;
      WellFormedTable(out, grid.header, grid.rows) &&
      vars == grid.header + Collection.Concat(grid.rows) &&
      grid.outputIndex == |grid.header| - 1
  {
    AcceptedPayload(out, vars);
    var k := IndexOf(vars, out);
    var c := k + 1;
    Collection.SplitHead(vars, c);
    var splitted := Collection.SplitArrayAsNLength(vars, c);
    var header, rows := splitted[0], splitted[1..];
    assert Parse(out, vars).value == Grid(header, rows, k);
    assert |header| == c && header[k] == out && out !in header[..k] by {
      assert header[..k] == vars[..k];
    }
    assert forall i :: 0 <= i < |rows| ==> |rows[i]| == c && out !in rows[i] by {
      OnlyInHeader(out, header, rows, k);
      forall i | 0 <= i < |rows|
        ensures |rows[i]| == c
      {
        assert rows[i] == splitted[i + 1];
      }
    }
  }

  /** A payload with a single `out`, in the header, has none in its rows. */
  lemma OnlyInHeader(out: Value, header: seq<Value>, rows: seq<seq<Value>>, k: nat)
    requires k < |header| && header[k] == out
    requires multiset(header + Collection.Concat(rows))[out] == 1
    ensures forall i :: 0 <= i < |rows| ==> out !in rows[i]
  {
    var rest := Collection.Concat(rows);
    assert out !in rest by {
      assert multiset(header + rest) == multiset(header) + multiset(rest);
      assert out in multiset(header);
    }
    forall i | 0 <= i < |rows|
      ensures out !in rows[i]
    {
      Collection.InConcat(rows, out);
    }
  }

  // ---------------------------------------------------------------------
  // Errors before any matching

  /** `NotCalledAsTagged` is thrown exactly when the call does not have the
      tagged shape, before anything else is looked at. */
  lemma EvaluateNotTagged(syms: Symbols, strings: Option<TemplateStrings>, vars: seq<Value>, eq: (Value, Value) -> bool)
    ensures Evaluate(syms, strings, vars, eq) == Err(NotCalledAsTagged) <==> !IsCalledAsTagged(strings, vars)
  {
  }

  /** More than one `out` anywhere in the payload is `DuplicatedOutput`;
      none is `NotDefinedOutput`. */
  lemma EvaluateOutputMarkers(syms: Symbols, strings: Option<TemplateStrings>, vars: seq<Value>, eq: (Value, Value) -> bool)
    requires IsCalledAsTagged(strings, vars)
    ensures multiset(vars)[syms.out] > 1 ==> Evaluate(syms, strings, vars, eq) == Err(DuplicatedOutput)
    ensures syms.out !in vars ==> Evaluate(syms, strings, vars, eq) == Err(NotDefinedOutput)
  {
  }

  /** With a single `out` at position `k`, a payload whose length is not a
      multiple of `k + 1` is `NotMatchedColumnCount`. */
  lemma EvaluateColumnCount(syms: Symbols, strings: Option<TemplateStrings>, vars: seq<Value>, eq: (Value, Value) -> bool, k: nat)
    requires IsCalledAsTagged(strings, vars)
    requires k < |vars| && vars[k] == syms.out && multiset(vars)[syms.out] == 1
    requires |vars| % (k + 1) != 0
    ensures Evaluate(syms, strings, vars, eq) == Err(NotMatchedColumnCount)
  {
    var out := syms.out;
    assert IndexOf(vars, out) == k by {
      var i := IndexOf(vars, out);
      if i < k {
        TwoOccurrences(vars, out, i, k);
      }
    }
    assert Parse(out, vars) == Err(NotMatchedColumnCount);
  }

  lemma TwoOccurrences(vars: seq<Value>, x: Value, i: nat, k: nat)
    requires i < k < |vars| && vars[i] == x && vars[k] == x
    ensures multiset(vars)[x] >= 2
  {
    assert vars == vars[..k] + vars[k..];
    assert vars[..k][i] == x;
    assert vars[k..][0] == x;
  }

  /** A tagged call on a well-formed table: duplicated conditions are
      rejected before any row is matched, whether or not they would match;
      otherwise the two-phase resolution decides. */
  lemma EvaluateTable(syms: Symbols, strings: Option<TemplateStrings>, header: seq<Value>, rows: seq<seq<Value>>, eq: (Value, Value) -> bool)
    requires WellFormedTable(syms.out, header, rows)
    requires IsCalledAsTagged(strings, header + Collection.Concat(rows))
    ensures Evaluate(syms, strings, header + Collection.Concat(rows), eq) ==
              if DuplicatedRowExcept(rows, |header| - 1, eq) then Err(DuplicatedCondition)
              else Resolve(header, rows, syms, eq)
  {
    ParseTable(syms.out, header, rows);
  }

  // ---------------------------------------------------------------------
  // The matching phases

  /** The row belongs to the phase: the `otherwise` phase when it holds an
      `otherwise` cell, the normal phase when it does not. */
  predicate InPhase(row: seq<Value>, syms: Symbols, withOtherwise: bool) {
    (syms.otherwise in row) == withOtherwise
  }

  lemma PhaseMatchesCons(header: seq<Value>, rows: seq<seq<Value>>, syms: Symbols, eq: (Value, Value) -> bool, b: bool)
    requires |rows| > 0
    ensures Matches(header, Selected(rows, syms.otherwise, b), syms, eq) ==
              (if InPhase(rows[0], syms, b) && MatchesRow(header, rows[0], syms, eq)
               then [MatchedRow(rows[0], RowOutput(header, rows[0], syms, eq))] else [])
              + Matches(header, Selected(rows[1..], syms.otherwise, b), syms, eq)
  {
    var head := if InPhase(rows[0], syms, b) then [rows[0]] else [];
    MatchesAppend(header, head, Selected(rows[1..], syms.otherwise, b), syms, eq);
  }

  /** A phase yields no match exactly when none of its rows matches. */
  lemma {:induction false} PhaseMatchesNone(header: seq<Value>, rows: seq<seq<Value>>, syms: Symbols, eq: (Value, Value) -> bool, b: bool)
    ensures Matches(header, Selected(rows, syms.otherwise, b), syms, eq) == [] <==>
              forall i :: 0 <= i < |rows| && InPhase(rows[i], syms, b) ==> !MatchesRow(header, rows[i], syms, eq)
  {
    if |rows| > 0 {
      PhaseMatchesCons(header, rows, syms, eq, b);
      PhaseMatchesNone(header, rows[1..], syms, eq, b);
      assert forall i :: 0 < i < |rows| ==> rows[1..][i - 1] == rows[i];
    }
  }

  /** A phase in which row `i` is the only matching row yields exactly that
      row and its output. */
  lemma {:induction false} PhaseMatchesOne(header: seq<Value>, rows: seq<seq<Value>>, syms: Symbols, eq: (Value, Value) -> bool, b: bool, i: nat)
    requires i < |rows| && InPhase(rows[i], syms, b) && MatchesRow(header, rows[i], syms, eq)
    requires forall j :: 0 <= j < |rows| && j != i && InPhase(rows[j], syms, b) ==> !MatchesRow(header, rows[j], syms, eq)
    ensures Matches(header, Selected(rows, syms.otherwise, b), syms, eq) ==
              [MatchedRow(rows[i], RowOutput(header, rows[i], syms, eq))]
  {
    PhaseMatchesCons(header, rows, syms, eq, b);
    var rest := rows[1..];
    assert forall j :: 0 < j < |rows| ==> rest[j - 1] == rows[j];
    if i == 0 {
      PhaseMatchesNone(header, rest, syms, eq, b);
    } else {
      PhaseMatchesOne(header, rest, syms, eq, b, i - 1);
    }
  }

  /** Two matching rows in one phase yield at least two matches. */
  lemma {:induction false} PhaseMatchesTwo(header: seq<Value>, rows: seq<seq<Value>>, syms: Symbols, eq: (Value, Value) -> bool, b: bool, i: nat, j: nat)
    requires i < j < |rows|
    requires InPhase(rows[i], syms, b) && MatchesRow(header, rows[i], syms, eq)
    requires InPhase(rows[j], syms, b) && MatchesRow(header, rows[j], syms, eq)
    ensures |Matches(header, Selected(rows, syms.otherwise, b), syms, eq)| >= 2
  {
    PhaseMatchesCons(header, rows, syms, eq, b);
    var rest := rows[1..];
    assert rest[j - 1] == rows[j];
    if i == 0 {
      PhaseMatchesNone(header, rest, syms, eq, b);
    } else {
      assert rest[i - 1] == rows[i];
      PhaseMatchesTwo(header, rest, syms, eq, b, i - 1, j - 1);
    }
  }

  /** Every match a phase yields is a row of that phase that matches, with
      its output. */
  lemma {:induction false} PhaseMatchesFrom(header: seq<Value>, rows: seq<seq<Value>>, syms: Symbols, eq: (Value, Value) -> bool, b: bool, m: MatchedRow)
    requires m in Matches(header, Selected(rows, syms.otherwise, b), syms, eq)
    ensures exists i :: 0 <= i < |rows| && InPhase(rows[i], syms, b) && MatchesRow(header, rows[i], syms, eq) &&
              m == MatchedRow(rows[i], RowOutput(header, rows[i], syms, eq))
  {
    PhaseMatchesCons(header, rows, syms, eq, b);
    if !(InPhase(rows[0], syms, b) && MatchesRow(header, rows[0], syms, eq) &&
         m == MatchedRow(rows[0], RowOutput(header, rows[0], syms, eq))) {
      var rest := rows[1..];
      PhaseMatchesFrom(header, rest, syms, eq, b, m);
      var i :| 0 <= i < |rest| && InPhase(rest[i], syms, b) && MatchesRow(header, rest[i], syms, eq) &&
               m == MatchedRow(rest[i], RowOutput(header, rest[i], syms, eq));
      assert rest[i] == rows[i + 1];
    }
  }

  // ---------------------------------------------------------------------
  // Two-phase resolution

  /** Exactly one normal row matching decides, whatever the `otherwise`
      rows would do. */
  lemma ResolveNormalWins(header: seq<Value>, rows: seq<seq<Value>>, syms: Symbols, eq: (Value, Value) -> bool, i: nat)
    requires i < |rows| && syms.otherwise !in rows[i] && MatchesRow(header, rows[i], syms, eq)
    requires forall j :: 0 <= j < |rows| && j != i && syms.otherwise !in rows[j] ==> !MatchesRow(header, rows[j], syms, eq)
    ensures Resolve(header, rows, syms, eq) == Ok(RowOutput(header, rows[i], syms, eq))
  {
    PhaseMatchesOne(header, rows, syms, eq, false, i);
  }

  /** Two matching normal rows are ambiguous. */
  lemma ResolveNormalAmbiguous(header: seq<Value>, rows: seq<seq<Value>>, syms: Symbols, eq: (Value, Value) -> bool, i: nat, j: nat)
    requires i < j < |rows|
    requires syms.otherwise !in rows[i] && MatchesRow(header, rows[i], syms, eq)
    requires syms.otherwise !in rows[j] && MatchesRow(header, rows[j], syms, eq)
    ensures Resolve(header, rows, syms, eq) == Err(DuplicatedCondition)
  {
    PhaseMatchesTwo(header, rows, syms, eq, false, i, j);
  }

  /** When no normal row matches and exactly one `otherwise` row does, that
      row decides. */
  lemma ResolveFallbackWins(header: seq<Value>, rows: seq<seq<Value>>, syms: Symbols, eq: (Value, Value) -> bool, i: nat)
    requires forall j :: 0 <= j < |rows| && syms.otherwise !in rows[j] ==> !MatchesRow(header, rows[j], syms, eq)
    requires i < |rows| && syms.otherwise in rows[i] && MatchesRow(header, rows[i], syms, eq)
    requires forall j :: 0 <= j < |rows| && j != i && syms.otherwise in rows[j] ==> !MatchesRow(header, rows[j], syms, eq)
    ensures Resolve(header, rows, syms, eq) == Ok(RowOutput(header, rows[i], syms, eq))
  {
    PhaseMatchesNone(header, rows, syms, eq, false);
    PhaseMatchesOne(header, rows, syms, eq, true, i);
  }

  /** When no normal row matches, two matching `otherwise` rows are
      ambiguous as well. */
  lemma ResolveFallbackAmbiguous(header: seq<Value>, rows: seq<seq<Value>>, syms: Symbols, eq: (Value, Value) -> bool, i: nat, j: nat)
    requires forall k :: 0 <= k < |rows| && syms.otherwise !in rows[k] ==> !MatchesRow(header, rows[k], syms, eq)
    requires i < j < |rows|
    requires syms.otherwise in rows[i] && MatchesRow(header, rows[i], syms, eq)
    requires syms.otherwise in rows[j] && MatchesRow(header, rows[j], syms, eq)
    ensures Resolve(header, rows, syms, eq) == Err(DuplicatedCondition)
  {
    PhaseMatchesNone(header, rows, syms, eq, false);
    PhaseMatchesTwo(header, rows, syms, eq, true, i, j);
  }

  /** `NotCoveredCondition` comes out exactly when no row of either phase
      matches. */
  lemma ResolveNotCovered(header: seq<Value>, rows: seq<seq<Value>>, syms: Symbols, eq: (Value, Value) -> bool)
    ensures Resolve(header, rows, syms, eq) == Err(NotCoveredCondition) <==>
              forall i :: 0 <= i < |rows| ==> !MatchesRow(header, rows[i], syms, eq)
  {
    PhaseMatchesNone(header, rows, syms, eq, false);
    PhaseMatchesNone(header, rows, syms, eq, true);
  }

  /** A resolved output is the output of a matching condition row. */
  lemma ResolveOk(header: seq<Value>, rows: seq<seq<Value>>, syms: Symbols, eq: (Value, Value) -> bool)
    requires Resolve(header, rows, syms, eq).Ok?
    ensures exists i :: 0 <= i < |rows| && MatchesRow(header, rows[i], syms, eq) &&
              Resolve(header, rows, syms, eq).value == RowOutput(header, rows[i], syms, eq)
  {
    var (normalRows, otherwiseRows) := SplitConditionsOtherwise(rows, syms.otherwise);
    var first := Matches(header, normalRows, syms, eq);
    if |first| == 1 {
      PhaseMatchesFrom(header, rows, syms, eq, false, first[0]);
    } else {
      var second := Matches(header, otherwiseRows, syms, eq);
      assert first + second == second;
      PhaseMatchesFrom(header, rows, syms, eq, true, second[0]);
    }
  }

  /** Whatever `eval` returns is the output-column cell of a condition row
      of the parsed table that matches the header. */
  lemma EvaluateOkIsOutputCell(syms: Symbols, strings: Option<TemplateStrings>, vars: seq<Value>, eq: (Value, Value) -> bool)
    requires Evaluate(syms, strings, vars, eq).Ok?
    ensures Parse(syms.out, vars).Ok?
    ensures var grid := Parse(syms.out, vars).value;
      exists i :: 0 <= i < |grid.rows| && MatchesRow(grid.header, grid.rows[i], syms, eq) &&
        grid.outputIndex < |grid.rows[i]| &&
        Evaluate(syms, strings, vars, eq).value == grid.rows[i][grid.outputIndex]
  {
    EvaluateOkResolves(syms, strings, vars, eq);
    var grid := Parse(syms.out, vars).value;
    ParseAccepted(syms.out, vars);
    ResolvedIsOutputCell(grid.header, grid.rows, syms, eq);
  }

  /** On a well-formed table, a resolved output is the last cell of a
      matching row. */
  lemma ResolvedIsOutputCell(header: seq<Value>, rows: seq<seq<Value>>, syms: Symbols, eq: (Value, Value) -> bool)
    requires WellFormedTable(syms.out, header, rows)
    requires Resolve(header, rows, syms, eq).Ok?
    ensures exists i :: 0 <= i < |rows| && MatchesRow(header, rows[i], syms, eq) &&
              |header| - 1 < |rows[i]| && Resolve(header, rows, syms, eq).value == rows[i][|header| - 1]
  {
    ResolveOk(header, rows, syms, eq);
    var i :| 0 <= i < |rows| && MatchesRow(header, rows[i], syms, eq) &&
             Resolve(header, rows, syms, eq).value == RowOutput(header, rows[i], syms, eq);
    OutOnlyLast(syms.out, header, rows, i);
    RowOutputSingleColumn(header, rows[i], syms, eq, |header| - 1);
  }

  /** A successful evaluation has parsed the payload and resolved it. */
  lemma EvaluateOkResolves(syms: Symbols, strings: Option<TemplateStrings>, vars: seq<Value>, eq: (Value, Value) -> bool)
    requires Evaluate(syms, strings, vars, eq).Ok?
    ensures Parse(syms.out, vars).Ok?
    ensures var grid := Parse(syms.out, vars).value;
      Evaluate(syms, strings, vars, eq) == Resolve(grid.header, grid.rows, syms, eq)
  {
  }

  /** In a well-formed table the header's last column is its only `out`
      column, for every row's width. */
  lemma OutOnlyLast(out: Value, header: seq<Value>, rows: seq<seq<Value>>, i: nat)
    requires WellFormedTable(out, header, rows) && i < |rows|
    ensures forall j :: 0 <= j < |rows[i]| && j != |header| - 1 ==> At(header, j) != out
  {
    var k := |header| - 1;
    forall j | 0 <= j < |rows[i]| && j != k
      ensures At(header, j) != out
    {
      assert header[j] == header[..k][j];
    }
  }
}
