/** The decision-table evaluator: a table instance owns its marker symbols,
    and `eval` validates the call, parses the payload into a header and
    condition rows, rejects duplicated conditions and resolves one output in
    two phases. */
module Table {
  import opened Values
  import opened Exceptions
  import Collection
  import opened Helper

  // ---------------------------------------------------------------------
  // Parsing the payload

  /** `vars.filter(variable => variable === out)`. */
  function OutputColumns(vars: seq<Value>, out: Value): (r: seq<Value>)
    ensures |r| == multiset(vars)[out]
    ensures forall v :: v in r ==> v == out
  {
    if |vars| == 0 then []
    else
      assert vars == [vars[0]] + vars[1..];
      (if vars[0] == out then [vars[0]] else []) + OutputColumns(vars[1..], out)
  }

  /** `vars.indexOf(x)`: the first position of `x`, or -1. */
  function IndexOf(vars: seq<Value>, x: Value): (i: int)
    ensures x in vars ==> 0 <= i < |vars| && vars[i] == x && x !in vars[..i]
    ensures -1 <= i < |vars| && forall j :: 0 <= j < i ==> vars[j] != x
    ensures x !in vars ==> i == -1
  {
    if |vars| == 0 then -1
    else if vars[0] == x then 0
    else
      var i := IndexOf(vars[1..], x);
      assert x in vars ==> x in vars[1..];
      assert x in vars ==> vars[..i + 1] == [vars[0]] + vars[1..][..i];
      if i == -1 then -1 else i + 1
  }

  /** The parsed table: the header row, the condition rows, and the index
      of the output column. */
  datatype Grid = Grid(header: seq<Value>, rows: seq<seq<Value>>, outputIndex: nat)

  /** The table parser of `eval`: exactly one `out` marker, a column count
      of its position plus one that tiles the payload, and the payload cut
      into rows of that width, the first being the header. */
  function Parse(out: Value, vars: seq<Value>): (r: Result<Grid>)
    ensures r.Ok? ==> multiset(vars)[out] == 1 && r.value.outputIndex < |vars| && vars[r.value.outputIndex] == out
    ensures r.Err? ==> r.error == DuplicatedOutput || r.error == NotDefinedOutput || r.error == NotMatchedColumnCount
  {
    var outputColumns := OutputColumns(vars, out);
    if |outputColumns| > 1 then Err(DuplicatedOutput)
    else if |outputColumns| < 1 then Err(NotDefinedOutput)
    else
      var columnIndex := IndexOf(vars, out);
      var columnCount := columnIndex + 1;
      if |vars| % columnCount != 0 then Err(NotMatchedColumnCount)
      else
        Collection.SplitShape(vars, columnCount);
        var splitted := Collection.SplitArrayAsNLength(vars, columnCount);
        Ok(Grid(splitted[0], splitted[1..], columnIndex))
  }

  // ---------------------------------------------------------------------
  // Matching and resolution

  /** One entry of the `matched` accumulator. */
  datatype MatchedRow = MatchedRow(row: seq<Value>, output: Value)

  /** The entry one row contributes: none when it yields the sentinel. */
  function MatchOf(header: seq<Value>, row: seq<Value>, syms: Symbols, eq: (Value, Value) -> bool): (m: seq<MatchedRow>)
    ensures |m| <= 1
    ensures |m| == 1 <==> MatchesRow(header, row, syms, eq)
  {
    var output := RowOutput(header, row, syms, eq);
    if output == syms.undefined then [] else [MatchedRow(row, output)]
  }

  /** The rows that match the header, with their outputs, in row order. */
  function Matches(header: seq<Value>, rows: seq<seq<Value>>, syms: Symbols, eq: (Value, Value) -> bool): (m: seq<MatchedRow>)
    ensures |m| <= |rows|
  {
    if |rows| == 0 then [] else MatchOf(header, rows[0], syms, eq) + Matches(header, rows[1..], syms, eq)
  }

  /** The two-phase resolution: rows without `otherwise` first, then, only
      if none of them matched, the rows with `otherwise`. Exactly one match
      is the result; more is ambiguous; none at all is not covered. */
  function Resolve(header: seq<Value>, rows: seq<seq<Value>>, syms: Symbols, eq: (Value, Value) -> bool): (r: Result<Value>)
    ensures r.Err? ==> r.error == DuplicatedCondition || r.error == NotCoveredCondition
  {
    var (normalRows, otherwiseRows) := SplitConditionsOtherwise(rows, syms.otherwise);
    var first := Matches(header, normalRows, syms, eq);
    if |first| == 1 then Ok(first[0].output)
    else if |first| > 1 then Err(DuplicatedCondition)
    else
      var all := first + Matches(header, otherwiseRows, syms, eq);
      if |all| == 1 then Ok(all[0].output)
      else if |all| > 1 then Err(DuplicatedCondition)
      else Err(NotCoveredCondition)
  }

  /** What `eval` returns or throws for one table instance's symbols. */
  function Evaluate(syms: Symbols, strings: Option<TemplateStrings>, vars: seq<Value>, eq: (Value, Value) -> bool): (r: Result<Value>)
    ensures r == Err(NotCalledAsTagged) <==> !IsCalledAsTagged(strings, vars)
  {
    if !IsCalledAsTagged(strings, vars) then Err(NotCalledAsTagged)
    else
      match Parse(syms.out, vars)
      case Err(e) => Err(e)
      case Ok(grid) =>
        if DuplicatedRowExcept(grid.rows, grid.outputIndex, eq) then Err(DuplicatedCondition)
        else Resolve(grid.header, grid.rows, syms, eq)
  }

  lemma {:induction false} MatchesAppend(header: seq<Value>, a: seq<seq<Value>>, b: seq<seq<Value>>, syms: Symbols, eq: (Value, Value) -> bool)
    ensures Matches(header, a + b, syms, eq) == Matches(header, a, syms, eq) + Matches(header, b, syms, eq)
  {
    if |a| == 0 {
      assert a + b == b;
    } else {
      assert (a + b)[0] == a[0];
      assert (a + b)[1..] == a[1..] + b;
      MatchesAppend(header, a[1..], b, syms, eq);
    }
  }

  /** The inner loop of `eval`'s resolution: every row of one phase is
      matched against the header, and the rows that yield something other
      than the sentinel are pushed onto `matched` with their output. */
  method MatchPhase(headers: seq<Value>, rows: seq<seq<Value>>, syms: Symbols, eq: (Value, Value) -> bool, matched: seq<MatchedRow>)
    returns (pushed: seq<MatchedRow>)
    ensures pushed == matched + Matches(headers, rows, syms, eq)
  {
    pushed := matched;
    for i := 0 to |rows|
      invariant pushed == matched + Matches(headers, rows[..i], syms, eq)
    {
      var row := rows[i];
      var output := GetOutputFromArray(headers, row, syms, eq);
      assert rows[..i + 1] == rows[..i] + [row];
      MatchesAppend(headers, rows[..i], [row], syms, eq);
      if output == syms.undefined {
        continue;
      }
      pushed := pushed + [MatchedRow(row, output)];
    }
    assert rows[..|rows|] == rows;
  }

  // ---------------------------------------------------------------------
  // The table instance

  /** `cell`: the two wildcard symbols. */
  datatype CellSymbols = CellSymbols(any: Value, otherwise: Value)

  /** `internals`: the sentinel for "this row did not match". */
  datatype InternalSymbols = InternalSymbols(undefined: Value)

  class ThinRichTable {
    const out: Value
    const cell: CellSymbols
    const internals: InternalSymbols

    /** Allocates the instance's four symbols. `instance` stands for the
        identity of the freshly allocated `Symbol`s: each instance is given
        its own number. */
    constructor (instance: nat)
      ensures AllSymbols() == MarkersOf(instance)
      ensures AllSymbols().Distinct()
    {
      out := Marker(OutMarker, instance);
      cell := CellSymbols(Marker(AnyMarker, instance), Marker(OtherwiseMarker, instance));
      internals := InternalSymbols(Marker(UndefinedMarker, instance));
    }

    /** `{ ...cell, ...internals, out }`, the symbols the row matcher gets. */
    function AllSymbols(): Symbols {
      Symbols(out, cell.any, cell.otherwise, internals.undefined)
    }

    /** `eval`, called as a tag: `strings` are the template's literal
        fragments and `vars` the interpolated values; `eq` is the deep
        equality the comparisons use. */
    method Eval(strings: Option<TemplateStrings>, vars: seq<Value>, eq: (Value, Value) -> bool)
      returns (r: Result<Value>)
      ensures r == Evaluate(AllSymbols(), strings, vars, eq)
    {
      if !IsCalledAsTagged(strings, vars) {
        return Err(NotCalledAsTagged);
      }

      var outputColumns := OutputColumns(vars, out);
      if |outputColumns| > 1 {
        return Err(DuplicatedOutput);
      } else if |outputColumns| < 1 {
        return Err(NotDefinedOutput);
      }

      // `out` must be the last cell of the header.
      var columnIndex := IndexOf(vars, out);
      var columnCount := columnIndex + 1;
      if |vars| % columnCount != 0 {
        return Err(NotMatchedColumnCount);
      }

      var splitted := Collection.SplitArrayAsNLength(vars, columnCount);
      assert |splitted| > 0 by {
        Collection.SplitShape(vars, columnCount);
      }
      var headers := splitted[0];
      // `splice(1)` returns the rows and leaves only the header in `splitted`.
      var rows := splitted[1..];
      splitted := splitted[..1];

      var syms := AllSymbols();
      assert Evaluate(syms, strings, vars, eq) ==
        if DuplicatedRowExcept(rows, columnIndex, eq) then Err(DuplicatedCondition)
        else Resolve(headers, rows, syms, eq)
      by {
        assert Parse(out, vars) == Ok(Grid(headers, rows, columnIndex));
      }

      var duplicated := HasDuplicatedRowExcept(rows, columnIndex, eq);
      if duplicated {
        return Err(DuplicatedCondition);
      }
      var matched: seq<MatchedRow> := [];
      var (normalRows, otherwiseRows) := SplitConditionsOtherwise(rows, cell.otherwise);
      assert SplitConditionsOtherwise(rows, syms.otherwise) == (normalRows, otherwiseRows);
      var phases := [normalRows, otherwiseRows];
      for p := 0 to 2
        invariant matched == []
        invariant p >= 1 ==> Matches(headers, normalRows, syms, eq) == []
        invariant p == 2 ==> Matches(headers, otherwiseRows, syms, eq) == []
      {
        matched := MatchPhase(headers, phases[p], syms, eq, matched);

        if |matched| == 1 {
          assert Resolve(headers, rows, syms, eq) == Ok(matched[0].output);
          return Ok(matched[0].output);
        } else if |matched| > 1 {
          assert Resolve(headers, rows, syms, eq) == Err(DuplicatedCondition);
          return Err(DuplicatedCondition);
        }
      }

      assert Resolve(headers, rows, syms, eq) == Err(NotCoveredCondition);
      return Err(NotCoveredCondition);
    }
  }
}
