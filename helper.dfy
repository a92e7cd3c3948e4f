/** The helpers `eval` is built from: the row matcher, the duplicate-row
    check, the normal/otherwise partition and the tagged-call check. */
module Helper {
  import opened Values
  import Collection

  // ---------------------------------------------------------------------
  // getOutputFromArray

  /** `headers[index]`: reading past the end of the header gives `undefined`. */
  function At(headers: seq<Value>, index: nat): Value {
    if index < |headers| then headers[index] else Undefined
  }

  /** Cell `i` of the row is compared with the header: it is no wildcard
      and the header does not mark the output column there. */
  predicate Compared(headers: seq<Value>, row: seq<Value>, syms: Symbols, i: nat)
    requires i < |row|
  {
    !syms.IsWildcard(row[i]) && At(headers, i) != syms.out
  }

  /** Some compared cell is not deep-equal to its header cell. */
  predicate Mismatch(headers: seq<Value>, row: seq<Value>, syms: Symbols, eq: (Value, Value) -> bool) {
    exists i :: 0 <= i < |row| && Compared(headers, row, syms, i) && !eq(At(headers, i), row[i])
  }

  /** The row cell in the last output column among the first `n` cells that
      holds no wildcard, or the `undefined` sentinel when there is none. */
  function Candidate(headers: seq<Value>, row: seq<Value>, syms: Symbols, n: nat): (r: Value)
    requires n <= |row|
    ensures r == syms.undefined || (r in row && !syms.IsWildcard(r))
  {
    if n == 0 then syms.undefined
    else if !syms.IsWildcard(row[n - 1]) && At(headers, n - 1) == syms.out then row[n - 1]
    else Candidate(headers, row, syms, n - 1)
  }

  /** What matching a condition row against the header yields: the sentinel
      when a compared cell differs, otherwise the row's output cell. */
  function RowOutput(headers: seq<Value>, row: seq<Value>, syms: Symbols, eq: (Value, Value) -> bool): (r: Value)
    ensures r == syms.undefined || (r in row && !syms.IsWildcard(r))
  {
    if Mismatch(headers, row, syms, eq) then syms.undefined else Candidate(headers, row, syms, |row|)
  }

  /** The row matches: its result is not the sentinel. */
  predicate MatchesRow(headers: seq<Value>, row: seq<Value>, syms: Symbols, eq: (Value, Value) -> bool) {
    RowOutput(headers, row, syms, eq) != syms.undefined
  }

  /** `getOutputFromArray`: one pass over the row's cells, skipping
      wildcards, recording the output cell and returning the sentinel at the
      first compared cell that differs from the header. */
  method GetOutputFromArray(headers: seq<Value>, row: seq<Value>, syms: Symbols, eq: (Value, Value) -> bool)
    returns (r: Value)
    ensures r == RowOutput(headers, row, syms, eq)
  {
    var result := syms.undefined;
    for index := 0 to |row|
      invariant forall i :: 0 <= i < index && Compared(headers, row, syms, i) ==> eq(At(headers, i), row[i])
      invariant result == Candidate(headers, row, syms, index)
    {
      var cellValue := row[index];
      if cellValue == syms.any || cellValue == syms.otherwise {
        continue;
      }
      if At(headers, index) == syms.out {
        result := cellValue;
        continue;
      }
      if !eq(At(headers, index), cellValue) {
        assert Compared(headers, row, syms, index);
        return syms.undefined;
      }
    }
    return result;
  }

  lemma {:induction false} CandidateUniqueOutput(headers: seq<Value>, row: seq<Value>, syms: Symbols, k: nat, n: nat)
    requires n <= |row| && k < |row| && At(headers, k) == syms.out
    requires forall j :: 0 <= j < |row| && j != k ==> At(headers, j) != syms.out
    ensures Candidate(headers, row, syms, n) ==
              if n > k && !syms.IsWildcard(row[k]) then row[k] else syms.undefined
  {
    if n > 0 {
      CandidateUniqueOutput(headers, row, syms, k, n - 1);
    }
  }

  /** With a single output column `k` in the header: the row yields its
      output cell when every compared cell is deep-equal to the header, and
      the sentinel when some compared cell differs or the output cell is
      itself a wildcard. */
  lemma RowOutputSingleColumn(headers: seq<Value>, row: seq<Value>, syms: Symbols, eq: (Value, Value) -> bool, k: nat)
    requires k < |row| && At(headers, k) == syms.out
    requires forall j :: 0 <= j < |row| && j != k ==> At(headers, j) != syms.out
    ensures RowOutput(headers, row, syms, eq) ==
              if Mismatch(headers, row, syms, eq) || syms.IsWildcard(row[k]) then syms.undefined else row[k]
  {
    CandidateUniqueOutput(headers, row, syms, k, |row|);
  }

  lemma {:induction false} CandidateSkipsWildcards(headers: seq<Value>, row: seq<Value>, syms: Symbols, n: nat)
    requires n <= |row|
    requires forall j :: 0 <= j < |row| && At(headers, j) == syms.out ==> syms.IsWildcard(row[j])
    ensures Candidate(headers, row, syms, n) == syms.undefined
  {
    if n > 0 {
      CandidateSkipsWildcards(headers, row, syms, n - 1);
    }
  }

  /** A row whose cells in the output columns are all wildcards yields the
      sentinel: the wildcard test comes before the output test. */
  lemma WildcardOutputIsSkipped(headers: seq<Value>, row: seq<Value>, syms: Symbols, eq: (Value, Value) -> bool)
    requires forall j :: 0 <= j < |row| && At(headers, j) == syms.out ==> syms.IsWildcard(row[j])
    ensures RowOutput(headers, row, syms, eq) == syms.undefined
  {
    CandidateSkipsWildcards(headers, row, syms, |row|);
  }

  lemma {:induction false} CandidateIgnoresWildcardColumns(h1: seq<Value>, h2: seq<Value>, row: seq<Value>, syms: Symbols, n: nat)
    requires n <= |row|
    requires forall j :: 0 <= j < |row| && !syms.IsWildcard(row[j]) ==> At(h1, j) == At(h2, j)
    ensures Candidate(h1, row, syms, n) == Candidate(h2, row, syms, n)
  {
    if n > 0 {
      CandidateIgnoresWildcardColumns(h1, h2, row, syms, n - 1);
    }
  }

  /** Wildcards never cause a mismatch: the header cells in the columns
      where the row holds `any` or `otherwise` do not affect the result,
      whatever they hold. */
  lemma RowOutputIgnoresWildcardColumns(h1: seq<Value>, h2: seq<Value>, row: seq<Value>, syms: Symbols, eq: (Value, Value) -> bool)
    requires forall j :: 0 <= j < |row| && !syms.IsWildcard(row[j]) ==> At(h1, j) == At(h2, j)
    ensures RowOutput(h1, row, syms, eq) == RowOutput(h2, row, syms, eq)
  {
    CandidateIgnoresWildcardColumns(h1, h2, row, syms, |row|);
    assert Mismatch(h1, row, syms, eq) == Mismatch(h2, row, syms, eq) by {
      if Mismatch(h1, row, syms, eq) {
        var i :| 0 <= i < |row| && Compared(h1, row, syms, i) && !eq(At(h1, i), row[i]);
        assert Compared(h2, row, syms, i);
      }
      if Mismatch(h2, row, syms, eq) {
        var i :| 0 <= i < |row| && Compared(h2, row, syms, i) && !eq(At(h2, i), row[i]);
        assert Compared(h1, row, syms, i);
      }
    }
  }

  /** Turning a condition cell into `any` makes the row indifferent to the
      header cell in that column. */
  lemma AnyCellMatchesEverything(headers: seq<Value>, row: seq<Value>, syms: Symbols, eq: (Value, Value) -> bool, i: nat, v: Value)
    requires i < |headers| && i < |row|
    ensures RowOutput(headers[i := v], row[i := syms.any], syms, eq) == RowOutput(headers, row[i := syms.any], syms, eq)
  {
    RowOutputIgnoresWildcardColumns(headers[i := v], headers, row[i := syms.any], syms, eq);
  }

  // ---------------------------------------------------------------------
  // hasDuplicatedRowExcept

  /** `row.filter((_, index) => index !== exceptIndex)`. */
  function RemoveIndex(row: seq<Value>, exceptIndex: int): (r: seq<Value>)
    ensures r == if 0 <= exceptIndex < |row| then row[..exceptIndex] + row[exceptIndex + 1..] else row
  {
    if |row| == 0 then []
    else (if exceptIndex == 0 then [] else [row[0]]) + RemoveIndex(row[1..], exceptIndex - 1)
  }

  /** Two different condition rows are deep-equal once the cell at
      `exceptIndex` is removed from both. */
  predicate DuplicatedRowExcept(rows: seq<seq<Value>>, exceptIndex: int, eq: (Value, Value) -> bool) {
    exists i, j :: 0 <= i < j < |rows| &&
      eq(Arr(RemoveIndex(rows[i], exceptIndex)), Arr(RemoveIndex(rows[j], exceptIndex)))
  }

  /** `hasDuplicatedRowExcept`: project every row, then run the pairwise
      duplicate scan over the projected rows. */
  method HasDuplicatedRowExcept(rows: seq<seq<Value>>, exceptIndex: int, eq: (Value, Value) -> bool)
    returns (r: bool)
    ensures r <==> DuplicatedRowExcept(rows, exceptIndex, eq)
  {
    var conditions := seq(|rows|, i requires 0 <= i < |rows| => Arr(RemoveIndex(rows[i], exceptIndex)));
    r := Collection.HasDuplicated(conditions, eq);
    if r {
      var i, j :| 0 <= i < j < |conditions| && eq(conditions[i], conditions[j]);
      assert eq(Arr(RemoveIndex(rows[i], exceptIndex)), Arr(RemoveIndex(rows[j], exceptIndex)));
    } else {
      forall i, j | 0 <= i < j < |rows|
        ensures !eq(Arr(RemoveIndex(rows[i], exceptIndex)), Arr(RemoveIndex(rows[j], exceptIndex)))
      {
        assert !eq(conditions[i], conditions[j]);
      }
    }
  }

  // ---------------------------------------------------------------------
  // splitConditionsOtherwise

  /** `rows.filter(row => row.includes(otherwise) == withOtherwise)`. */
  function Selected(rows: seq<seq<Value>>, otherwise: Value, withOtherwise: bool): seq<seq<Value>> {
    if |rows| == 0 then []
    else (if (otherwise in rows[0]) == withOtherwise then [rows[0]] else [])
         + Selected(rows[1..], otherwise, withOtherwise)
  }

  /** `splitConditionsOtherwise`: the rows without an `otherwise` cell, and
      the rows with one. */
  function SplitConditionsOtherwise(rows: seq<seq<Value>>, otherwise: Value): (groups: (seq<seq<Value>>, seq<seq<Value>>))
    ensures |groups.0| + |groups.1| == |rows|
  {
    SelectedCount(rows, otherwise);
    (Selected(rows, otherwise, false), Selected(rows, otherwise, true))
  }

  /** Every row passes exactly one of the two filters. */
  lemma {:induction false} SelectedCount(rows: seq<seq<Value>>, otherwise: Value)
    ensures |Selected(rows, otherwise, false)| + |Selected(rows, otherwise, true)| == |rows|
  {
    if |rows| > 0 {
      SelectedCount(rows[1..], otherwise);
    }
  }

  /** The two groups partition the rows: every row lands in exactly one of
      them, normal rows hold no `otherwise` cell and the others hold one. */
  lemma {:induction false} SplitPartitions(rows: seq<seq<Value>>, otherwise: Value)
    ensures var (normal, fallback) := SplitConditionsOtherwise(rows, otherwise);
      |normal| + |fallback| == |rows| &&
      multiset(normal) + multiset(fallback) == multiset(rows) &&
      (forall row :: row in normal ==> otherwise !in row) &&
      (forall row :: row in fallback ==> otherwise in row)
  {
    if |rows| > 0 {
      var rest := rows[1..];
      SplitPartitions(rest, otherwise);
      assert rows == [rows[0]] + rest;
      assert multiset(rows) == multiset{rows[0]} + multiset(rest);
    }
  }

  /** Filtering distributes over concatenation, so each group keeps the
      rows in their original relative order. */
  lemma {:induction false} SelectedAppend(a: seq<seq<Value>>, b: seq<seq<Value>>, otherwise: Value, withOtherwise: bool)
    ensures Selected(a + b, otherwise, withOtherwise) ==
            Selected(a, otherwise, withOtherwise) + Selected(b, otherwise, withOtherwise)
  {
    if |a| > 0 {
      SelectedAppend(a[1..], b, otherwise, withOtherwise);
      assert (a + b)[0] == a[0];
      assert (a + b)[1..] == a[1..] + b;
    } else {
      assert a + b == b;
    }
  }

  // ---------------------------------------------------------------------
  // isCalledAsTagged

  /** What the check sees of a `TemplateStringsArray`: its length, the
      length of its `raw` companion when that is present, and whether it is
      frozen. */
  datatype TemplateStrings = TemplateStrings(length: nat, raw: Option<nat>, frozen: bool)

  /** `conditions.every(condition => condition === true)`. */
  function Every(conditions: seq<bool>): (r: bool)
    ensures r <==> forall i :: 0 <= i < |conditions| ==> conditions[i]
  {
    if |conditions| == 0 then true else conditions[0] && Every(conditions[1..])
  }

  /** `isCalledAsTagged`: `strings` and `strings.raw` are present, `strings`
      is non-empty and frozen, `raw` has its length, and there is one more
      string than there are interpolated values. A missing `strings` is
      `None`. */
  function IsCalledAsTagged(strings: Option<TemplateStrings>, vars: seq<Value>): (r: bool)
    ensures r <==>
      strings.Some? && strings.value.raw.Some? &&
      strings.value.length > 0 &&
      strings.value.raw.value == strings.value.length &&
      strings.value.frozen &&
      |vars| + 1 == strings.value.length
  {
    if strings.None? then false
    else if strings.value.raw.None? then false
    else
      var conditions := [strings.value.length > 0,
                         strings.value.raw.value == strings.value.length,
                         strings.value.frozen,
                         |vars| + 1 == strings.value.length];
      assert forall i :: 0 <= i < 4 ==> conditions[i] == [conditions[0], conditions[1], conditions[2], conditions[3]][i];
      Every(conditions)
  }
}
