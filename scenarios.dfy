/** Concrete tables, decided through the general lemmas: a table with an
    `otherwise` row that a normal row overrides, a table whose rows overlap
    only through an `any` cell, a plain (untagged) call, and the chunker
    keeping a short last chunk. */
module Scenarios {
  import opened Values
  import opened Exceptions
  import Collection
  import opened Helper
  import opened Table
  import opened TableProperties

  /** Deep equality on values without any of deep-equal's loose coercions. */
  function StrictEq(a: Value, b: Value): bool {
    a == b
  }

  /** A row of a three-column table whose header ends in `out`: it yields
      its last cell unless a compared condition cell differs or the last
      cell is itself a wildcard. */
  lemma ThreeCellRow(s: Symbols, h0: Value, h1: Value, c0: Value, c1: Value, o: Value)
    requires h0 != s.out && h1 != s.out
    ensures RowOutput([h0, h1, s.out], [c0, c1, o], s, StrictEq) ==
              if (!s.IsWildcard(c0) && h0 != c0) || (!s.IsWildcard(c1) && h1 != c1) || s.IsWildcard(o)
              then s.undefined else o
  {
    var header, row := [h0, h1, s.out], [c0, c1, o];
    RowOutputSingleColumn(header, row, s, StrictEq, 2);
    if (!s.IsWildcard(c0) && h0 != c0) {
      assert Compared(header, row, s, 0);
    } else if (!s.IsWildcard(c1) && h1 != c1) {
      assert Compared(header, row, s, 1);
    }
  }

  /** Header `| true | false | out |`, with the rows
      `| true | any | 0 |`, `| false | false | 1 |` and
      `| true | otherwise | 2 |`: the first row matches in the normal
      phase, so the `otherwise` row, which would match too, is never
      consulted and the result is 0. */
  lemma OtherwiseRowDefers(instance: nat)
    ensures var s := MarkersOf(instance);
      Resolve([Bool(true), Bool(false), s.out],
              [[Bool(true), s.any, Num(0)], [Bool(false), Bool(false), Num(1)], [Bool(true), s.otherwise, Num(2)]],
              s, StrictEq) == Ok(Num(0))
  {
    var s := MarkersOf(instance);
    var header := [Bool(true), Bool(false), s.out];
    var rows := [[Bool(true), s.any, Num(0)], [Bool(false), Bool(false), Num(1)], [Bool(true), s.otherwise, Num(2)]];
    ThreeCellRow(s, Bool(true), Bool(false), Bool(true), s.any, Num(0));
    ThreeCellRow(s, Bool(true), Bool(false), Bool(false), Bool(false), Num(1));
    assert !MatchesRow(header, rows[1], s, StrictEq);
    assert s.otherwise in rows[2];
    ResolveNormalWins(header, rows, s, StrictEq, 0);
  }

  /** Header `| true | false | out |`, with the rows `| true | true | 0 |`,
      `| true | false | 1 |` and `| true | any | 2 |`: the last two rows
      both match, so the resolution reports duplicated conditions. */
  lemma AnyOverlapIsAmbiguous(instance: nat)
    ensures var s := MarkersOf(instance);
      Resolve([Bool(true), Bool(false), s.out],
              [[Bool(true), Bool(true), Num(0)], [Bool(true), Bool(false), Num(1)], [Bool(true), s.any, Num(2)]],
              s, StrictEq) == Err(DuplicatedCondition)
  {
    var s := MarkersOf(instance);
    var header := [Bool(true), Bool(false), s.out];
    var rows := [[Bool(true), Bool(true), Num(0)], [Bool(true), Bool(false), Num(1)], [Bool(true), s.any, Num(2)]];
    ThreeCellRow(s, Bool(true), Bool(false), Bool(true), Bool(false), Num(1));
    ThreeCellRow(s, Bool(true), Bool(false), Bool(true), s.any, Num(2));
    ResolveNormalAmbiguous(header, rows, s, StrictEq, 1, 2);
  }

  /** The same rows pass the duplicate scan that runs before any matching:
      no two of their conditions are equal cell by cell, since `any` is
      only a wildcard to the matcher. */
  lemma AnyOverlapPassesDuplicateScan(instance: nat)
    ensures var s := MarkersOf(instance);
      !DuplicatedRowExcept([[Bool(true), Bool(true), Num(0)], [Bool(true), Bool(false), Num(1)], [Bool(true), s.any, Num(2)]],
                           2, StrictEq)
  {
    var s := MarkersOf(instance);
    var rows := [[Bool(true), Bool(true), Num(0)], [Bool(true), Bool(false), Num(1)], [Bool(true), s.any, Num(2)]];
    var conditions := [[Bool(true), Bool(true)], [Bool(true), Bool(false)], [Bool(true), s.any]];
    forall i | 0 <= i < 3
      ensures RemoveIndex(rows[i], 2) == conditions[i]
    {
      assert rows[i][..2] == conditions[i];
    }
    // the conditions already differ in their second cell
    forall i, j | 0 <= i < j < 3
      ensures !StrictEq(Arr(RemoveIndex(rows[i], 2)), Arr(RemoveIndex(rows[j], 2)))
    {
      assert conditions[i][1] != conditions[j][1];
    }
  }

  /** `eval` called as a plain function, with an array that has no `raw`
      companion or with nothing at all, is rejected before the payload is
      looked at. */
  lemma PlainCallRejected(syms: Symbols, n: nat, vars: seq<Value>, eq: (Value, Value) -> bool)
    ensures Evaluate(syms, Some(TemplateStrings(n, None, false)), vars, eq) == Err(NotCalledAsTagged)
    ensures Evaluate(syms, None, vars, eq) == Err(NotCalledAsTagged)
  {
  }

  /** Five values cut into rows of three keep the short remainder as a
      last chunk of two. */
  lemma SplitKeepsRemainder()
    ensures Collection.SplitArrayAsNLength([0, 1, 2, 3, 4], 3) == [[0, 1, 2], [3, 4]]
  {
    var v := [0, 1, 2, 3, 4];
    Collection.SplitShape(v, 3);
    assert Collection.Chunk(v, 3, 0) == [0, 1, 2];
    assert Collection.Chunk(v, 3, 1) == [3, 4];
  }
}
