/** The values that flow through a table: everything interpolated into a
    tagged-template call, and the marker symbols a table instance owns. */
module Values {

  datatype Option<+T> = None | Some(value: T)

  /** The four roles a marker symbol plays. */
  datatype MarkerKind = OutMarker | AnyMarker | OtherwiseMarker | UndefinedMarker

  /** A JavaScript value as the evaluator sees it. A `Symbol` that a table
      allocates is a `Marker`: two markers are the same symbol exactly when
      they have the same role and were allocated by the same instance, so
      symbol identity (`===`) is structural equality here. Numbers are
      modelled as integers. */
  datatype Value =
    | Undefined
    | Null
    | Bool(b: bool)
    | Num(n: int)
    | Str(s: string)
    | Arr(items: seq<Value>)
    | Obj(entries: seq<(string, Value)>)
    | Marker(kind: MarkerKind, instance: nat)

  /** The symbols the row matcher is given: `cell.any`, `cell.otherwise`,
      `internals.undefined` and `out` of one table instance. */
  datatype Symbols = Symbols(out: Value, any: Value, otherwise: Value, undefined: Value) {

    /** No two roles share a symbol. */
    predicate Distinct() {
      out != any && out != otherwise && out != undefined &&
      any != otherwise && any != undefined &&
      otherwise != undefined
    }

    /** A condition cell that is never compared with the header. */
    predicate IsWildcard(v: Value) {
      v == any || v == otherwise
    }

    function AsSet(): set<Value> {
      {out, any, otherwise, undefined}
    }
  }

  /** The symbols allocated by the instance numbered `instance`: a fresh
      `Symbol` per role. */
  function MarkersOf(instance: nat): (s: Symbols)
    ensures s.Distinct()
    ensures forall v :: v in s.AsSet() ==> v.Marker? && v.instance == instance
  {
    Symbols(Marker(OutMarker, instance), Marker(AnyMarker, instance),
            Marker(OtherwiseMarker, instance), Marker(UndefinedMarker, instance))
  }

  /** Markers are instance-scoped: two instances share no symbol. */
  lemma MarkersOfDisjoint(i: nat, j: nat)
    requires i != j
    ensures MarkersOf(i).AsSet() !! MarkersOf(j).AsSet()
  {
  }
}
