/**
 * DatabaseInsertQuery: a table name and a VALUES map that `values`
 * replaces as a whole. The keys and the values are emitted by one loop, so
 * the i-th key pairs with the i-th value.
 *
 * Like the UPDATE query, the table line reads UPDATE_FROM, a constant this
 * class does not define; `InsertTextAsWritten` models that and
 * `InsertText`, which the class uses, renders the table name as intended.
 */
module InsertQueries {
  import opened Php
  import opened PhpArrays
  import opened SqlText

  datatype Components = Components(table: string, values: Entries<string>)

  const Initial := Components("", [])

  const NoTable := "Query incomplete: No table name for UPDATE set."
  const NoValues := "Query inclomplete: No VALUES clause set."
  /** The fatal error PHP raises on reading an undefined class constant. */
  const UndefinedFrom := "Undefined class constant 'UPDATE_FROM'"

  /** The backquoted keys, in map order. */
  function KeyItems(values: Entries<string>): (r: seq<string>)
    ensures |r| == |values| && forall i | 0 <= i < |values| :: r[i] == "\t`" + values[i].0 + "`"
  {
    seq(|values|, i requires 0 <= i < |values| => "\t`" + values[i].0 + "`")
  }

  /** The single-quoted values, in the same order. */
  function ValueItems(values: Entries<string>): (r: seq<string>)
    ensures |r| == |values| && forall i | 0 <= i < |values| :: r[i] == "\t'" + values[i].1 + "'"
  {
    seq(|values|, i requires 0 <= i < |values| => "\t'" + values[i].1 + "'")
  }

  /** Everything after the "INSERT INTO" line, with the table line as intended. */
  function Clauses(table: string, keys: string, values: string): (r: string)
    ensures |r| > 0 && r[|r| - 1] == ')'
  {
    "\t`" + table + "`\n" + "(\n" + keys + "\n)\nVALUES\n(\n" + values + "\n)"
  }

  /** `__toString` as written: once a table name is set, the table line is a fatal error. */
  function InsertTextAsWritten(c: Components): Result<string, string>
  {
    if Empty(c.table) then Err(NoTable) else Err(UndefinedFrom)
  }

  /** `__toString` with the table line as intended. */
  function InsertText(c: Components): Result<string, string>
  {
    if Empty(c.table) then Err(NoTable)
    else if |c.values| == 0 then Err(NoValues)
    else Ok(Trim("INSERT INTO\n" + Clauses(c.table, Glue(KeyItems(c.values), ",\n"), Glue(ValueItems(c.values), ",\n")) + "\n") + ";")
  }

  /** Every statement the intended rendering produces, the code as written rejects. */
  lemma AsWrittenRejectsComplete(c: Components)
    requires InsertText(c).Ok?
    ensures InsertTextAsWritten(c) == Err(UndefinedFrom)
  {
  }

  /** The intended rendering raises on a missing table, then on an empty VALUES map, and otherwise succeeds. */
  lemma InsertAccepted(c: Components)
    ensures InsertText(c).Ok? <==> !Empty(c.table) && |c.values| > 0
    ensures Empty(c.table) ==> InsertText(c) == Err(NoTable)
    ensures !Empty(c.table) && |c.values| == 0 ==> InsertText(c) == Err(NoValues)
  {
  }

  /**
   * A rendered statement is exactly "INSERT INTO", the table line, the keys
   * joined by ",\n" in parentheses, "VALUES", and the values joined the same
   * way in parentheses, then ";".
   */
  lemma InsertShape(c: Components)
    requires InsertText(c).Ok?
    ensures InsertText(c).value
      == "INSERT INTO\n" + Clauses(c.table, Join(KeyItems(c.values), ",\n"), Join(ValueItems(c.values), ",\n")) + ";"
  {
    ItemsJoined(c.values);
    var r := Clauses(c.table, Join(KeyItems(c.values), ",\n"), Join(ValueItems(c.values), ",\n"));
    var b := "INSERT INTO\n" + r;
    assert b[0] == 'I' && b[|b| - 1] == r[|r| - 1];
    TrimmedStatement(b);
  }

  /** Both item lists start with a tab, so their accumulator loops are plain implodes. */
  lemma ItemsJoined(values: Entries<string>)
    requires |values| > 0
    ensures Glue(KeyItems(values), ",\n") == Join(KeyItems(values), ",\n")
    ensures Glue(ValueItems(values), ",\n") == Join(ValueItems(values), ",\n")
  {
    var ks := KeyItems(values);
    var vs := ValueItems(values);
    assert ks[0][0] == '\t' && vs[0][0] == '\t';
    GlueJoin(ks, ",\n");
    GlueJoin(vs, ",\n");
  }

  /** The PHP query object; `components` is its `query_components` array. */
  class InsertQuery {
    var components: Components

    constructor ()
      ensures components == Initial
    {
      components := Initial;
    }

    /** `table`: overwrites the name. */
    method Table(name: string) returns (q: InsertQuery)
      modifies this
      ensures q == this && components == old(components).(table := name)
    {
      components := components.(table := name);
      q := this;
    }

    /** `values`: replaces the whole column map. */
    method Values(columns: Entries<string>) returns (q: InsertQuery)
      modifies this
      ensures q == this && components == old(components).(values := columns)
    {
      components := components.(values := columns);
      q := this;
    }

    /** `__toString`, with the table line as intended: one loop builds both lists. */
    method ToString() returns (r: Result<string, string>)
      ensures r == InsertText(components)
    {
      var c := components;
      if Empty(c.table) {
        return Err(NoTable);
      }
      if |c.values| == 0 {
        return Err(NoValues);
      }
      var ks := KeyItems(c.values);
      var vs := ValueItems(c.values);
      var keys := "";
      var values := "";
      var i := 0;
      while i < |c.values|
        invariant 0 <= i <= |c.values|
        invariant keys == Glue(ks[..i], ",\n") && values == Glue(vs[..i], ",\n")
      {
        GlueStep(ks, i, ",\n");
        GlueStep(vs, i, ",\n");
        if !Empty(keys) {
          keys := keys + ",\n";
        }
        if !Empty(values) {
          values := values + ",\n";
        }
        keys := keys + ks[i];
        values := values + vs[i];
        i := i + 1;
      }
      assert ks[..i] == ks && vs[..i] == vs;
      var query := "INSERT INTO\n" + Clauses(c.table, keys, values) + "\n";
      r := Ok(Trim(query) + ";");
    }
  }
}
