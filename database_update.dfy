/**
 * DatabaseUpdateQuery: a table name, a SET map that `set` replaces as a
 * whole, and WHERE conditions that `where` appends.
 *
 * The table line of `__toString` reads the class constant UPDATE_FROM,
 * which the class does not define; `UpdateTextAsWritten` models that and
 * `UpdateText`, which the class uses, renders the table name as intended.
 */
module UpdateQueries {
  import opened Php
  import opened PhpArrays
  import opened SqlText

  datatype Components = Components(table: string, sets: Entries<string>, wheres: seq<Condition>)

  const Initial := Components("", [], [])

  const NoTable := "Query incomplete: No table name for UPDATE set."
  const NoSet := "Query inclomplete: No SET clause set."
  /** The fatal error PHP raises on reading an undefined class constant. */
  const UndefinedFrom := "Undefined class constant 'UPDATE_FROM'"

  /** One SET entry: "\t`k` = 'v'". */
  function SetItem(k: string, v: string): string
  {
    "\t`" + k + "` = '" + v + "'"
  }

  function SetItems(sets: Entries<string>): (r: seq<string>)
    ensures |r| == |sets| && forall i | 0 <= i < |sets| :: r[i] == SetItem(sets[i].0, sets[i].1)
  {
    seq(|sets|, i requires 0 <= i < |sets| => SetItem(sets[i].0, sets[i].1))
  }

  function WherePart(ws: string): string
  {
    if !Empty(ws) then "WHERE\n" + ws + "\n" else ""
  }

  /** Everything after the "UPDATE" line, with the table line as intended. */
  function Clauses(table: string, sets: string, wheres: string): string
  {
    "\t`" + table + "`\n" + "SET\n" + sets + "\n" + WherePart(wheres)
  }

  /** `__toString` as written: once a table name is set, the table line is a fatal error. */
  function UpdateTextAsWritten(c: Components): Result<string, string>
  {
    if Empty(c.table) then Err(NoTable) else Err(UndefinedFrom)
  }

  /** `__toString` with the table line as intended. */
  function UpdateText(c: Components): Result<string, string>
  {
    if Empty(c.table) then Err(NoTable)
    else if |c.sets| == 0 then Err(NoSet)
    else
      var wheres := Conditions(c.wheres);
      if wheres.Err? then wheres
      else Ok(Trim("UPDATE\n" + Clauses(c.table, Glue(SetItems(c.sets), ",\n"), wheres.value)) + ";")
  }

  /** As written, no UPDATE statement is ever produced. */
  lemma AsWrittenNeverRenders(c: Components)
    ensures UpdateTextAsWritten(c).Err?
    ensures !Empty(c.table) ==> UpdateTextAsWritten(c) == Err(UndefinedFrom)
  {
  }

  /**
   * Every complete query the intended rendering accepts (a table, a SET
   * entry, well-formed conditions), the code as written rejects.
   */
  lemma AsWrittenRejectsComplete(c: Components)
    requires UpdateText(c).Ok?
    ensures UpdateTextAsWritten(c) == Err(UndefinedFrom)
  {
  }

  /** The intended statement for one SET entry and no condition: the table line, then the entry. */
  lemma IntendedSingleSet(c: Components, k: string, v: string)
    requires !Empty(c.table) && c.sets == [(k, v)] && c.wheres == []
    ensures UpdateText(c) == Ok("UPDATE\n" + ("\t`" + c.table + "`\n" + "SET\n" + SetItem(k, v)) + ";")
  {
    var item := SetItem(k, v);
    assert Glue(SetItems(c.sets), ",\n") == item by {
      assert SetItems(c.sets) == [item];
      GlueOne(item, ",\n");
    }
    var head := "UPDATE\n" + ("\t`" + c.table + "`\n" + "SET\n" + item);
    assert "UPDATE\n" + Clauses(c.table, item, "") == head + "\n";
    assert head[0] == 'U' && head[|head| - 1] == item[|item| - 1] == '\'';
    TrimmedStatement(head);
  }

  /**
   * The intended rendering raises on a missing table, then on an empty SET
   * map, then on an unknown later connective, and otherwise succeeds.
   */
  lemma UpdateAccepted(c: Components)
    ensures UpdateText(c).Ok? <==>
      !Empty(c.table) && |c.sets| > 0 && forall i | 1 <= i < |c.wheres| :: KnownConnective(c.wheres[i].connective)
    ensures Empty(c.table) ==> UpdateText(c) == Err(NoTable)
    ensures !Empty(c.table) && |c.sets| == 0 ==> UpdateText(c) == Err(NoSet)
  {
    ConditionsMeaning(c.wheres);
  }

  /**
   * A rendered statement lists the SET entries in map order, each as
   * "\t`k` = 'v'", joined by ",\n", then WHERE when there are conditions,
   * trimmed and terminated by ";".
   */
  lemma UpdateShape(c: Components)
    requires UpdateText(c).Ok?
    ensures Conditions(c.wheres).Ok?
    ensures UpdateText(c).value
      == TrimRight("UPDATE\n" + Clauses(c.table, Join(SetItems(c.sets), ",\n"), Conditions(c.wheres).value)) + ";"
  {
    var items := SetItems(c.sets);
    assert items[0][0] == '\t';
    GlueJoin(items, ",\n");
    var b := "UPDATE\n" + Clauses(c.table, Join(items, ",\n"), Conditions(c.wheres).value);
    assert b[0] == 'U';
    TrimKeepsHead(b);
  }

  /** The PHP query object; `components` is its `query_components` array. */
  class UpdateQuery {
    var components: Components

    constructor ()
      ensures components == Initial
    {
      components := Initial;
    }

    /** `table`: overwrites the name. */
    method Table(name: string) returns (q: UpdateQuery)
      modifies this
      ensures q == this && components == old(components).(table := name)
    {
      components := components.(table := name);
      q := this;
    }

    /** `set`: replaces the whole SET map, it does not merge. */
    method Set(columns: Entries<string>) returns (q: UpdateQuery)
      modifies this
      ensures q == this && components == old(components).(sets := columns)
    {
      components := components.(sets := columns);
      q := this;
    }

    /** `where`: appends a condition. */
    method Where(condition: string, connective: int := ConditionAnd) returns (q: UpdateQuery)
      modifies this
      ensures q == this && components == old(components).(wheres := old(components).wheres + [Condition(connective, condition)])
    {
      components := components.(wheres := components.wheres + [Condition(connective, condition)]);
      q := this;
    }

    /** `__toString`, with the table line as intended. */
    method ToString() returns (r: Result<string, string>)
      ensures r == UpdateText(components)
    {
      var c := components;
      if Empty(c.table) {
        return Err(NoTable);
      }
      if |c.sets| == 0 {
        return Err(NoSet);
      }
      var sets := GlueLoop(SetItems(c.sets), ",\n");
      var wheres := ConditionsLoop(c.wheres);
      if wheres.Err? {
        return wheres;
      }
      var query := "UPDATE\n" + ("\t`" + c.table + "`\n" + "SET\n" + sets + "\n" + WherePart(wheres.value));
      r := Ok(Trim(query) + ";");
    }
  }
}
