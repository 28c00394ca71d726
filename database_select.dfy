/**
 * DatabaseSelectQuery: chained builders fill the query components (columns
 * keyed by alias, FROM table and alias, joins, WHERE conditions, GROUP BY
 * columns, LIMIT text) and `__toString` renders them clause by clause.
 */
module SelectQueries {
  import opened Php
  import opened PhpArrays
  import opened SqlText

  const JoinInner: int := 0
  const JoinLeftOuter: int := 1
  const JoinRightOuter: int := 2
  const JoinCross: int := 3

  /** A join: its type constant, target table, ON conditions (none stored when empty) and alias. */
  datatype JoinSpec = JoinSpec(kind: int, target: string, on: seq<Condition>, alias: Option<string>)

  /** The query components (HAVING and ORDER BY are not part of this model). */
  datatype Components = Components(
    columns: Entries<string>,
    fromTable: Option<string>,
    fromAlias: Option<string>,
    joins: seq<JoinSpec>,
    wheres: seq<Condition>,
    groups: seq<string>,
    limit: string)

  const Initial := Components([], None, None, [], [], [], "")

  /** Columns are keyed by the alias, or by the rendered column when no alias is given. */
  function ColumnKey(table: string, column: string, alias: string): string
  {
    if !Empty(alias) then alias else Qualified(table, column)
  }

  /** `column`. */
  function AddColumn(c: Components, table: string, column: string, alias: string): Components
  {
    c.(columns := Put(c.columns, ColumnKey(table, column, alias), Qualified(table, column)))
  }

  /**
   * Re-adding a column under an existing key overwrites it where it stands;
   * a new key is appended. Columns stay keyed uniquely, and the key reads
   * back the rendered column.
   */
  lemma ColumnKeyed(c: Components, table: string, column: string, alias: string)
    requires UniqueKeys(c.columns)
    ensures var k := ColumnKey(table, column, alias);
      var after := AddColumn(c, table, column, alias).columns;
      && UniqueKeys(after)
      && Get(after, k) == Some(Qualified(table, column))
      && (HasKey(c.columns, k) ==> |after| == |c.columns|)
      && (!HasKey(c.columns, k) ==> after == c.columns + [(k, Qualified(table, column))])
  {
    var k := ColumnKey(table, column, alias);
    PutShape(c.columns, k, Qualified(table, column));
    PutGet(c.columns, k, Qualified(table, column), k);
  }

  const TableRequired := "table not empty"

  /** `from`: an empty table raises; a new alias replaces the old one, an empty alias keeps it. */
  function SetFrom(c: Components, table: string, alias: string): (r: Result<Components, string>)
  {
    if Empty(table) then Err(TableRequired)
    else Ok(c.(fromTable := Some(table), fromAlias := if !Empty(alias) then Some(alias) else c.fromAlias))
  }

  /** What `from` promises: the table is set, the alias only changes when one is given, the rest is untouched. */
  lemma FromMeaning(c: Components, table: string, alias: string)
    ensures SetFrom(c, table, alias).Ok? <==> !Empty(table)
    ensures SetFrom(c, table, alias).Ok? ==>
      var d := SetFrom(c, table, alias).value;
      && d.fromTable == Some(table)
      && (Empty(alias) ==> d.fromAlias == c.fromAlias)
      && (!Empty(alias) ==> d.fromAlias == Some(alias))
      && d.(fromTable := c.fromTable, fromAlias := c.fromAlias) == c
  {
  }

  /** `join`: appended in order; conditions and alias are stored only when non-empty. */
  function AddJoin(c: Components, kind: int, target: string, on: seq<Condition>, alias: string): Components
  {
    c.(joins := c.joins + [JoinSpec(kind, target, on, if !Empty(alias) then Some(alias) else None)])
  }

  /** `where`. */
  function AddWhere(c: Components, condition: string, connective: int): Components
  {
    c.(wheres := c.wheres + [Condition(connective, condition)])
  }

  /** `group`. */
  function AddGroup(c: Components, table: string, column: string): Components
  {
    c.(groups := c.groups + [Qualified(table, column)])
  }

  /** The value `limit` stores: the start, then "," and the count when the count is truthy. */
  function LimitText(start: int, count: Option<int>): string
  {
    Decimal(start) + (if count.Some? && count.value != 0 then "," + Decimal(count.value) else "")
  }

  /** The LIMIT clause is left out exactly when the start is 0 and the count is absent or 0. */
  lemma LimitEmpty(start: int, count: Option<int>)
    ensures Empty(LimitText(start, count)) <==> start == 0 && (count.None? || count.value == 0)
    ensures count.Some? && count.value != 0 ==> LimitText(start, count) == Decimal(start) + "," + Decimal(count.value)
  {
    var d := Decimal(start);
    if count.Some? && count.value != 0 {
      var e := Decimal(count.value);
      assert |d| >= 1 && |e| >= 1;
      assert LimitText(start, count) == d + ("," + e);
      assert d + ("," + e) == d + "," + e;
      assert |d + ("," + e)| >= 2;
    } else {
      DecimalEmpty(start);
      assert LimitText(start, count) == d;
    }
  }

  // Rendering.

  /** One column line: `AS` only when the key differs from the rendered column. */
  function ColumnItem(alias: string, column: string): (r: string)
  {
    "\t" + column + (if alias != column then " AS `" + alias + "`" else "")
  }

  /** An alias appears exactly when the key differs from the column. */
  lemma ColumnItemAlias(alias: string, column: string)
    ensures ColumnItem(alias, column) == "\t" + column <==> alias == column
  {
    if alias != column {
      assert |ColumnItem(alias, column)| > |"\t" + column|;
    }
  }

  function ColumnItems(cols: Entries<string>): (r: seq<string>)
    ensures |r| == |cols| && forall i | 0 <= i < |cols| :: r[i] == ColumnItem(cols[i].0, cols[i].1)
  {
    seq(|cols|, i requires 0 <= i < |cols| => ColumnItem(cols[i].0, cols[i].1))
  }

  /** The column list: "\t*" when there are no columns. */
  function ColumnsPart(cols: Entries<string>): string
  {
    if |cols| == 0 then "\t*\n" else Glue(ColumnItems(cols), ",\n") + "\n"
  }

  const NoFrom := "Query incomplete: No FROM clause set."

  function FromPart(table: string, alias: Option<string>): string
  {
    "FROM\n\t`" + table + "`" + (if alias.Some? then " `" + alias.value + "`" else "") + "\n"
  }

  /** The join keyword line, None for an unsupported type. */
  function JoinWord(kind: int): (r: Option<string>)
    ensures r.Some? <==> kind == JoinInner || kind == JoinLeftOuter || kind == JoinRightOuter
  {
    if kind == JoinInner then Some("INNER JOIN\n")
    else if kind == JoinLeftOuter then Some("LEFT OUTER JOIN\n")
    else if kind == JoinRightOuter then Some("RIGHT OUTER JOIN\n")
    else None
  }

  function UnknownJoin(kind: int): string
  {
    "Query invalid: Received unsupported JOIN type " + Decimal(kind)
  }

  /** The ON clause: "ON\n", the conditions and a space, or nothing. */
  function OnPart(on: seq<Condition>): Result<string, string>
  {
    if |on| == 0 then Ok("")
    else
      var ons := Conditions(on);
      if ons.Err? then ons
      else Ok(if !Empty(ons.value) then "ON\n" + ons.value + " " else "")
  }

  /** One join: keyword line, target (and alias), then the ON clause. */
  function JoinText(j: JoinSpec): Result<string, string>
  {
    var word := JoinWord(j.kind);
    if word.None? then Err(UnknownJoin(j.kind))
    else
      var on := OnPart(j.on);
      if on.Err? then on
      else Ok(word.value + "\t`" + j.target + "`" + (if j.alias.Some? then " `" + j.alias.value + "`" else "") + "\n" + on.value)
  }

  /** All joins in order; the first failing join decides the error. */
  function JoinsText(joins: seq<JoinSpec>): Result<string, string>
  {
    if |joins| == 0 then Ok("")
    else
      var prev := JoinsText(joins[..|joins| - 1]);
      var last := JoinText(joins[|joins| - 1]);
      if prev.Err? then prev else if last.Err? then last else Ok(prev.value + last.value)
  }

  /**
   * A join renders iff its type is INNER, LEFT OUTER or RIGHT OUTER and its
   * ON conditions render; in particular a CROSS join always raises.
   */
  lemma JoinAccepted(j: JoinSpec)
    ensures JoinText(j).Ok? <==>
      (j.kind == JoinInner || j.kind == JoinLeftOuter || j.kind == JoinRightOuter)
      && forall i | 1 <= i < |j.on| :: KnownConnective(j.on[i].connective)
    ensures j.kind == JoinCross ==> JoinText(j) == Err(UnknownJoin(JoinCross))
    ensures JoinText(j).Ok? && |j.on| > 0 ==>
      JoinText(j).value == JoinWord(j.kind).value + "\t`" + j.target + "`"
        + (if j.alias.Some? then " `" + j.alias.value + "`" else "") + "\n" + ("ON\n" + Linked(j.on) + " ")
  {
    ConditionsMeaning(j.on);
    if |j.on| > 0 && Conditions(j.on).Ok? {
      assert OnPart(j.on) == Ok("ON\n" + Linked(j.on) + " ");
    }
  }

  /** The joins render iff each one does, and then their texts follow one another in order. */
  lemma {:induction false} JoinsInOrder(joins: seq<JoinSpec>)
    ensures JoinsText(joins).Ok? <==> forall i | 0 <= i < |joins| :: JoinText(joins[i]).Ok?
    ensures |joins| > 0 && JoinsText(joins).Ok? ==>
      JoinsText(joins).value == JoinsText(joins[..|joins| - 1]).value + JoinText(joins[|joins| - 1]).value
  {
    if |joins| > 0 {
      JoinsInOrder(joins[..|joins| - 1]);
      AllJoinsSnoc(joins);
    }
  }

  /** Every join of a list renders iff every join but the last does and the last does. */
  lemma AllJoinsSnoc(joins: seq<JoinSpec>)
    requires |joins| > 0
    ensures var init := joins[..|joins| - 1];
      (forall i | 0 <= i < |joins| :: JoinText(joins[i]).Ok?) <==>
      (forall i | 0 <= i < |init| :: JoinText(init[i]).Ok?) && JoinText(joins[|joins| - 1]).Ok?
  {
    var init := joins[..|joins| - 1];
    assert forall i | 0 <= i < |init| :: init[i] == joins[i];
  }

  function WherePart(ws: string): string
  {
    if !Empty(ws) then "WHERE\n" + ws + "\n" else ""
  }

  function GroupPart(groups: seq<string>): string
  {
    var g := Glue(Tabbed(groups), ",\n");
    if !Empty(g) then "GROUP BY\n" + g + "\n" else ""
  }

  /** GROUP BY is omitted iff there are no groups; otherwise the groups are tab-led and joined by ",\n". */
  lemma GroupMeaning(groups: seq<string>)
    ensures GroupPart(groups) == "" <==> |groups| == 0
    ensures |groups| > 0 ==> GroupPart(groups) == "GROUP BY\n" + Join(Tabbed(groups), ",\n") + "\n"
  {
    TabbedGlue(groups, ",\n");
  }

  function LimitPart(limit: string): string
  {
    if !Empty(limit) then "LIMIT\n" + limit + "\n" else ""
  }

  /** The text before trimming, once FROM, joins and conditions have rendered. */
  function Body(c: Components, joins: string, wheres: string): string
    requires c.fromTable.Some?
  {
    "SELECT\n" + Clauses(c, joins, wheres)
  }

  /** Everything after the "SELECT" line. */
  function Clauses(c: Components, joins: string, wheres: string): string
    requires c.fromTable.Some?
  {
    ColumnsPart(c.columns) + FromPart(c.fromTable.value, c.fromAlias)
      + joins + WherePart(wheres) + GroupPart(c.groups) + LimitPart(c.limit)
  }

  /** `__toString`. */
  function SelectText(c: Components): Result<string, string>
  {
    if c.fromTable.None? then Err(NoFrom)
    else
      var joins := JoinsText(c.joins);
      if joins.Err? then joins
      else
        var wheres := Conditions(c.wheres);
        if wheres.Err? then wheres
        else Ok(Trim(Body(c, joins.value, wheres.value)) + ";")
  }

  /**
   * Rendering succeeds iff FROM is set, every join is supported and every
   * later condition has a known connective.
   */
  lemma SelectAccepted(c: Components)
    ensures SelectText(c).Ok? <==>
      && c.fromTable.Some?
      && (forall i | 0 <= i < |c.joins| :: JoinText(c.joins[i]).Ok?)
      && (forall i | 1 <= i < |c.wheres| :: KnownConnective(c.wheres[i].connective))
    ensures c.fromTable.None? ==> SelectText(c) == Err(NoFrom)
  {
    JoinsInOrder(c.joins);
    ConditionsMeaning(c.wheres);
  }

  /** A rendered query starts with "SELECT" and is the right-trimmed body followed by ";". */
  lemma SelectShape(c: Components)
    requires SelectText(c).Ok?
    ensures JoinsText(c.joins).Ok? && Conditions(c.wheres).Ok? && c.fromTable.Some?
    ensures var b := Body(c, JoinsText(c.joins).value, Conditions(c.wheres).value);
      |SelectText(c).value| >= 6 && SelectText(c).value == TrimRight(b) + ";" && SelectText(c).value[..6] == "SELECT"
  {
    var j, w := JoinsText(c.joins).value, Conditions(c.wheres).value;
    var b := Body(c, j, w);
    assert SelectText(c) == Ok(Trim(b) + ";");
    BodyHead(c, j, w);
    StatementHead(b);
  }

  lemma BodyHead(c: Components, joins: string, wheres: string)
    requires c.fromTable.Some?
    ensures |Body(c, joins, wheres)| >= 7 && Body(c, joins, wheres)[..7] == "SELECT\n"
  {
  }

  /** A statement text that starts with "SELECT\n" keeps its head through `trim`. */
  lemma StatementHead(b: string)
    requires |b| >= 7 && b[..7] == "SELECT\n"
    ensures Trim(b) == TrimRight(b) && |TrimRight(b)| >= 6 && (TrimRight(b) + ";")[..6] == "SELECT"
  {
    assert b[0] == 'S' && b[5] == 'T';
    TrimKeepsHead(b);
    TrimRightKeepsHead(b, 6);
    assert b[..6] == b[..7][..6] == "SELECT";
    PrefixAppend(TrimRight(b), ";", 6);
  }

  /** With only a FROM table T the output is exactly "SELECT\n\t*\nFROM\n\t`T`;". */
  lemma SelectStar(table: string)
    requires !Empty(table)
    ensures var c := SetFrom(Initial, table, "").value;
      SelectText(c) == Ok("SELECT\n\t*\nFROM\n\t`" + table + "`" + ";")
  {
    var c := SetFrom(Initial, table, "").value;
    assert c == Components([], Some(table), None, [], [], [], "");
    var head := "SELECT\n\t*\nFROM\n\t`" + table + "`";
    assert JoinsText(c.joins) == Ok("") && Conditions(c.wheres) == Ok("");
    assert SelectText(c) == Ok(Trim(Body(c, "", "")) + ";");
    StarBody(c, table);
    assert head[0] == 'S' && head[|head| - 1] == '`';
    TrimmedStatement(head);
  }

  lemma StarBody(c: Components, table: string)
    requires c == Components([], Some(table), None, [], [], [], "")
    ensures Body(c, "", "") == "SELECT\n\t*\nFROM\n\t`" + table + "`" + "\n"
  {
    assert Tabbed([]) == [];
    assert GroupPart([]) == "";
    assert Clauses(c, "", "") == "\t*\n" + ("FROM\n\t`" + table + "`" + "\n");
  }

  /** The PHP query object; `components` is its `query_components` array. */
  class SelectQuery {
    var components: Components

    constructor ()
      ensures components == Initial
    {
      components := Initial;
    }

    method Column(table: string, column: string, alias: string := "") returns (q: SelectQuery)
      modifies this
      ensures q == this && components == AddColumn(old(components), table, column, alias)
    {
      var temp := (if !Empty(table) then "`" + table + "`." else "") + "`" + column + "`";
      if !Empty(alias) {
        components := components.(columns := Put(components.columns, alias, temp));
      } else {
        components := components.(columns := Put(components.columns, temp, temp));
      }
      q := this;
    }

    /** `from`: raises PreconditionViolation (Err) on an empty table and then changes nothing. */
    method From(table: string, alias: string := "") returns (q: Result<SelectQuery, string>)
      modifies this
      ensures SetFrom(old(components), table, alias).Err? ==>
        q == Err(TableRequired) && components == old(components)
      ensures SetFrom(old(components), table, alias).Ok? ==>
        q == Ok(this) && components == SetFrom(old(components), table, alias).value
    {
      if Empty(table) {
        return Err(TableRequired);
      }
      components := components.(fromTable := Some(table));
      if !Empty(alias) {
        components := components.(fromAlias := Some(alias));
      }
      q := Ok(this);
    }

    method Join(kind: int, target: string, on: seq<Condition> := [], alias: string := "") returns (q: SelectQuery)
      modifies this
      ensures q == this && components == AddJoin(old(components), kind, target, on, alias)
    {
      var a := if !Empty(alias) then Some(alias) else None;
      components := components.(joins := components.joins + [JoinSpec(kind, target, on, a)]);
      q := this;
    }

    method Where(condition: string, connective: int := ConditionAnd) returns (q: SelectQuery)
      modifies this
      ensures q == this && components == AddWhere(old(components), condition, connective)
    {
      components := components.(wheres := components.wheres + [Condition(connective, condition)]);
      q := this;
    }

    method Group(table: string, column: string) returns (q: SelectQuery)
      modifies this
      ensures q == this && components == AddGroup(old(components), table, column)
    {
      components := components.(groups := components.groups + [Qualified(table, column)]);
      q := this;
    }

    method Limit(start: int, count: Option<int> := None) returns (q: SelectQuery)
      modifies this
      ensures q == this && components == old(components).(limit := LimitText(start, count))
    {
      var limit := Decimal(start);
      if count.Some? && count.value != 0 {
        limit := limit + "," + Decimal(count.value);
      }
      components := components.(limit := limit);
      q := this;
    }

    /** `__toString`: one loop per clause. */
    method ToString() returns (r: Result<string, string>)
      ensures r == SelectText(components)
    {
      var c := components;
      var columns := ColumnsLoop(c.columns);
      if c.fromTable.None? {
        return Err(NoFrom);
      }
      var joins := JoinsLoop(c.joins);
      if joins.Err? {
        return joins;
      }
      var wheres := ConditionsLoop(c.wheres);
      if wheres.Err? {
        return wheres;
      }
      var groups := GlueLoop(Tabbed(c.groups), ",\n");
      var groupPart := if !Empty(groups) then "GROUP BY\n" + groups + "\n" else "";
      var query := "SELECT\n" + (columns + FromPart(c.fromTable.value, c.fromAlias)
        + joins.value + WherePart(wheres.value) + groupPart + LimitPart(c.limit));
      assert query == Body(c, joins.value, wheres.value);
      r := Ok(Trim(query) + ";");
    }
  }

  /** The column loop of `__toString`. */
  method ColumnsLoop(cols: Entries<string>) returns (s: string)
    ensures s == ColumnsPart(cols)
  {
    if |cols| == 0 {
      return "\t*\n";
    }
    var columns := GlueLoop(ColumnItems(cols), ",\n");
    s := columns + "\n";
  }

  /** The join loop of `__toString`. */
  method JoinsLoop(joins: seq<JoinSpec>) returns (r: Result<string, string>)
    ensures r == JoinsText(joins)
  {
    var query := "";
    var i := 0;
    while i < |joins|
      invariant 0 <= i <= |joins|
      invariant JoinsText(joins[..i]) == Ok(query)
    {
      assert joins[..i + 1][..i] == joins[..i];
      var j := joins[i];
      var word := JoinWord(j.kind);
      if word.None? {
        r := Err(UnknownJoin(j.kind));
        JoinsPrefixErr(joins, i + 1);
        return;
      }
      var on := "";
      if |j.on| > 0 {
        var ons := ConditionsLoop(j.on);
        if ons.Err? {
          r := ons;
          JoinsPrefixErr(joins, i + 1);
          return;
        }
        on := if !Empty(ons.value) then "ON\n" + ons.value + " " else "";
      }
      query := query + (word.value + "\t`" + j.target + "`" + (if j.alias.Some? then " `" + j.alias.value + "`" else "") + "\n" + on);
      i := i + 1;
    }
    assert joins[..i] == joins;
    r := Ok(query);
  }

  /** Once a prefix of the joins fails, all of them fail with the same error. */
  lemma {:induction false} JoinsPrefixErr(joins: seq<JoinSpec>, k: nat)
    requires k <= |joins| && JoinsText(joins[..k]).Err?
    ensures JoinsText(joins) == JoinsText(joins[..k])
    decreases |joins| - k
  {
    if k < |joins| {
      assert joins[..k + 1][..k] == joins[..k];
      JoinsPrefixErr(joins, k + 1);
    } else {
      assert joins[..k] == joins;
    }
  }
}
