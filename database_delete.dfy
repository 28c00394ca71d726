/**
 * DatabaseDeleteQuery: a table name and a WHERE tree. The first condition is
 * kept as a bare string; further conditions of the same kind extend one flat
 * connective in place, and a change of kind wraps the current WHERE as the
 * first operand of a new connective.
 */
module DeleteQueries {
  import opened Php
  import opened SqlText
  import opened DatabaseConnectives

  /** The condition `whereAnd` (Conjunction) or `whereOr` (Disjunction) leaves behind. */
  function AddCondition(w: Expr, kind: Kind, c: string): (r: Expr)
  {
    if w.Nested? then
      if w.kind == kind then Nested(kind, w.items + [Plain(c)]) else Nested(kind, [w, Plain(c)])
    else if !Empty(w.text) then Nested(kind, [w, Plain(c)])
    else Plain(c)
  }

  /** Adding the conditions one after another with the same kind. */
  function AddAll(w: Expr, kind: Kind, cs: seq<string>): Expr
  {
    if |cs| == 0 then w else AddCondition(AddAll(w, kind, cs[..|cs| - 1]), kind, cs[|cs| - 1])
  }

  /** Plain expressions for the given conditions. */
  function Plains(cs: seq<string>): (r: seq<Expr>)
    ensures |r| == |cs| && forall i | 0 <= i < |cs| :: r[i] == Plain(cs[i])
  {
    seq(|cs|, i requires 0 <= i < |cs| => Plain(cs[i]))
  }

  /** The first condition on an empty WHERE is stored as the bare string, whatever the kind. */
  lemma FirstConditionBare(kind: Kind, c: string)
    ensures AddCondition(Plain(""), kind, c) == Plain(c)
    ensures AddCondition(Plain("0"), kind, c) == Plain(c)
  {
  }

  /**
   * Repeated conditions of one kind after a non-empty bare first condition
   * build one flat connective holding all of them in order, never a nest.
   */
  lemma {:induction false} SameKindFlattens(first: string, kind: Kind, cs: seq<string>)
    requires !Empty(first) && |cs| > 0
    ensures AddAll(Plain(first), kind, cs) == Nested(kind, [Plain(first)] + Plains(cs))
  {
    if |cs| > 1 {
      var init := cs[..|cs| - 1];
      SameKindFlattens(first, kind, init);
      assert Plains(cs) == Plains(init) + [Plain(cs[|cs| - 1])];
    }
  }

  /**
   * Switching kind wraps the current connective as the first operand of a
   * new one; it then renders in parentheses before the new word.
   */
  lemma SwitchNests(inner: Kind, items: seq<Expr>, kind: Kind, c: string, words: Words)
    requires inner != kind
    ensures AddCondition(Nested(inner, items), kind, c) == Nested(kind, [Nested(inner, items), Plain(c)])
    ensures WhereText(AddCondition(Nested(inner, items), kind, c), words)
      == "(" + Rendered(inner, items, words) + ")" + " " + Word(words, kind) + " " + c
  {
    var n := Nested(inner, items);
    var both := [n, Plain(c)];
    assert both[..1] == [n];
    assert [n][..0] == [];
    assert Rendered(kind, [], words) == "";
    var first := Rendered(kind, [n], words);
    assert Piece(n, words) == "(" + Rendered(inner, items, words) + ")";
    assert first == "" + "" + Piece(n, words);
    assert |first| >= 2 && !Empty(first);
    var sep := " " + Word(words, kind) + " ";
    assert Rendered(kind, both, words) == first + sep + c;
    assert first + sep + c == "(" + Rendered(inner, items, words) + ")" + " " + Word(words, kind) + " " + c;
  }

  /** The text a WHERE contributes: the bare string, or the connective's `__toString`. */
  function WhereText(w: Expr, words: Words): string
  {
    match w
    case Plain(t) => t
    case Nested(k, items) => Rendered(k, items, words)
  }

  /** PHP truthiness of the WHERE component: an object always, a string unless "" or "0". */
  predicate Truthy(w: Expr)
  {
    w.Nested? || !Empty(w.text)
  }

  const NoTable := "Query incomplete: No table name for DELETE set."

  /** The first two lines, without the final newline. */
  function Header(table: string): (r: string)
    ensures |r| > 0 && r[0] == 'D'
  {
    "DELETE FROM\n\t`" + table + "`"
  }

  /** The WHERE clause, present only when the component is truthy. */
  function WherePart(w: Expr, words: Words): string
  {
    if Truthy(w) then "WHERE\n\t" + WhereText(w, words) + "\n" else ""
  }

  /** The text before trimming. */
  function Unterminated(table: string, w: Expr, words: Words): string
  {
    Header(table) + "\n" + WherePart(w, words)
  }

  /** `__toString`: raises without a table name, otherwise the trimmed text and ";". */
  function DeleteText(table: string, w: Expr, words: Words): (r: Result<string, string>)
    ensures r.Err? <==> Empty(table)
    ensures r.Err? ==> r.error == NoTable
    ensures r.Ok? ==> |r.value| > 0 && r.value[|r.value| - 1] == ';'
  {
    if Empty(table) then Err(NoTable) else Ok(Trim(Unterminated(table, w, words)) + ";")
  }

  /** With table T and no condition the output is exactly "DELETE FROM\n\t`T`;". */
  lemma DeleteWithoutWhere(table: string, words: Words)
    requires !Empty(table)
    ensures DeleteText(table, Plain(""), words) == Ok("DELETE FROM\n\t`" + table + "`" + ";")
  {
    var head := Header(table);
    assert Unterminated(table, Plain(""), words) == head + "\n";
    assert head[0] == 'D' && head[|head| - 1] == '`';
    TrimmedStatement(head);
  }

  /**
   * With a truthy WHERE, the output is the header, "WHERE", the tab and the
   * WHERE text with trailing blanks removed, then ";".
   */
  lemma DeleteWithWhere(table: string, w: Expr, words: Words)
    requires !Empty(table) && Truthy(w)
    ensures DeleteText(table, w, words)
      == Ok(TrimRight(Header(table) + "\n" + "WHERE\n\t" + WhereText(w, words)) + ";")
  {
    var body := Header(table) + "\n" + "WHERE\n\t" + WhereText(w, words);
    assert Unterminated(table, w, words) == body + "\n";
    assert body[0] == Header(table)[0];
    TrimStatement(body);
  }

  /**
   * A lone condition "0" is falsy to PHP, so it is dropped: the rendered
   * statement has no WHERE and the next condition replaces it.
   */
  lemma ZeroConditionDropped(table: string, kind: Kind, c: string, words: Words)
    requires !Empty(table)
    ensures DeleteText(table, Plain("0"), words) == DeleteText(table, Plain(""), words)
    ensures AddCondition(Plain("0"), kind, c) == Plain(c)
  {
  }

  /** The PHP query object: its table component and its WHERE component, a string or a connective. */
  class DeleteQuery {
    var table: string
    var bare: string
    var connective: Connective?

    /** The WHERE component as a value. */
    function Where(): Expr
      reads this, connective
    {
      if connective == null then Plain(bare) else connective.AsExpr()
    }

    /** Both components start empty. */
    constructor ()
      ensures table == "" && Where() == Plain("")
    {
      table := "";
      bare := "";
      connective := null;
    }

    /** `table`: overwrites the name and returns the query itself. */
    method Table(name: string) returns (q: DeleteQuery)
      modifies this`table
      ensures q == this && table == name
    {
      table := name;
      q := this;
    }

    /** `whereAnd` (kind Conjunction) and `whereOr` (kind Disjunction). */
    method AddWhere(kind: Kind, c: string) returns (q: DeleteQuery)
      modifies this, connective
      ensures q == this && table == old(table)
      ensures Where() == AddCondition(old(Where()), kind, c)
    {
      if connective != null {
        if connective.kind == kind {
          connective.AddExpression(Plain(c));
        } else {
          connective := new Connective(kind, [connective.AsExpr(), Plain(c)]);
        }
      } else if !Empty(bare) {
        connective := new Connective(kind, [Plain(bare), Plain(c)]);
      } else {
        bare := c;
      }
      q := this;
    }

    method WhereAnd(c: string) returns (q: DeleteQuery)
      modifies this, connective
      ensures q == this && table == old(table)
      ensures Where() == AddCondition(old(Where()), Conjunction, c)
    {
      q := AddWhere(Conjunction, c);
    }

    method WhereOr(c: string) returns (q: DeleteQuery)
      modifies this, connective
      ensures q == this && table == old(table)
      ensures Where() == AddCondition(old(Where()), Disjunction, c)
    {
      q := AddWhere(Disjunction, c);
    }

    /** `where`: the same as `whereAnd`. */
    method WhereClause(c: string) returns (q: DeleteQuery)
      modifies this, connective
      ensures q == this && table == old(table)
      ensures Where() == AddCondition(old(Where()), Conjunction, c)
    {
      q := WhereAnd(c);
    }

    /** `__toString`. */
    method ToString(words: Words) returns (r: Result<string, string>)
      ensures r == DeleteText(table, Where(), words)
    {
      if Empty(table) {
        return Err(NoTable);
      }
      var query := Header(table) + "\n";
      if connective != null {
        var w := connective.ToString(words);
        query := query + ("WHERE\n\t" + w + "\n");
      } else if !Empty(bare) {
        query := query + ("WHERE\n\t" + bare + "\n");
      } else {
        assert query == query + "";
      }
      r := Ok(Trim(query) + ";");
    }
  }
}
