/**
 * The text-building idioms shared by the query serialisers: the PHP
 * accumulator loop that puts a separator in front of each piece only once
 * the accumulated text is non-empty by `empty()`, decimal rendering of
 * integers inside messages and LIMIT clauses, backquoted column names, and
 * the WHERE/ON condition lists whose separator is chosen by each later
 * condition's connective.
 */
module SqlText {
  import opened Php

  /**
   * `foreach (pieces as p) { if (!empty(acc)) acc .= sep; acc .= p; }`:
   * the separator goes in only when the text so far is neither "" nor "0".
   */
  function Glue(pieces: seq<string>, sep: string): string
  {
    if |pieces| == 0 then ""
    else
      var acc := Glue(pieces[..|pieces| - 1], sep);
      acc + (if !Empty(acc) then sep else "") + pieces[|pieces| - 1]
  }

  /**
   * When the first piece is neither "" nor "0" the accumulator is never
   * empty again, so the loop is exactly `implode(sep, pieces)`.
   */
  lemma {:induction false} GlueJoin(pieces: seq<string>, sep: string)
    requires |pieces| == 0 || !Empty(pieces[0])
    ensures Glue(pieces, sep) == Join(pieces, sep)
    ensures |pieces| > 0 ==> !Empty(Glue(pieces, sep))
  {
    if |pieces| > 1 {
      var init := pieces[..|pieces| - 1];
      GlueJoin(init, sep);
      assert init[0] == pieces[0];
    }
  }

  /** A single piece is the whole text. */
  lemma GlueOne(x: string, sep: string)
    ensures Glue([x], sep) == x
  {
    assert [x][..0] == [];
  }

  /** A leading "" vanishes and a leading "0" is glued to the next piece without separator. */
  lemma GlueLeadingEmpty(sep: string, x: string)
    ensures Glue(["", x], sep) == x
    ensures Glue(["0", x], sep) == "0" + x
  {
    assert ["", x][..1] == [""];
    assert Glue([""], sep) == "";
    assert ["0", x][..1] == ["0"];
  }

  /** `"\t" + p` for every p: the shape of every list item the serialisers emit. */
  function Tabbed(items: seq<string>): (r: seq<string>)
    ensures |r| == |items|
    ensures forall i | 0 <= i < |items| :: r[i] == "\t" + items[i]
  {
    seq(|items|, i requires 0 <= i < |items| => "\t" + items[i])
  }

  /** Tab-led items are never empty, so their accumulator loop is a plain implode. */
  lemma TabbedGlue(items: seq<string>, sep: string)
    ensures Glue(Tabbed(items), sep) == Join(Tabbed(items), sep)
    ensures |items| > 0 <==> !Empty(Glue(Tabbed(items), sep))
  {
    var t := Tabbed(items);
    if |items| > 0 {
      assert t[0][0] == '\t';
    }
    GlueJoin(t, sep);
  }

  /** One more piece on an accumulated prefix. */
  lemma GlueStep(pieces: seq<string>, i: nat, sep: string)
    requires i < |pieces|
    ensures var acc := Glue(pieces[..i], sep);
      Glue(pieces[..i + 1], sep) == acc + (if !Empty(acc) then sep else "") + pieces[i]
  {
    assert pieces[..i + 1][..i] == pieces[..i];
  }

  /** The accumulator loop. */
  method GlueLoop(pieces: seq<string>, sep: string) returns (acc: string)
    ensures acc == Glue(pieces, sep)
  {
    acc := "";
    var i := 0;
    while i < |pieces|
      invariant 0 <= i <= |pieces|
      invariant acc == Glue(pieces[..i], sep)
    {
      if !Empty(acc) {
        acc := acc + sep;
      }
      acc := acc + pieces[i];
      i := i + 1;
      assert pieces[..i][..i - 1] == pieces[..i - 1];
    }
    assert pieces[..i] == pieces;
  }

  /**
   * The serialisers end with `trim($query) . ";"`: a statement that starts
   * with a kept character and ends in a newline loses the newline and any
   * blanks before it, and nothing at the front.
   */
  lemma TrimStatement(s: string)
    requires s != [] && !IsTrimmed(s[0])
    ensures Trim(s + "\n") == TrimRight(s)
  {
    assert (s + "\n")[0] == s[0];
    TrimKeepsHead(s + "\n");
    TrimRightDropsTail(s, "\n");
  }

  /** A statement that starts and ends with kept characters comes out of `trim(s . "\n")` whole. */
  lemma TrimmedStatement(s: string)
    requires s != [] && !IsTrimmed(s[0]) && !IsTrimmed(s[|s| - 1])
    ensures Trim(s + "\n") == s
  {
    TrimStatement(s);
    TrimRightKeeps(s);
  }

  /** Decimal digits of a natural number, as PHP's string conversion writes them. */
  function Digits(n: nat): (r: string)
    ensures |r| >= 1 && forall i | 0 <= i < |r| :: '0' <= r[i] <= '9'
    ensures r[0] == '0' ==> n == 0
  {
    if n < 10 then [(n + '0' as int) as char] else Digits(n / 10) + [(n % 10 + '0' as int) as char]
  }

  /** PHP's conversion of an integer to a string. */
  function Decimal(n: int): (r: string)
  {
    if n < 0 then "-" + Digits(-n) else Digits(n)
  }

  /** The value of a run of decimal digits. */
  function DigitValue(s: string): nat
    requires forall i | 0 <= i < |s| :: '0' <= s[i] <= '9'
  {
    if |s| == 0 then 0 else DigitValue(s[..|s| - 1]) * 10 + (s[|s| - 1] as int - '0' as int)
  }

  /** Reading the digits back gives the number. */
  lemma {:induction false} DigitsRoundTrip(n: nat)
    ensures DigitValue(Digits(n)) == n
  {
    if n >= 10 {
      DigitsRoundTrip(n / 10);
      var d := Digits(n);
      assert d[..|d| - 1] == Digits(n / 10);
    }
  }

  /** Plain decimal text: digits only, with no leading zero except "0" itself. */
  predicate Canonical(s: string)
  {
    |s| >= 1 && (forall i | 0 <= i < |s| :: '0' <= s[i] <= '9') && (s[0] == '0' ==> |s| == 1)
  }

  /** Digits with a non-zero first digit have a non-zero value. */
  lemma {:induction false} LeadingDigitPositive(s: string)
    requires |s| >= 1 && (forall i | 0 <= i < |s| :: '0' <= s[i] <= '9') && s[0] != '0'
    ensures DigitValue(s) >= 1
  {
    if |s| > 1 {
      LeadingDigitPositive(s[..|s| - 1]);
    }
  }

  /** Writing back the value of plain decimal text gives the text: the inverse of `DigitsRoundTrip`. */
  lemma {:induction false} DigitValueRoundTrip(s: string)
    requires Canonical(s)
    ensures Digits(DigitValue(s)) == s
  {
    if |s| > 1 {
      var init := s[..|s| - 1];
      assert Canonical(init);
      LeadingDigitPositive(init);
      DigitValueRoundTrip(init);
      assert s == init + [s[|s| - 1]];
    }
  }

  /** The text of a natural number is plain decimal text. */
  lemma DigitsCanonical(n: nat)
    ensures Canonical(Digits(n))
  {
  }

  /** A decimal is never "" and is "0" only for zero: PHP's truthiness of an integer. */
  lemma DecimalEmpty(n: int)
    ensures Empty(Decimal(n)) <==> n == 0
  {
  }

  /** `` (!empty($table) ? "`table`." : "") . "`column`" ``: a column, qualified when a table is given. */
  function Qualified(table: string, column: string): (r: string)
    ensures Empty(table) ==> r == "`" + column + "`"
    ensures !Empty(table) ==> r == "`" + table + "`.`" + column + "`"
  {
    (if !Empty(table) then "`" + table + "`." else "") + "`" + column + "`"
  }

  const ConditionAnd: int := 0
  const ConditionOr: int := 1

  /** One WHERE or ON condition with the connective that links it to the previous one. */
  datatype Condition = Condition(connective: int, text: string)

  predicate KnownConnective(connective: int)
  {
    connective == ConditionAnd || connective == ConditionOr
  }

  function UnknownConnective(connective: int): string
  {
    "Query invalid: Received unsupported condition connective " + Decimal(connective)
  }

  /** The separator the connective switch appends, None for the default branch. */
  function Separator(connective: int): (r: Option<string>)
    ensures r.Some? <==> KnownConnective(connective)
  {
    if connective == ConditionAnd then Some(" AND\n")
    else if connective == ConditionOr then Some(" OR\n")
    else None
  }

  /**
   * The condition loop: each condition is appended as "\t" + text; once
   * the text is non-empty, the condition's own connective first appends its
   * separator or raises.
   */
  function Conditions(conds: seq<Condition>): Result<string, string>
  {
    if |conds| == 0 then Ok("")
    else
      var prev := Conditions(conds[..|conds| - 1]);
      var last := conds[|conds| - 1];
      if prev.Err? then prev
      else if !Empty(prev.value) then
        match Separator(last.connective)
        case None => Err(UnknownConnective(last.connective))
        case Some(sep) => Ok(prev.value + sep + "\t" + last.text)
      else Ok(prev.value + "\t" + last.text)
  }

  /** The text of a condition list as an independent definition: conditions and separators alternate. */
  function Linked(conds: seq<Condition>): string
    requires forall i | 1 <= i < |conds| :: KnownConnective(conds[i].connective)
  {
    if |conds| == 0 then ""
    else if |conds| == 1 then "\t" + conds[0].text
    else Linked(conds[..|conds| - 1]) + Separator(conds[|conds| - 1].connective).value + "\t" + conds[|conds| - 1].text
  }

  /**
   * The condition loop succeeds exactly when every condition after the
   * first has a known connective; its text is then the linked list, which
   * is non-empty iff there is a condition and starts with a tab.
   */
  lemma {:induction false} ConditionsMeaning(conds: seq<Condition>)
    ensures Conditions(conds).Ok? <==> forall i | 1 <= i < |conds| :: KnownConnective(conds[i].connective)
    ensures Conditions(conds).Ok? ==>
      && Conditions(conds).value == Linked(conds)
      && (|conds| > 0 <==> !Empty(Conditions(conds).value))
      && (|conds| > 0 ==> Conditions(conds).value[0] == '\t')
  {
    if |conds| > 0 {
      var init := conds[..|conds| - 1];
      ConditionsMeaning(init);
      assert forall i | 0 <= i < |init| :: init[i] == conds[i];
      var prev := Conditions(init);
      if prev.Ok? && |init| > 0 {
        assert prev.value[0] == '\t';
      }
    }
  }

  /** Position j holds the first unknown connective after the first condition. */
  predicate FirstUnknownAt(conds: seq<Condition>, j: int)
  {
    && 1 <= j < |conds|
    && !KnownConnective(conds[j].connective)
    && (forall i | 1 <= i < j :: KnownConnective(conds[i].connective))
  }

  /** A failing condition loop reports the first unknown connective after the first condition. */
  lemma {:induction false} ConditionsFirstUnknown(conds: seq<Condition>)
    ensures Conditions(conds).Err? ==>
      exists j :: FirstUnknownAt(conds, j) && Conditions(conds).error == UnknownConnective(conds[j].connective)
  {
    if |conds| > 0 {
      var init := conds[..|conds| - 1];
      var prev := Conditions(init);
      if prev.Err? {
        ConditionsFirstUnknown(init);
        var j :| FirstUnknownAt(init, j) && prev.error == UnknownConnective(init[j].connective);
        FirstUnknownExtends(conds, j);
      } else if |init| > 0 && !KnownConnective(conds[|conds| - 1].connective) {
        ConditionsMeaning(init);
        assert prev.value[0] == '\t';
        var j := |conds| - 1;
        assert forall i | 1 <= i < j :: conds[i] == init[i];
        assert FirstUnknownAt(conds, j);
      }
    }
  }

  /** The first unknown connective of the list without its last condition is the first of the whole list. */
  lemma FirstUnknownExtends(conds: seq<Condition>, j: int)
    requires |conds| > 0 && FirstUnknownAt(conds[..|conds| - 1], j)
    ensures FirstUnknownAt(conds, j) && conds[j] == conds[..|conds| - 1][j]
  {
    var init := conds[..|conds| - 1];
    assert forall i | 1 <= i < j :: conds[i] == init[i];
  }

  /** The first condition's connective is never read. */
  lemma {:induction false} FirstConnectiveIgnored(conds: seq<Condition>, connective: int)
    requires |conds| > 0
    ensures Conditions(conds[0 := Condition(connective, conds[0].text)]) == Conditions(conds)
  {
    var other := conds[0 := Condition(connective, conds[0].text)];
    if |conds| > 1 {
      var init := conds[..|conds| - 1];
      FirstConnectiveIgnored(init, connective);
      assert other[..|other| - 1] == init[0 := Condition(connective, init[0].text)];
    }
  }

  /** Conditions linked by the same known connective are an implode of the tabbed texts. */
  lemma {:induction false} ConditionsUniform(conds: seq<Condition>, connective: int)
    requires KnownConnective(connective)
    requires forall i | 1 <= i < |conds| :: conds[i].connective == connective
    ensures Conditions(conds) == Ok(Join(Tabbed(Texts(conds)), Separator(connective).value))
  {
    ConditionsMeaning(conds);
    LinkedUniform(conds, connective);
  }

  lemma {:induction false} LinkedUniform(conds: seq<Condition>, connective: int)
    requires KnownConnective(connective)
    requires forall i | 1 <= i < |conds| :: conds[i].connective == connective
    ensures Linked(conds) == Join(Tabbed(Texts(conds)), Separator(connective).value)
  {
    if |conds| > 1 {
      LinkedUniform(conds[..|conds| - 1], connective);
      LinkedUniformStep(conds, connective);
    }
  }

  /** The inductive step of LinkedUniform: one more condition at the end. */
  lemma LinkedUniformStep(conds: seq<Condition>, connective: int)
    requires KnownConnective(connective) && |conds| > 1
    requires forall i | 1 <= i < |conds| :: conds[i].connective == connective
    requires var init := conds[..|conds| - 1];
      Linked(init) == Join(Tabbed(Texts(init)), Separator(connective).value)
    ensures Linked(conds) == Join(Tabbed(Texts(conds)), Separator(connective).value)
  {
    var init := conds[..|conds| - 1];
    var sep := Separator(connective).value;
    var items := Tabbed(Texts(conds));
    var last := conds[|conds| - 1].text;
    assert items[..|conds| - 1] == Tabbed(Texts(init));
    assert items[|conds| - 1] == "\t" + last;
    assert Linked(conds) == Linked(init) + sep + "\t" + last;
    assert Join(items, sep) == Join(Tabbed(Texts(init)), sep) + sep + ("\t" + last);
  }

  /** The condition texts in order. */
  function Texts(conds: seq<Condition>): (r: seq<string>)
    ensures |r| == |conds|
    ensures forall i | 0 <= i < |conds| :: r[i] == conds[i].text
  {
    seq(|conds|, i requires 0 <= i < |conds| => conds[i].text)
  }

  /** The condition loop of the serialisers. */
  method ConditionsLoop(conds: seq<Condition>) returns (r: Result<string, string>)
    ensures r == Conditions(conds)
  {
    var acc := "";
    var i := 0;
    while i < |conds|
      invariant 0 <= i <= |conds|
      invariant Conditions(conds[..i]) == Ok(acc)
    {
      ConditionsStep(conds, i, acc);
      if !Empty(acc) {
        var sep := Separator(conds[i].connective);
        if sep.None? {
          r := Err(UnknownConnective(conds[i].connective));
          ConditionsPrefixErr(conds, i + 1);
          return;
        }
        acc := acc + sep.value;
      }
      acc := acc + "\t" + conds[i].text;
      i := i + 1;
    }
    assert conds[..i] == conds;
    r := Ok(acc);
  }

  /** One more condition on a prefix that rendered to `acc`. */
  lemma ConditionsStep(conds: seq<Condition>, i: nat, acc: string)
    requires i < |conds| && Conditions(conds[..i]) == Ok(acc)
    ensures var c := conds[i];
      Conditions(conds[..i + 1]) ==
        if Empty(acc) then Ok(acc + "\t" + c.text)
        else if Separator(c.connective).None? then Err(UnknownConnective(c.connective))
        else Ok(acc + Separator(c.connective).value + "\t" + c.text)
  {
    assert conds[..i + 1][..i] == conds[..i];
  }

  /** Once a prefix of the list fails, the whole list fails with the same error. */
  lemma {:induction false} ConditionsPrefixErr(conds: seq<Condition>, k: nat)
    requires k <= |conds| && Conditions(conds[..k]).Err?
    ensures Conditions(conds) == Conditions(conds[..k])
    decreases |conds| - k
  {
    if k < |conds| {
      assert conds[..k + 1][..k] == conds[..k];
      ConditionsPrefixErr(conds, k + 1);
    } else {
      assert conds[..k] == conds;
    }
  }
}
