/**
 * DatabaseConnective: an AND/OR node of a WHERE tree. Its expressions are
 * plain condition strings or nested connectives; rendering joins them with
 * the node's connective word, wrapping nested connectives in parentheses.
 *
 * The concrete words come from the DatabaseConjunction and
 * DatabaseDisjunction subclasses, which are not part of this model, so they
 * are a parameter.
 */
module DatabaseConnectives {
  import opened Php
  import opened SqlText

  datatype Kind = Conjunction | Disjunction

  /** The words `getConnective` returns for each kind. */
  datatype Words = Words(conjunction: string, disjunction: string)

  function Word(words: Words, kind: Kind): string
  {
    match kind
    case Conjunction => words.conjunction
    case Disjunction => words.disjunction
  }

  /** An expression: a plain condition, or a connective with its own expressions. */
  datatype Expr = Plain(text: string) | Nested(kind: Kind, items: seq<Expr>)

  /** How one expression appears in its parent's text. */
  function Piece(e: Expr, words: Words): string
    decreases e
  {
    match e
    case Plain(t) => t
    case Nested(k, items) => "(" + Rendered(k, items, words) + ")"
  }

  /**
   * `__toString` of a connective of the given kind holding `items`: the
   * accumulator loop, which puts " word " in front of a piece only when the
   * text so far is neither "" nor "0".
   */
  function Rendered(kind: Kind, items: seq<Expr>, words: Words): string
    decreases items
  {
    if |items| == 0 then ""
    else
      var acc := Rendered(kind, items[..|items| - 1], words);
      acc + (if !Empty(acc) then " " + Word(words, kind) + " " else "") + Piece(items[|items| - 1], words)
  }

  /** The pieces of a list of expressions, in order. */
  function Pieces(items: seq<Expr>, words: Words): (r: seq<string>)
    ensures |r| == |items|
    ensures forall i | 0 <= i < |items| :: r[i] == Piece(items[i], words)
  {
    seq(|items|, i requires 0 <= i < |items| => Piece(items[i], words))
  }

  /** Rendering is the shared accumulator loop applied to the pieces. */
  lemma {:induction false} RenderedGlue(kind: Kind, items: seq<Expr>, words: Words)
    ensures Rendered(kind, items, words) == Glue(Pieces(items, words), " " + Word(words, kind) + " ")
  {
    if |items| > 0 {
      var init := items[..|items| - 1];
      RenderedGlue(kind, init, words);
      assert Pieces(items, words)[..|items| - 1] == Pieces(init, words);
    }
  }

  /**
   * The rendering in terms of `implode`: no expressions give "", and when
   * the first piece is neither "" nor "0" the pieces appear in order, each
   * pair separated by " word ".
   */
  lemma TextInOrder(kind: Kind, items: seq<Expr>, words: Words)
    ensures |items| == 0 ==> Rendered(kind, items, words) == ""
    ensures |items| > 0 && !Empty(Piece(items[0], words)) ==>
      Rendered(kind, items, words) == Join(Pieces(items, words), " " + Word(words, kind) + " ")
  {
    var p := Pieces(items, words);
    RenderedGlue(kind, items, words);
    if |items| > 0 && !Empty(p[0]) {
      GlueJoin(p, " " + Word(words, kind) + " ");
    }
  }

  /** A leading "0" expression is glued to the next one with no connective word between. */
  lemma LeadingZeroGlued(kind: Kind, x: string, words: Words)
    ensures Rendered(kind, [Plain("0"), Plain(x)], words) == "0" + x
    ensures Rendered(kind, [Plain(""), Plain(x)], words) == x
  {
    var sep := " " + Word(words, kind) + " ";
    assert Pieces([Plain("0"), Plain(x)], words) == ["0", x];
    assert Pieces([Plain(""), Plain(x)], words) == ["", x];
    RenderedGlue(kind, [Plain("0"), Plain(x)], words);
    RenderedGlue(kind, [Plain(""), Plain(x)], words);
    GlueLeadingEmpty(sep, x);
  }

  /**
   * A nested connective is rendered recursively inside parentheses: after
   * a first expression that is neither "" nor "0", appending a nested node
   * adds the word and the parenthesised text of that node.
   */
  lemma NestedParenthesised(kind: Kind, items: seq<Expr>, inner: Kind, sub: seq<Expr>, words: Words)
    requires |items| > 0 && !Empty(Piece(items[0], words))
    ensures Rendered(kind, items + [Nested(inner, sub)], words)
      == Rendered(kind, items, words) + (" " + Word(words, kind) + " ") + ("(" + Rendered(inner, sub, words) + ")")
  {
    var all := items + [Nested(inner, sub)];
    assert all[..|items|] == items;
    var sep := " " + Word(words, kind) + " ";
    assert !Empty(Rendered(kind, items, words)) by {
      RenderedGlue(kind, items, words);
      GlueJoin(Pieces(items, words), sep);
    }
  }

  /** The PHP connective object; `kind` stands for its subclass. */
  class Connective {
    const kind: Kind
    var expressions: seq<Expr>

    /** The constructor stores the given expressions. */
    constructor (kind: Kind, expressions: seq<Expr>)
      ensures this.kind == kind && this.expressions == expressions
    {
      this.kind := kind;
      this.expressions := expressions;
    }

    /** This connective as an expression value. */
    function AsExpr(): Expr
      reads this
    {
      Nested(kind, expressions)
    }

    /** `addExpression`: appends at the end. */
    method AddExpression(e: Expr)
      modifies this`expressions
      ensures expressions == old(expressions) + [e]
    {
      expressions := expressions + [e];
    }

    /** `__toString`: the accumulator loop over the expressions. */
    method ToString(words: Words) returns (s: string)
      ensures s == Rendered(kind, expressions, words)
    {
      var sep := " " + Word(words, kind) + " ";
      var pieces := Pieces(expressions, words);
      s := "";
      var i := 0;
      while i < |expressions|
        invariant 0 <= i <= |expressions|
        invariant s == Glue(pieces[..i], sep)
      {
        if !Empty(s) {
          s := s + sep;
        }
        if expressions[i].Nested? {
          s := s + "(" + Rendered(expressions[i].kind, expressions[i].items, words) + ")";
        } else {
          s := s + expressions[i].text;
        }
        i := i + 1;
        assert pieces[..i][..i - 1] == pieces[..i - 1];
      }
      assert pieces[..i] == pieces;
      RenderedGlue(kind, expressions, words);
    }
  }
}
