/** A single cell: one of three content kinds (Empty, Text, Formula), the
    formula kind carrying a lazily filled cache of its last value. The content
    datatype and its functions are the three implementation classes of the
    cell header; the class Cell is the object whose content is replaced by Set
    and Clear and whose cache is filled by GetValue and emptied by ResetValue. */
module Cells {
  import opened Common
  import opened Formulas

  datatype Content =
    | Empty
    | Text(text: string)
    | FormulaCell(formula: Formula, cache: Option<Value>)

  /** What a cell can hold: a stored text is never empty (classification reads
      its first character) and a formula's cache never holds a string. */
  predicate WellFormed(c: Content) {
    && (c.Text? ==> |c.text| > 0)
    && (c.FormulaCell? && c.cache.Some? ==> !c.cache.value.Str?)
  }

  /** The displayed value of a text: one leading escape mark is dropped. */
  function DisplayText(t: string): (v: string)
    requires |t| > 0
    ensures t == (if t[0] == '\'' then "'" else "") + v
    ensures |v| == |t| - (if t[0] == '\'' then 1 else 0)
  {
    if t[0] == '\'' then t[1..] else t
  }

  /** The text of a cell: empty, the stored text verbatim, or '=' followed by
      the formula's canonical expression. */
  function TextOf(c: Content): (t: string)
    ensures c.Text? ==> t == c.text
    ensures c.FormulaCell? ==> |t| > 0 && t[0] == '=' && t[1..] == c.formula.expression
    ensures c.Empty? ==> t == ""
  {
    match c
    case Empty => ""
    case Text(s) => s
    case FormulaCell(f, _) => "=" + f.expression
  }

  /** The positions a cell reads: only a formula reads any. */
  function ReferencedCells(c: Content): (refs: seq<Position>)
    ensures !c.FormulaCell? ==> refs == []
    ensures c.FormulaCell? ==> refs == c.formula.cells
  {
    if c.FormulaCell? then c.formula.cells else []
  }

  /** Drops a formula's cache; the other kinds have nothing to drop. */
  function Reset(c: Content): (r: Content)
    ensures TextOf(r) == TextOf(c)
    ensures ReferencedCells(r) == ReferencedCells(c)
    ensures r.Empty? == c.Empty? && r.Text? == c.Text? && r.FormulaCell? == c.FormulaCell?
    ensures r.FormulaCell? ==> r.formula == c.formula && r.cache.None?
    ensures !c.FormulaCell? ==> r == c
    ensures WellFormed(c) ==> WellFormed(r)
  {
    match c
    case FormulaCell(f, _) => FormulaCell(f, None)
    case _ => c
  }

  /** GetValue of a content: the value it shows and the content afterwards. An
      Empty cell shows the empty string, a text its displayed text, a formula its
      cache when present, and otherwise the evaluation result, which is then
      stored. */
  function GetValueOf(c: Content, evaluate: Evaluator): (r: (Value, Content))
    requires WellFormed(c)
    ensures WellFormed(r.1)
    ensures TextOf(r.1) == TextOf(c) && ReferencedCells(r.1) == ReferencedCells(c)
    ensures !c.FormulaCell? ==> r.1 == c && r.0.Str?
    ensures c.Empty? ==> r.0 == Str("")
    ensures c.Text? ==> r.0 == Str(DisplayText(c.text))
    ensures c.FormulaCell? ==> !r.0.Str? && r.1 == FormulaCell(c.formula, Some(r.0))
    ensures c.FormulaCell? && c.cache.Some? ==> r.0 == c.cache.value
    ensures c.FormulaCell? && c.cache.None? ==> r.0 == CacheOf(evaluate(c.formula))
  {
    match c
    case Empty => (Str(""), c)
    case Text(t) => (Str(DisplayText(t)), c)
    case FormulaCell(f, cache) =>
      if cache.Some? then (cache.value, c)
      else
        var v := CacheOf(evaluate(f));
        (v, FormulaCell(f, Some(v)))
  }

  /** Classification of the text given to Set: a formula when it starts with
      '=' and has more after it (the parser may refuse the rest), otherwise a
      text stored verbatim. */
  function Classify(text: string, parse: Parser): (r: Result<Content>)
    requires |text| > 0
    ensures r.Failure? <==> text[0] == '=' && |text| > 1 && parse(text[1..]).None?
    ensures r.Failure? ==> r.error == FormulaSyntax
    ensures r.Success? ==> WellFormed(r.value) && !r.value.Empty?
    ensures r.Success? ==> (r.value.FormulaCell? <==> text[0] == '=' && |text| > 1)
    ensures r.Success? && r.value.Text? ==> TextOf(r.value) == text
    ensures r.Success? && r.value.FormulaCell? ==>
      r.value.cache.None? && r.value.formula == parse(text[1..]).value
  {
    if text[0] == '=' && |text| > 1 then
      match parse(text[1..])
      case None => Failure(FormulaSyntax)
      case Some(f) => Success(FormulaCell(f, None))
    else
      Success(Text(text))
  }

  /** Once GetValue has filled the cache, it answers from the cache: a second
      call returns the same value and leaves the content as it is, whatever the
      evaluator would now say. */
  lemma CacheIsStable(c: Content, first: Evaluator, later: Evaluator)
    requires WellFormed(c)
    ensures GetValueOf(GetValueOf(c, first).1, later) == GetValueOf(c, first)
  {
  }

  /** After ResetValue, the next GetValue of a formula evaluates it again. */
  lemma ResetForcesReevaluation(c: Content, evaluate: Evaluator)
    requires WellFormed(c) && c.FormulaCell?
    ensures GetValueOf(Reset(c), evaluate).0 == CacheOf(evaluate(c.formula))
  {
  }

  /** ResetValue is idempotent. */
  lemma ResetIsIdempotent(c: Content)
    ensures Reset(Reset(c)) == Reset(c)
  {
  }

  /** What Set stores is rendered back by GetText: the text itself for a text
      cell, '=' and the canonical expression of the parsed formula otherwise;
      either way the text starts with the same character. */
  lemma SetThenGetText(text: string, parse: Parser)
    requires |text| > 0 && Classify(text, parse).Success?
    ensures var t := TextOf(Classify(text, parse).value);
      |t| > 0 && t[0] == text[0] &&
      (t == text || t == "=" + parse(text[1..]).value.expression)
  {
  }

  class Cell {
    var impl: Content

    ghost predicate Valid()
      reads this
    {
      WellFormed(impl)
    }

    /** A new cell is Empty. */
    constructor ()
      ensures Valid() && impl == Empty
    {
      impl := Empty;
    }

    /** Replaces the content by the classification of text. When the parser
        refuses the formula, nothing is assigned and the failure is returned. */
    method Set(text: string, parse: Parser) returns (r: Outcome)
      requires |text| > 0
      modifies this
      ensures Classify(text, parse).Failure? ==> r == Fail(FormulaSyntax) && impl == old(impl)
      ensures Classify(text, parse).Success? ==> r == Pass && impl == Classify(text, parse).value
      ensures r.Pass? ==> Valid()
    {
      if text[0] == '=' && |text| > 1 {
        var parsed := parse(text[1..]);
        if parsed.None? {
          return Fail(FormulaSyntax);
        }
        impl := FormulaCell(parsed.value, None);
      } else {
        impl := Text(text);
      }
      r := Pass;
    }

    method Clear()
      modifies this
      ensures Valid() && impl == Empty
    {
      impl := Empty;
    }

    /** Empties a formula's cache; no-op for the other kinds. */
    method ResetValue()
      requires Valid()
      modifies this
      ensures Valid() && impl == Reset(old(impl))
    {
      if impl.FormulaCell? {
        impl := FormulaCell(impl.formula, None);
      }
    }

    /** The value of the cell. A formula without a cache is evaluated and the
        result (a number or an evaluation error) stored; evaluation errors come
        back as values, never as failures. */
    method GetValue(evaluate: Evaluator) returns (v: Value)
      requires Valid()
      modifies this
      ensures Valid()
      ensures (v, impl) == GetValueOf(old(impl), evaluate)
    {
      match impl
      case Empty =>
        v := Str("");
      case Text(t) =>
        v := Str(DisplayText(t));
      case FormulaCell(f, cache) =>
        if cache.None? {
          var buf := evaluate(f);
          impl := FormulaCell(f, Some(CacheOf(buf)));
        }
        v := impl.cache.value;
    }

    function GetText(): (t: string)
      reads this
      ensures t == TextOf(impl)
    {
      TextOf(impl)
    }

    function GetReferencedCells(): (refs: seq<Position>)
      reads this
      ensures refs == ReferencedCells(impl)
    {
      ReferencedCells(impl)
    }

    /** A cell is referenced exactly when it reads at least one position. */
    function IsReferenced(): (b: bool)
      reads this
      ensures b <==> impl.FormulaCell? && |impl.formula.cells| > 0
    {
      |GetReferencedCells()| > 0
    }
  }
}
