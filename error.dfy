/**
 * The error taxonomy of the geometry kernel and the text each error
 * displays, plus the `Option` and `Result` shapes every fallible operation
 * returns.
 */
module Errors {

  datatype Option<+T> = None | Some(value: T)

  datatype GeometryError =
    | InvalidConstruction(msg: string)
    | DegenerateCase(msg: string)
    | NoIntersection(msg: string)
    | InvalidParameter(msg: string)
    | DivisionByZero(msg: string)

  datatype Result<+T> = Ok(value: T) | Err(error: GeometryError)

  /** The fixed text that, followed by the message, displays an error of this kind. */
  function Prefix(e: GeometryError): string
  {
    match e
    case InvalidConstruction(_) => "Invalid geometric construction: "
    case DegenerateCase(_) => "Degenerate geometry: "
    case NoIntersection(_) => "No intersection found: "
    case InvalidParameter(_) => "Invalid parameter: "
    case DivisionByZero(_) => "Division by zero: "
  }

  /** The `Display` text of an error. */
  function Display(e: GeometryError): (s: string)
    ensures |s| == |Prefix(e)| + |e.msg|
    ensures s[..|Prefix(e)|] == Prefix(e) && s[|Prefix(e)|..] == e.msg
  {
    match e
    case InvalidConstruction(msg) => "Invalid geometric construction: " + msg
    case DegenerateCase(msg) => "Degenerate geometry: " + msg
    case NoIntersection(msg) => "No intersection found: " + msg
    case InvalidParameter(msg) => "Invalid parameter: " + msg
    case DivisionByZero(msg) => "Division by zero: " + msg
  }

  /** Two kinds of error are the same kind. */
  predicate SameKind(e1: GeometryError, e2: GeometryError)
  {
    (e1.InvalidConstruction? && e2.InvalidConstruction?)
    || (e1.DegenerateCase? && e2.DegenerateCase?)
    || (e1.NoIntersection? && e2.NoIntersection?)
    || (e1.InvalidParameter? && e2.InvalidParameter?)
    || (e1.DivisionByZero? && e2.DivisionByZero?)
  }

  /**
   * The prefixes of two different kinds differ within the shorter one, so
   * neither prefix starts the other.
   */
  lemma PrefixesDistinguish(e1: GeometryError, e2: GeometryError)
    requires !SameKind(e1, e2)
    ensures exists k :: 0 <= k < |Prefix(e1)| && k < |Prefix(e2)| && Prefix(e1)[k] != Prefix(e2)[k]
  {
    var p1, p2 := Prefix(e1), Prefix(e2);
    // "Invalid geometric construction: " and "Invalid parameter: " first differ at index 8.
    var k := if p1[0] == p2[0] then (if p1[1] == p2[1] then 8 else 1) else 0;
    assert p1[k] != p2[k];
  }

  /** The displayed text determines the error: kind and message are recovered from it. */
  lemma DisplayInjective(e1: GeometryError, e2: GeometryError)
    requires Display(e1) == Display(e2)
    ensures e1 == e2
  {
    if !SameKind(e1, e2) {
      PrefixesDistinguish(e1, e2);
    }
    assert Prefix(e1) == Prefix(e2);
    assert e1.msg == Display(e1)[|Prefix(e1)|..] == e2.msg;
  }

  lemma DisplayExamples()
    ensures Display(InvalidConstruction("r")) == "Invalid geometric construction: r"
    ensures Display(DegenerateCase("r")) == "Degenerate geometry: r"
    ensures Display(NoIntersection("r")) == "No intersection found: r"
    ensures Display(InvalidParameter("r")) == "Invalid parameter: r"
    ensures Display(DivisionByZero("r")) == "Division by zero: r"
  {
  }
}
