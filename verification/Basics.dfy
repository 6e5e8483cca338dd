/** Types and text predicates that several models share. */
module Basics {

  datatype Option<+T> = None | Some(value: T)

  /** A half-open range of positions. */
  datatype Span = Span(start: nat, end: nat)

  /** The characters Python counts as white space. */
  predicate IsSpace(c: char)
  {
    var n := c as int;
    || 0x09 <= n <= 0x0D || 0x1C <= n <= 0x20 || n == 0x85 || n == 0xA0 || n == 0x1680
    || 0x2000 <= n <= 0x200A || n == 0x2028 || n == 0x2029 || n == 0x202F || n == 0x205F || n == 0x3000
  }

  predicate Blank(text: string)
  {
    forall c | c in text :: IsSpace(c)
  }

  /** Past the spaces and tabs at a position. */
  function AfterGap(text: string, i: nat): (r: nat)
    requires i <= |text|
    ensures i <= r <= |text|
    decreases |text| - i
  {
    if i < |text| && (text[i] == ' ' || text[i] == '\t') then AfterGap(text, i + 1) else i
  }

  /** Strictly inside some span. */
  predicate Inside(spans: seq<Span>, position: nat)
  {
    exists x | x in spans :: x.start < position < x.end
  }

  /** Inside some span, or at its start. */
  predicate Covered(spans: seq<Span>, position: nat)
  {
    exists x | x in spans :: x.start <= position < x.end
  }

  predicate Within(spans: seq<Span>, length: nat)
  {
    forall x | x in spans :: x.start <= x.end <= length
  }
}
