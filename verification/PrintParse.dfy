/** The printer and the parser as they run, one after the other. */
module PrintParse {
  import opened Bytes
  import opened ContextReuse
  import opened LexerMachine
  import opened Nodes
  import opened Overflow
  import opened Parser
  import opened ParserMachine
  import opened Printer
  import opened RoundTrip

  /**
   `SerializeNodeToJSON`, then `CreateNodeFromJSON` in a context that earlier parses may have used:
   the tree comes back, recoded, if and only if both stacks have room for it, unless an empty
   string closes in a slot with leftover escapes.
   */
  method PrintThenParse(stack: array<State>, n: Node, f: Format, strtod: FloatReader)
      returns (r: Result<Node, ParseError>)
    requires IsContext(stack) && IsValue(n) && Printable(n, f.noescape) && BlankFormat(f)
    modifies stack
    ensures IsContext(stack)
    ensures if exists k: nat :: DirtyAt(Print(f, n, 0), old(Slots(stack)), strtod, k) then r == Err(Incomplete)
            else Expected(r, n, f.noescape, stack.Length)
    ensures old(Fresh(Slots(stack))) ==> Expected(r, n, f.noescape, stack.Length)
  {
    hide CreateNode, ColumnLeft, DirtyAt, Expected;
    ghost var text', column := Print(f, n, 0), Slots(stack);
    var text := SerializeNodeToJSON(n, f, []);
    assert [] + text' == text';
    ReuseExactly(text', column, strtod);
    ParsePrintExactly(n, f, Unused(stack.Length), strtod);
    if Fresh(column) { ParsePrintExactly(n, f, column, strtod); }
    r := CreateNodeFromJSON(stack, text, strtod);
  }

  /** In a new context, whose lexer has this many levels. */
  method PrintThenParseAnew(levels: nat, n: Node, f: Format, strtod: FloatReader) returns (r: Result<Node, ParseError>)
    requires levels >= 2 && IsValue(n) && Printable(n, f.noescape) && BlankFormat(f)
    ensures Expected(r, n, f.noescape, levels)
    ensures r.Ok? <==> Fits(n, levels)
  {
    DocumentLackExactly(n, levels);
    var stack := CreateContext(levels);
    r := PrintThenParse(stack, n, f, strtod);
  }
}
