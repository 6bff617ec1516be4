/** cJSON's printer and parser as they run, one after the other. */
module CJsonCodec {
  import opened Bytes
  import opened Options
  import opened Sizes
  import opened CJsonNumber
  import opened CJsonTree
  import CJsonAccept
  import CJsonRoundTrip
  import CJsonPrinter
  import CJsonParser

  /**
   * Prints any tree through the growable buffer and parses the text with the offset-driven parser. The text
   * exists unless it would not fit in INT_MAX bytes with its terminator, a number is too long for its buffer or
   * memory is refused. It parses exactly when the tree is nested at most 1000 deep, and then gives the tree that
   * `Reread` says.
   */
  method PrintAndParse(fp: Floating, v: Json, spaced: bool, alloc: nat -> bool)
    returns (text: Option<seq<Byte>>, item: Option<Json>)
    requires Lawful(fp)
    ensures text.None? ==>
      var style := CjsonStyle(fp, spaced);
      !CJsonPrinter.Short(style, v) || |Printed(v, style, 0)| + 2 > INT_MAX || CJsonPrinter.Denied(alloc)
    ensures text.Some? ==>
      var back := CJsonRoundTrip.CjsonBack(fp);
      item == if CJsonAccept.Nesting(v) <= NESTING_LIMIT then Some(CJsonRoundTrip.Reread(back, v)) else None
  {
    text := CJsonPrinter.Print(fp, v, spaced, alloc);
    if text == None {
      return text, None;
    }
    item := CJsonParser.ParseText(text.value, fp.strtod);
    CJsonRoundTrip.RoundTrip(fp, v, spaced);
  }
}
