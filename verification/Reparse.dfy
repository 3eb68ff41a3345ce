/** The round trip as it runs: a value is printed by the buffer machine, and its text is parsed into the heap. */
module Reparse {
  import opened Base
  import opened Values
  import opened Renderer
  import opened Memory
  import opened Printer
  import P = Parser
  import R = RoundTrip
  import H = HeapParser

  /**
   `cJSON_Print` and then `cJSON_ParseWithOpts`, under any pattern of refused requests on
   either side. Unless one is refused, the tree comes back exactly when its containers nest
   within the limit; it consists of new blocks only, and a failure leaves the heap as it was.
   */
  method PrintAndParse(v: Value, format: bool, hooks: Hooks, mem: Allocator)
    returns (printed: array?<byte>, root: Ptr, ghost sh: Shape, ghost w: Value)
    requires Plain(v)
    modifies hooks, mem
    ensures Printable(v)
    ensures printed == null ==> hooks.live == old(hooks.live) && mem.cells == old(mem.cells) && root == NULL
    ensures printed == null ==> hooks.Refusals() > old(hooks.Refusals()) || |Render(v, 0, format)| + 2 > INT_MAX
    ensures printed != null ==> hooks.live == old(hooks.live) + {printed}
    ensures printed != null && Nesting(v) > P.NESTING_LIMIT ==> root == NULL
    ensures root != NULL ==> w == v && H.Parsed(old(mem.cells), mem.cells, sh, root, v)
    ensures root == NULL ==> mem.cells == old(mem.cells)
    ensures printed != null && root == NULL ==> mem.Refusals() > old(mem.Refusals()) || Nesting(v) > P.NESTING_LIMIT
  {
    hide Render, Plain, P.ParseDocument;
    R.PrintThenParse(v, format);
    root, sh, w := NULL, Empty, Null;
    printed := Print(v, format, hooks);
    if printed != null {
      var end;
      root, end, sh, w := H.ParseWithOpts(printed[..], true, mem);
    }
  }
}
