/** `Dump.dump`: one text line per element of the enumeration, in the order
    the enumeration gives them, then one more newline. The output stream is
    the sequence of bytes written to it. */
module Dump {
  import opened Bytes
  import opened CdbFormat
  import opened TextFormat
  import opened StreamEnumeration

  /** What `dump` writes for the elements `es`: their lines, and the final
      newline only when the enumeration ran to its end. */
  function DumpOf(es: seq<Element>, complete: bool): (r: (seq<Byte>, bool))
    ensures complete ==> r.0 == DumpText(es)
    ensures !complete ==> r.0 == LinesText(es)
    ensures r.1 == complete
  {
    (LinesText(es) + (if complete then [ByteOf(NEWLINE)] else []), complete)
  }

  /** One more line written after those of `done`. */
  lemma {:induction false} LinesAppend(done: seq<Element>, e: Element, rest: seq<Element>)
    ensures done + ([e] + rest) == (done + [e]) + rest
    ensures LinesText(done + [e]) == LinesText(done) + LineText(e)
  {
    LinesSnoc(done, e);
  }

  /** `dump(e, out)`: writes the line of each element the enumeration
      delivers, then a newline; an exception from `nextElement` ends it with
      `completed` false and the lines written so far. */
  method Dump(e: CdbElementEnumeration) returns (out: seq<Byte>, completed: bool)
    requires e.Valid()
    modifies e
    ensures e.Valid()
    ensures (out, completed) == DumpOf(ElementsFrom(e.input, old(e.at), old(e.pos), e.eod).0, ElementsFrom(e.input, old(e.at), old(e.pos), e.eod).1)
  {
    ghost var all := ElementsFrom(e.input, e.at, e.pos, e.eod);
    ghost var done: seq<Element> := [];
    out := [];
    var more := e.HasMoreElements();
    while more
      invariant e.Valid() && more == (e.pos < e.eod)
      invariant all.0 == done + ElementsFrom(e.input, e.at, e.pos, e.eod).0
      invariant all.1 == ElementsFrom(e.input, e.at, e.pos, e.eod).1
      invariant out == LinesText(done)
      decreases |e.input| - e.at
    {
      ghost var at0, pos0 := e.at, e.pos;
      var r := e.NextElement();
      if !r.Delivered? {
        ElementsThrow(e.input, at0, pos0, e.eod);
        assert done + [] == done;
        assert all == (done, false);
        return out, false;
      }
      ElementsNext(e.input, at0, pos0, e.eod, r.e, e.at, e.pos);
      DeliveredMoves(e.input, at0, pos0);
      LinesAppend(done, r.e, ElementsFrom(e.input, e.at, e.pos, e.eod).0);
      done := done + [r.e];
      out := out + LineText(r.e);
      more := e.HasMoreElements();
    }
    ElementsEnd(e.input, e.at, e.pos, e.eod);
    assert done + [] == done;
    assert all == (done, true);
    out := out + [ByteOf(NEWLINE)];
    completed := true;
  }
}
