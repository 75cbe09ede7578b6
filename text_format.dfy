/** The text form of a cdb: one line `+klen,dlen:key->data` per record, the
    lengths in decimal, followed by an empty line. `make` reads it one byte at
    a time and stops at the first error; `dump` writes it. This module states
    what the reader accepts, what the writer produces, and that the reader
    gives back what the writer wrote. */
module TextFormat {
  import opened Bytes
  import opened CdbFormat
  import opened Seqs

  const NEWLINE: int := 10
  const PLUS: int := 43
  const COMMA: int := 44
  const MINUS: int := 45
  const ZERO: int := 48
  const NINE: int := 57
  const COLON: int := 58
  const GREATER: int := 62

  /** The largest length to which another digit may still be appended. */
  const LENGTH_GUARD: int := 429496720

  /** Why `make` rejects its input: "not in correct format", "key length is
      too big", "data length is too big", "input file is truncated", or a
      length that came out negative (`new byte[n]` with `n < 0`). */
  datatype ParseError = Format | KeyTooBig | DataTooBig | Truncated | NegativeSize

  /** `in.read()` on a stream over `s` positioned at `i`: the byte as a value
      in `0 .. 255`, or `-1` once the stream is exhausted. */
  function Read(s: seq<Byte>, i: int): (ch: int)
    requires 0 <= i
    ensures -1 <= ch < 256
    ensures ch == -1 <==> i >= |s|
  {
    if i < |s| then Value(s[i]) else -1
  }

  predicate IsDigit(ch: int)
  {
    ZERO <= ch <= NINE
  }

  /** A decimal length, or why it could not be read. */
  datatype Length = Length(n: Int32, next: nat) | LengthFailed(error: ParseError)

  /** Reading a length whose digits so far make `n`, up to the separator `sep`
      (`,` after the key length, `:` after the data length). A byte that is
      neither is a format error; a digit that comes when `n` is above the
      guard is `tooBig`; otherwise `n` becomes `n * 10 + digit` in Java `int`
      arithmetic. */
  function ReadLength(s: seq<Byte>, i: nat, n: Int32, sep: int, tooBig: ParseError): (r: Length)
    requires 0 <= sep
    ensures r.Length? ==> i < r.next <= |s|
    decreases |s| - i
  {
    var ch := Read(s, i);
    if ch == sep then Length(n, i + 1)
    else if !IsDigit(ch) then LengthFailed(Format)
    else if n > LENGTH_GUARD then LengthFailed(tooBig)
    else ReadLength(s, i + 1, Wrap32(n * 10 + (ch - ZERO)), sep, tooBig)
  }

  /** The outcome of reading one line: the end of the input (end of stream or
      an empty line where a record would start), an error, or a record whose
      bytes end just before `next`, where its newline is expected. */
  datatype Line = End | Failed(error: ParseError) | Record(element: Element, next: nat)

  /** One line of `make`'s loop, up to and including the data bytes. */
  function ReadLine(s: seq<Byte>, i: nat): (r: Line)
    ensures r.Record? ==> i < r.next <= |s|
    ensures r.Record? ==> |r.element.key| <= INT_MAX && |r.element.data| <= INT_MAX
  {
    var ch := Read(s, i);
    if ch == -1 || ch == NEWLINE then End
    else if ch != PLUS then Failed(Format)
    else
      match ReadLength(s, i + 1, 0, COMMA, KeyTooBig)
      case LengthFailed(e) => Failed(e)
      case Length(klen, j) =>
        match ReadLength(s, j, 0, COLON, DataTooBig)
        case LengthFailed(e) => Failed(e)
        case Length(dlen, k) =>
          if klen < 0 then Failed(NegativeSize)
          else if k + klen > |s| then Failed(Truncated)
          else if Read(s, k + klen) != MINUS || Read(s, k + klen + 1) != GREATER then Failed(Format)
          else if dlen < 0 then Failed(NegativeSize)
          else if k + klen + 2 + dlen > |s| then Failed(Truncated)
          else Record(Element(s[k..k + klen], s[k + klen + 2..k + klen + 2 + dlen]), k + klen + 2 + dlen)
  }

  /** The records of the input in order, and the error that stopped the
      reading, if any. A record whose newline is missing is still among the
      records: `make` adds it before it looks for the newline. */
  datatype Ingested = Ingested(records: seq<Element>, error: Option<ParseError>)

  function ReadRecords(s: seq<Byte>, i: nat): (r: Ingested)
    decreases |s| - i
  {
    match ReadLine(s, i)
    case End => Ingested([], None)
    case Failed(e) => Ingested([], Some(e))
    case Record(e, j) =>
      if Read(s, j) != NEWLINE then Ingested([e], Some(Format))
      else
        var rest := ReadRecords(s, j + 1);
        Ingested([e] + rest.records, rest.error)
  }

  /** The decimal digits of `n`, most significant first, as `"" + n` writes them. */
  function Decimal(n: nat): (r: seq<Byte>)
    ensures |r| > 0
  {
    if n < 10 then [ByteOf(ZERO + n)] else Decimal(n / 10) + [ByteOf(ZERO + n % 10)]
  }

  /** The line `dump` writes for an element. */
  function LineText(e: Element): (r: seq<Byte>)
  {
    LineOf(e, Decimal(|e.key|), Decimal(|e.data|))
  }

  /** A line with the lengths written as `kd` and `dd`. */
  function LineOf(e: Element, kd: seq<Byte>, dd: seq<Byte>): (r: seq<Byte>)
    ensures |r| == |kd| + |dd| + |e.key| + |e.data| + 6
  {
    [ByteOf(PLUS)] + (kd + ([ByteOf(COMMA)] + (dd + ([ByteOf(COLON)]
      + BodyOf(e)))))
  }

  /** The lines of the elements, in order. */
  function LinesText(es: seq<Element>): (r: seq<Byte>)
  {
    if es == [] then [] else LineText(es[0]) + LinesText(es[1..])
  }

  /** Everything `dump` writes: the lines, then one more newline. */
  function DumpText(es: seq<Element>): (r: seq<Byte>)
  {
    LinesText(es) + [ByteOf(NEWLINE)]
  }

  /** The value of a run of digits read after the digits that made `acc`. */
  function DigitsValue(acc: int, ds: seq<Byte>): int
    decreases |ds|
  {
    if ds == [] then acc else DigitsValue(acc * 10 + (Value(ds[0]) - ZERO), ds[1..])
  }

  predicate AllDigits(ds: seq<Byte>)
  {
    forall k :: 0 <= k < |ds| ==> IsDigit(Value(ds[k]))
  }

  lemma {:induction false} DigitsValueAtLeast(acc: int, ds: seq<Byte>)
    requires 0 <= acc && AllDigits(ds)
    ensures acc <= DigitsValue(acc, ds)
    ensures ds != [] ==> acc * 10 <= DigitsValue(acc, ds)
    decreases |ds|
  {
    if ds != [] {
      assert IsDigit(Value(ds[0]));
      DigitsValueAtLeast(acc * 10 + (Value(ds[0]) - ZERO), ds[1..]);
    }
  }

  lemma {:induction false} DigitsValueSnoc(acc: int, ds: seq<Byte>, d: Byte)
    ensures DigitsValue(acc, ds + [d]) == DigitsValue(acc, ds) * 10 + (Value(d) - ZERO)
    decreases |ds|
  {
    if ds != [] {
      assert (ds + [d])[1..] == ds[1..] + [d];
      DigitsValueSnoc(acc * 10 + (Value(ds[0]) - ZERO), ds[1..], d);
    } else {
      assert (ds + [d])[1..] == [];
    }
  }

  /** `ds` is a run of decimal digits with value `n`. */
  predicate DecimalOf(ds: seq<Byte>, n: nat)
  {
    AllDigits(ds) && DigitsValue(0, ds) == n
  }

  /** The decimal digits of `n` are digits and read back as `n`. */
  lemma {:induction false} DecimalValue(n: nat)
    ensures DecimalOf(Decimal(n), n)
  {
    if n >= 10 {
      DecimalValue(n / 10);
      DigitsValueSnoc(0, Decimal(n / 10), ByteOf(ZERO + n % 10));
    }
  }

  /** A length below `2^31` written in decimal is read back, up to its
      separator, without the guard firing and without wrapping. */
  lemma {:induction false} ReadDigits(s: seq<Byte>, i: nat, acc: Int32, ds: seq<Byte>, sep: int, tooBig: ParseError)
    requires 0 <= acc && AllDigits(ds) && 0 <= sep && !IsDigit(sep)
    requires 0 <= DigitsValue(acc, ds) <= INT_MAX
    requires i + |ds| < |s| && s[i..i + |ds|] == ds && Value(s[i + |ds|]) == sep
    ensures ReadLength(s, i, acc, sep, tooBig) == Length(DigitsValue(acc, ds), i + |ds| + 1)
    decreases |ds|
  {
    if ds == [] {
      assert Read(s, i) == sep;
    } else {
      var acc' := ReadDigit(s, i, acc, ds, sep, tooBig);
      ReadDigits(s, i + 1, acc', ds[1..], sep, tooBig);
    }
  }

  /** One digit of a length: the guard does not fire, the digit is added
      without wrapping, and the rest of the digits follow. */
  lemma ReadDigit(s: seq<Byte>, i: nat, acc: Int32, ds: seq<Byte>, sep: int, tooBig: ParseError) returns (acc': Int32)
    requires 0 <= acc && AllDigits(ds) && ds != [] && 0 <= sep && !IsDigit(sep)
    requires 0 <= DigitsValue(acc, ds) <= INT_MAX
    requires i + |ds| < |s| && s[i..i + |ds|] == ds && Value(s[i + |ds|]) == sep
    ensures 0 <= acc' && DigitsValue(acc', ds[1..]) == DigitsValue(acc, ds)
    ensures ReadLength(s, i, acc, sep, tooBig) == ReadLength(s, i + 1, acc', sep, tooBig)
    ensures i + 1 + |ds[1..]| < |s| && s[i + 1..i + 1 + |ds[1..]|] == ds[1..] && Value(s[i + 1 + |ds[1..]|]) == sep
    ensures i + 1 + |ds[1..]| + 1 == i + |ds| + 1
  {
    SliceTail(s, i, ds);
    acc' := DigitAdded(acc, ds);
    ReadLengthDigit(s, i, acc, sep, tooBig);
  }

  /** The first of a run of digits whose value is an `int`: the guard does
      not fire and the digit is added without wrapping. */
  lemma DigitAdded(acc: int, ds: seq<Byte>) returns (acc': Int32)
    requires 0 <= acc && AllDigits(ds) && ds != [] && DigitsValue(acc, ds) <= INT_MAX
    ensures IsDigit(Value(ds[0])) && acc <= LENGTH_GUARD
    ensures acc' == acc * 10 + (Value(ds[0]) - ZERO) && 0 <= acc'
    ensures DigitsValue(acc', ds[1..]) == DigitsValue(acc, ds)
  {
    assert IsDigit(Value(ds[0]));
    DigitsValueAtLeast(acc * 10 + (Value(ds[0]) - ZERO), ds[1..]);
    DigitsValueAtLeast(acc, ds);
    acc' := acc * 10 + (Value(ds[0]) - ZERO);
  }

  /** A digit below the guard is added to the length read so far. */
  lemma ReadLengthDigit(s: seq<Byte>, i: nat, n: Int32, sep: int, tooBig: ParseError)
    requires 0 <= sep && i < |s| && IsDigit(Value(s[i])) && Value(s[i]) != sep && n <= LENGTH_GUARD
    ensures ReadLength(s, i, n, sep, tooBig) == ReadLength(s, i + 1, Wrap32(n * 10 + (Value(s[i]) - ZERO)), sep, tooBig)
  {
  }

  /** A length written by `dump` and followed by its separator is read back. */
  lemma ReadDecimal(s: seq<Byte>, i: nat, n: nat, ds: seq<Byte>, sep: int, tooBig: ParseError)
    requires n <= INT_MAX && 0 <= sep && !IsDigit(sep) && DecimalOf(ds, n)
    requires i + |ds| < |s| && s[i..i + |ds|] == ds && Value(s[i + |ds|]) == sep
    ensures ReadLength(s, i, 0, sep, tooBig) == Length(n, i + |ds| + 1)
  {
    ReadDigits(s, i, 0, ds, sep, tooBig);
  }

  /** The line of `e` sits in `s` at `i`: each part of `LineText(e)` at its
      offset, `kd` and `dd` being the decimal lengths. */
  predicate PartsAt(s: seq<Byte>, i: nat, e: Element, kd: seq<Byte>, dd: seq<Byte>)
  {
    var c := i + 1 + |kd|;
    var k := c + 1 + |dd| + 1;
    var m := k + |e.key|;
    m + 2 + |e.data| < |s| && Value(s[i]) == PLUS && s[i + 1..c] == kd && Value(s[c]) == COMMA
    && s[c + 1..c + 1 + |dd|] == dd && Value(s[c + 1 + |dd|]) == COLON && s[k..m] == e.key
    && Value(s[m]) == MINUS && Value(s[m + 1]) == GREATER && s[m + 2..m + 2 + |e.data|] == e.data
    && Value(s[m + 2 + |e.data|]) == NEWLINE
  }

  /** `ReadLine` once both lengths are known and the bytes are there. */
  lemma ReadLineWith(s: seq<Byte>, i: nat, klen: Int32, j: nat, dlen: Int32, k: nat)
    requires Read(s, i) == PLUS
    requires ReadLength(s, i + 1, 0, COMMA, KeyTooBig) == Length(klen, j)
    requires ReadLength(s, j, 0, COLON, DataTooBig) == Length(dlen, k)
    requires 0 <= klen && 0 <= dlen && k + klen + 2 + dlen <= |s|
    requires Read(s, k + klen) == MINUS && Read(s, k + klen + 1) == GREATER
    ensures ReadLine(s, i) == Record(Element(s[k..k + klen], s[k + klen + 2..k + klen + 2 + dlen]), k + klen + 2 + dlen)
  {
  }

  lemma KeyLengthAt(s: seq<Byte>, i: nat, e: Element, kd: seq<Byte>, dd: seq<Byte>)
    requires |e.key| <= INT_MAX && DecimalOf(kd, |e.key|) && PartsAt(s, i, e, kd, dd)
    ensures ReadLength(s, i + 1, 0, COMMA, KeyTooBig) == Length(|e.key|, i + 1 + |kd| + 1)
  {
    ReadDecimal(s, i + 1, |e.key|, kd, COMMA, KeyTooBig);
  }

  lemma DataLengthAt(s: seq<Byte>, i: nat, e: Element, kd: seq<Byte>, dd: seq<Byte>)
    requires |e.data| <= INT_MAX && DecimalOf(dd, |e.data|) && PartsAt(s, i, e, kd, dd)
    ensures ReadLength(s, i + 1 + |kd| + 1, 0, COLON, DataTooBig) == Length(|e.data|, i + 1 + |kd| + 1 + |dd| + 1)
  {
    ReadDecimal(s, i + 1 + |kd| + 1, |e.data|, dd, COLON, DataTooBig);
  }

  /** A line `dump` wrote for an element with lengths below `2^31` is read
      back as that element, and its newline follows it. */
  lemma ReadLineAt(s: seq<Byte>, i: nat, e: Element, kd: seq<Byte>, dd: seq<Byte>, end: nat)
    requires |e.key| <= INT_MAX && |e.data| <= INT_MAX
    requires DecimalOf(kd, |e.key|) && DecimalOf(dd, |e.data|) && PartsAt(s, i, e, kd, dd)
    requires end == i + |kd| + |dd| + |e.key| + |e.data| + 6
    ensures ReadLine(s, i) == Record(e, end - 1)
    ensures Read(s, end - 1) == NEWLINE
  {
    var c := i + 1 + |kd|;
    var k := c + 1 + |dd| + 1;
    var m := k + |e.key|;
    KeyLengthAt(s, i, e, kd, dd);
    DataLengthAt(s, i, e, kd, dd);
    ReadLineWith(s, i, |e.key|, c + 1, |e.data|, k);
    assert end - 1 == m + 2 + |e.data|;
  }

  /** What follows the lengths on a line: the key, `->`, the data and the newline. */
  function BodyOf(e: Element): seq<Byte>
  {
    e.key + ([ByteOf(MINUS), ByteOf(GREATER)] + (e.data + [ByteOf(NEWLINE)]))
  }

  /** The bytes of a line, placed in `s` at `i`, put each part at its offset. */
  lemma PartsOfLine(s: seq<Byte>, i: nat, e: Element, kd: seq<Byte>, dd: seq<Byte>, end: nat)
    requires end == i + |LineOf(e, kd, dd)| && end <= |s| && s[i..end] == LineOf(e, kd, dd)
    ensures PartsAt(s, i, e, kd, dd)
  {
    HeadOfLine(s, i, e, kd, dd, end);
    BodyOfLine(s, i + 1 + |kd| + 1 + |dd| + 1, e, end);
  }

  lemma HeadOfLine(s: seq<Byte>, i: nat, e: Element, kd: seq<Byte>, dd: seq<Byte>, end: nat)
    requires end == i + |LineOf(e, kd, dd)| && end <= |s| && s[i..end] == LineOf(e, kd, dd)
    ensures Value(s[i]) == PLUS && s[i + 1..i + 1 + |kd|] == kd && Value(s[i + 1 + |kd|]) == COMMA
    ensures s[i + 1 + |kd| + 1..i + 1 + |kd| + 1 + |dd|] == dd && Value(s[i + 1 + |kd| + 1 + |dd|]) == COLON
    ensures var k := i + 1 + |kd| + 1 + |dd| + 1; end == k + |BodyOf(e)| && s[k..end] == BodyOf(e)
  {
    var x3 := dd + ([ByteOf(COLON)] + BodyOf(e));
    var x1 := kd + ([ByteOf(COMMA)] + x3);
    Led(s, i, ByteOf(PLUS), x1, end);
    Marked(s, i + 1, kd, ByteOf(COMMA), x3, end);
    Marked(s, i + 1 + |kd| + 1, dd, ByteOf(COLON), BodyOf(e), end);
  }

  lemma BodyOfLine(s: seq<Byte>, k: nat, e: Element, end: nat)
    requires end == k + |BodyOf(e)| && end <= |s| && s[k..end] == BodyOf(e)
    ensures var m := k + |e.key|;
      s[k..m] == e.key && Value(s[m]) == MINUS && Value(s[m + 1]) == GREATER
      && s[m + 2..m + 2 + |e.data|] == e.data && Value(s[m + 2 + |e.data|]) == NEWLINE
  {
    var nl := [ByteOf(NEWLINE)];
    var x7 := e.data + nl;
    var x6 := [ByteOf(MINUS), ByteOf(GREATER)] + x7;
    SplitAtIs(s, k, e.key, x6, end);
    SplitAtIs(s, k + |e.key|, [ByteOf(MINUS), ByteOf(GREATER)], x7, end);
    SplitAtIs(s, k + |e.key| + 2, e.data, nl, end);
  }

  /** A line `dump` wrote for an element with lengths below `2^31` is read
      back as that element, and its newline follows it. */
  lemma ReadLineOf(s: seq<Byte>, i: nat, e: Element, kd: seq<Byte>, dd: seq<Byte>, end: nat)
    requires |e.key| <= INT_MAX && |e.data| <= INT_MAX && DecimalOf(kd, |e.key|) && DecimalOf(dd, |e.data|)
    requires end == i + |LineOf(e, kd, dd)| && end <= |s| && s[i..end] == LineOf(e, kd, dd)
    ensures ReadLine(s, i) == Record(e, end - 1)
    ensures Read(s, end - 1) == NEWLINE
  {
    PartsOfLine(s, i, e, kd, dd, end);
    ReadLineAt(s, i, e, kd, dd, end);
  }

  /** Appending an element appends its line. */
  lemma {:induction false} LinesSnoc(es: seq<Element>, e: Element)
    ensures LinesText(es + [e]) == LinesText(es) + LineText(e)
    decreases |es|
  {
    if es != [] {
      LinesSnoc(es[1..], e);
      assert (es + [e])[1..] == es[1..] + [e];
      Assoc(LineText(es[0]), LinesText(es[1..]), LineText(e));
    } else {
      assert [e][1..] == [];
    }
  }

  /** A record followed by its newline: the records read from the next line on follow it. */
  lemma ReadRecordsStep(s: seq<Byte>, i: nat, e: Element, next: nat)
    requires 0 < next && ReadLine(s, i) == Record(e, next - 1) && Read(s, next - 1) == NEWLINE
    ensures ReadRecords(s, i) == Ingested([e] + ReadRecords(s, next).records, ReadRecords(s, next).error)
  {
  }

  /** The first of the lines of `[e] + rest` is read as `e`; the lines of
      `rest` start at `next`. */
  lemma LineStep(s: seq<Byte>, i: nat, es: seq<Element>) returns (next: nat)
    requires es != [] && |es[0].key| <= INT_MAX && |es[0].data| <= INT_MAX
    requires i + |LinesText(es)| < |s| && s[i..i + |LinesText(es)| + 1] == LinesText(es) + [ByteOf(NEWLINE)]
    ensures 0 < next && ReadLine(s, i) == Record(es[0], next - 1) && Read(s, next - 1) == NEWLINE
    ensures next + |LinesText(es[1..])| < |s| && s[next..next + |LinesText(es[1..])| + 1] == LinesText(es[1..]) + [ByteOf(NEWLINE)]
  {
    next := SplitLines(s, i, es);
    ReadLineText(s, i, es[0], next);
  }

  /** The lines of `es` in `s` at `i`: the line of `es[0]`, then those of the rest. */
  lemma SplitLines(s: seq<Byte>, i: nat, es: seq<Element>) returns (next: nat)
    requires es != []
    requires i + |LinesText(es)| < |s| && s[i..i + |LinesText(es)| + 1] == LinesText(es) + [ByteOf(NEWLINE)]
    ensures next == i + |LineText(es[0])| && next <= |s| && s[i..next] == LineText(es[0])
    ensures next + |LinesText(es[1..])| < |s| && s[next..next + |LinesText(es[1..])| + 1] == LinesText(es[1..]) + [ByteOf(NEWLINE)]
  {
    var line, rest := LineText(es[0]), LinesText(es[1..]);
    assert LinesText(es) == line + rest;
    next := i + |line|;
    SplitThree(s, i, line, rest, [ByteOf(NEWLINE)], LinesText(es),
      i + |LinesText(es)| + 1, next, next + |rest| + 1);
  }

  /** The line `dump` writes for `e`, read where it was written. */
  lemma ReadLineText(s: seq<Byte>, i: nat, e: Element, end: nat)
    requires |e.key| <= INT_MAX && |e.data| <= INT_MAX
    requires end == i + |LineText(e)| && end <= |s| && s[i..end] == LineText(e)
    ensures ReadLine(s, i) == Record(e, end - 1)
    ensures Read(s, end - 1) == NEWLINE
  {
    var kd, dd := Decimal(|e.key|), Decimal(|e.data|);
    DecimalValue(|e.key|);
    DecimalValue(|e.data|);
    ReadLineOf(s, i, e, kd, dd, end);
  }

  /** Elements `dump` can write and `make` can read back: lengths below `2^31`. */
  predicate Storable(es: seq<Element>)
  {
    forall k :: 0 <= k < |es| ==> |es[k].key| <= INT_MAX && |es[k].data| <= INT_MAX
  }

  /** Reading the lines of `es` followed by an empty line gives back `es`
      and no error. */
  lemma {:induction false} ReadLines(s: seq<Byte>, i: nat, es: seq<Element>)
    requires Storable(es)
    requires i + |LinesText(es)| < |s| && s[i..i + |LinesText(es)| + 1] == LinesText(es) + [ByteOf(NEWLINE)]
    ensures ReadRecords(s, i) == Ingested(es, None)
    decreases |es|
  {
    if es == [] {
      ReadEmptyLine(s, i);
    } else {
      var next := LinesStep(s, i, es);
      ReadLines(s, next, es[1..]);
    }
  }

  /** An empty line where a record would start ends the reading. */
  lemma ReadEmptyLine(s: seq<Byte>, i: nat)
    requires i < |s| && s[i..i + 1] == [ByteOf(NEWLINE)]
    ensures ReadRecords(s, i) == Ingested([], None)
  {
    assert s[i] == s[i..i + 1][0];
  }

  /** The first line of the lines of `es` is read as `es[0]`: once the lines
      after it read back as `es[1..]`, all of them read back as `es`. */
  lemma LinesStep(s: seq<Byte>, i: nat, es: seq<Element>) returns (next: nat)
    requires es != [] && Storable(es)
    requires i + |LinesText(es)| < |s| && s[i..i + |LinesText(es)| + 1] == LinesText(es) + [ByteOf(NEWLINE)]
    ensures i < next && Storable(es[1..])
    ensures next + |LinesText(es[1..])| < |s| && s[next..next + |LinesText(es[1..])| + 1] == LinesText(es[1..]) + [ByteOf(NEWLINE)]
    ensures ReadRecords(s, next) == Ingested(es[1..], None) ==> ReadRecords(s, i) == Ingested(es, None)
  {
    StorableHead(es);
    next := LineStep(s, i, es);
    ReadRecordsStep(s, i, es[0], next);
    ConsIngested(ReadRecords(s, i), ReadRecords(s, next), es);
  }

  lemma StorableHead(es: seq<Element>)
    requires es != [] && Storable(es)
    ensures |es[0].key| <= INT_MAX && |es[0].data| <= INT_MAX && Storable(es[1..])
  {
    assert forall k :: 0 <= k < |es[1..]| ==> es[1..][k] == es[k + 1];
  }

  /** What is read from a record followed by the records `es[1..]` is `es`. */
  lemma ConsIngested(whole: Ingested, rest: Ingested, es: seq<Element>)
    requires es != [] && whole == Ingested([es[0]] + rest.records, rest.error)
    ensures rest == Ingested(es[1..], None) ==> whole == Ingested(es, None)
  {
    if rest == Ingested(es[1..], None) {
      assert [es[0]] + es[1..] == es;
    }
  }

  /** `make` reads back exactly what `dump` wrote. */
  lemma ReadDump(es: seq<Element>)
    requires Storable(es)
    ensures ReadRecords(DumpText(es), 0) == Ingested(es, None)
  {
    ReadLines(DumpText(es), 0, es);
  }
}
