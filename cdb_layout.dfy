/** The complete cdb file `finish` leaves behind: the 2048-byte header of 256
    `(position, length)` pairs, the record region, then the 256 hash tables in
    bucket order, every slot an 8-byte `(hash, position)` pair. */
module CdbLayout {
  import opened Bytes
  import opened Seqs
  import opened CdbHash
  import opened CdbFormat
  import opened ProbeTable

  /** One slot as written: the pointer's hash and position, or `(0, 0)` when free. */
  function SlotBytes(o: Option<HashPointer>): (r: seq<Byte>)
    ensures |r| == 8
  {
    match o
    case None => LeBytes(0) + LeBytes(0)
    case Some(p) => LeBytes(p.hash) + LeBytes(p.pos)
  }

  /** The slots of a table, in slot order. */
  function TableBytes(t: Table): (r: seq<Byte>)
    ensures |r| == 8 * |t|
  {
    if t == [] then [] else TableBytes(t[..|t| - 1]) + SlotBytes(t[|t| - 1])
  }

  /** One more slot of a table, written after the ones before it. */
  lemma TableBytesSnoc(t: Table, u: nat)
    requires u < |t|
    ensures TableBytes(t[..u + 1]) == TableBytes(t[..u]) + SlotBytes(t[u])
  {
    assert t[..u + 1][..u] == t[..u];
  }

  /** The tables of buckets `0 .. n - 1`, one after the other. */
  function TablesBytes(ts: seq<Table>, n: nat): seq<Byte>
    requires n <= |ts|
  {
    if n == 0 then [] else TablesBytes(ts, n - 1) + TableBytes(ts[n - 1])
  }

  /** Table `b` has the two slots per pointer of bucket `b`. */
  ghost predicate Sized(ps: seq<HashPointer>, ts: seq<Table>)
  {
    |ts| == BUCKETS && forall b :: 0 <= b < BUCKETS ==> |ts[b]| == 2 * Count(ps, b)
  }

  lemma {:induction false} TablesBytesSize(ps: seq<HashPointer>, ts: seq<Table>, n: nat)
    requires Sized(ps, ts) && n <= BUCKETS
    ensures |TablesBytes(ts, n)| == 16 * Before(ps, n)
  {
    if n > 0 {
      TablesBytesSize(ps, ts, n - 1);
    }
  }

  /** The 256 bucket tables `finish` builds. */
  function Tables(ps: seq<HashPointer>): (ts: seq<Table>)
    ensures |ts| == BUCKETS
  {
    TablesUpTo(ps, BUCKETS)
  }

  /** The tables of buckets `0 .. n - 1`. */
  function TablesUpTo(ps: seq<HashPointer>, n: nat): (ts: seq<Table>)
    ensures |ts| == n
  {
    if n == 0 then [] else TablesUpTo(ps, n - 1) + [BucketTable(ps, n - 1)]
  }

  lemma {:induction false} TablesUpToAt(ps: seq<HashPointer>, n: nat, b: nat)
    requires b < n
    ensures TablesUpTo(ps, n)[b] == BucketTable(ps, b)
  {
    if b < n - 1 {
      TablesUpToAt(ps, n - 1, b);
    }
  }

  /** Table `b` of the file is the table of bucket `b`. */
  lemma TablesAt(ps: seq<HashPointer>, b: nat)
    requires b < BUCKETS
    ensures Tables(ps)[b] == BucketTable(ps, b)
  {
    TablesUpToAt(ps, BUCKETS, b);
  }

  /** The tables `finish` builds have the sizes the header announces. */
  lemma TablesSized(ps: seq<HashPointer>)
    ensures Sized(ps, Tables(ps))
  {
    forall b | 0 <= b < BUCKETS
      ensures |Tables(ps)[b]| == 2 * Count(ps, b)
    {
      TablesAt(ps, b);
    }
  }

  /** Where the table of bucket `b` begins when the tables start at `eod`. */
  function TablePos(ps: seq<HashPointer>, eod: int, b: nat): int
    requires b <= BUCKETS
  {
    eod + 16 * Before(ps, b)
  }

  /** Where slot `j` of bucket `b`'s table is, when the tables begin at `eod`. */
  function SlotPos(ps: seq<HashPointer>, eod: int, b: nat, j: nat): int
    requires b <= BUCKETS
  {
    TablePos(ps, eod, b) + 8 * j
  }

  /** Header entry `b`: where bucket `b`'s table begins, and its number of slots. */
  function HeaderEntry(ps: seq<HashPointer>, eod: int, b: nat): (r: seq<Byte>)
    requires b < BUCKETS
    ensures |r| == 8
  {
    LeBytes(TablePos(ps, eod, b)) + LeBytes(2 * Count(ps, b))
  }

  /** The first `n` header entries. */
  function HeaderBytes(ps: seq<HashPointer>, eod: int, n: nat): (r: seq<Byte>)
    requires n <= BUCKETS
    ensures |r| == 8 * n
  {
    if n == 0 then [] else HeaderBytes(ps, eod, n - 1) + HeaderEntry(ps, eod, n - 1)
  }

  /** One more header entry: the position of the table, then its length. */
  lemma HeaderBytesSnoc(ps: seq<HashPointer>, eod: int, i: nat, pos: int, len: int)
    requires i < BUCKETS && pos == eod + 16 * Before(ps, i) && len == 2 * Count(ps, i)
    ensures HeaderBytes(ps, eod, i + 1) == HeaderBytes(ps, eod, i) + LeBytes(pos) + LeBytes(len)
  {
    assert TablePos(ps, eod, i) == pos;
    assert HeaderEntry(ps, eod, i) == LeBytes(pos) + LeBytes(len);
    Assoc(HeaderBytes(ps, eod, i), LeBytes(pos), LeBytes(len));
  }

  /** The file for a record region, the pointers collected while writing it and
      the tables built from them. */
  function LayoutWith(records: seq<Byte>, ps: seq<HashPointer>, ts: seq<Table>): seq<Byte>
    requires |ts| == BUCKETS
  {
    HeaderBytes(ps, HEADER_SIZE + |records|, BUCKETS) + records + TablesBytes(ts, BUCKETS)
  }

  /** The header written over the reserved bytes in front of the records and
      the tables gives the layout. */
  lemma HeaderOver(reserved: seq<Byte>, records: seq<Byte>, ps: seq<HashPointer>, ts: seq<Table>, header: seq<Byte>, tables: seq<Byte>)
    requires |reserved| == HEADER_SIZE && |ts| == BUCKETS
    requires header == HeaderBytes(ps, HEADER_SIZE + |records|, BUCKETS) && tables == TablesBytes(ts, BUCKETS)
    ensures header + (reserved + records + tables)[HEADER_SIZE..] == LayoutWith(records, ps, ts)
  {
    DropFirst(reserved, records, tables);
    Assoc(header, records, tables);
  }

  /** The file `finish` leaves behind for a record region and its pointers. */
  function Layout(records: seq<Byte>, ps: seq<HashPointer>): seq<Byte>
  {
    LayoutWith(records, ps, Tables(ps))
  }

  /** The file the builder makes from a sequence of records. */
  function Image(rs: seq<Element>): seq<Byte>
  {
    Layout(RecordsBytes(rs), Pointers(rs))
  }

  /** The end of the record region, which is also where the first table begins. */
  function Eod(rs: seq<Element>): int
  {
    HEADER_SIZE + RecordsSize(rs)
  }

  /** The file holds the header, every record's 8 + klen + dlen bytes, and two
      8-byte slots per record. */
  lemma ImageSize(rs: seq<Element>)
    ensures |Image(rs)| == HEADER_SIZE + RecordsSize(rs) + 16 * |rs|
  {
    var ps := Pointers(rs);
    BeforeAll(ps);
    TablesSized(ps);
    TablesBytesSize(ps, Tables(ps), BUCKETS);
  }

  lemma {:induction false} HeaderBytesAt(ps: seq<HashPointer>, eod: int, n: nat, b: nat)
    requires b < n <= BUCKETS
    ensures HeaderBytes(ps, eod, n)[8 * b..8 * b + 8] == HeaderEntry(ps, eod, b)
  {
    var prev, last := HeaderBytes(ps, eod, n - 1), HeaderEntry(ps, eod, n - 1);
    assert HeaderBytes(ps, eod, n) == prev + last;
    if b == n - 1 {
      assert last == HeaderEntry(ps, eod, b);
      SliceRightIs(prev, last, 8 * b, 8 * b + 8);
      assert (prev + last)[8 * b..8 * b + 8] == last;
    } else {
      HeaderBytesAt(ps, eod, n - 1, b);
      SliceLeftIs(prev, last, 8 * b, 8 * b + 8, HeaderEntry(ps, eod, b));
    }
  }

  lemma {:induction false} TableBytesAt(t: Table, j: nat)
    requires j < |t|
    ensures TableBytes(t)[8 * j..8 * j + 8] == SlotBytes(t[j])
  {
    var init := t[..|t| - 1];
    var prev, last := TableBytes(init), SlotBytes(t[|t| - 1]);
    assert TableBytes(t) == prev + last;
    if j < |t| - 1 {
      TableBytesAt(init, j);
      assert init[j] == t[j];
      SliceLeftIs(prev, last, 8 * j, 8 * j + 8, SlotBytes(t[j]));
    } else {
      SliceRightIs(prev, last, 8 * j, 8 * j + 8);
    }
  }

  /** Table `b` occupies bytes `16 * Before(b)` to `16 * Before(b + 1)` of the table region. */
  lemma {:induction false} TablesBytesAt(ps: seq<HashPointer>, ts: seq<Table>, n: nat, b: nat)
    requires Sized(ps, ts) && b < n <= BUCKETS
    ensures 16 * Before(ps, b + 1) <= |TablesBytes(ts, n)|
    ensures TablesBytes(ts, n)[16 * Before(ps, b)..16 * Before(ps, b + 1)] == TableBytes(ts[b])
  {
    var prev, last := TablesBytes(ts, n - 1), TableBytes(ts[n - 1]);
    var lo, hi := 16 * Before(ps, b), 16 * Before(ps, b + 1);
    TablesBytesSize(ps, ts, n - 1);
    assert TablesBytes(ts, n) == prev + last;
    if b < n - 1 {
      TablesBytesAt(ps, ts, n - 1, b);
      SliceLeftIs(prev, last, lo, hi, TableBytes(ts[b]));
    } else {
      assert |last| == 16 * Count(ps, b);
      SliceRightIs(prev, last, lo, hi);
    }
  }

  /** Header entry `b` of the file: the table position and the table length. */
  lemma HeaderOfLayout(records: seq<Byte>, ps: seq<HashPointer>, ts: seq<Table>, b: nat)
    requires |ts| == BUCKETS && b < BUCKETS
    ensures 8 * b + 8 <= |LayoutWith(records, ps, ts)|
    ensures LayoutWith(records, ps, ts)[8 * b..8 * b + 8] == HeaderEntry(ps, HEADER_SIZE + |records|, b)
  {
    var eod := HEADER_SIZE + |records|;
    HeaderBytesAt(ps, eod, BUCKETS, b);
    assert LayoutWith(records, ps, ts)[8 * b..8 * b + 8] == HeaderBytes(ps, eod, BUCKETS)[8 * b..8 * b + 8];
  }

  /** The table region starts at the end of the record region. */
  lemma TablesOfLayout(records: seq<Byte>, ps: seq<HashPointer>, ts: seq<Table>, lo: int, hi: int, x: int, y: int, piece: seq<Byte>)
    requires |ts| == BUCKETS && 0 <= lo <= hi <= |TablesBytes(ts, BUCKETS)| && TablesBytes(ts, BUCKETS)[lo..hi] == piece
    requires x == HEADER_SIZE + |records| + lo && y == HEADER_SIZE + |records| + hi
    ensures y <= |LayoutWith(records, ps, ts)|
    ensures LayoutWith(records, ps, ts)[x..y] == piece
  {
    var header := HeaderBytes(ps, HEADER_SIZE + |records|, BUCKETS);
    assert |header| == HEADER_SIZE;
    SliceLastIs(header, records, TablesBytes(ts, BUCKETS), lo, hi, x, y, piece);
  }

  /** The record region follows the header. */
  lemma RecordsOfLayout(records: seq<Byte>, ps: seq<HashPointer>, ts: seq<Table>, lo: int, hi: int, x: int, y: int, piece: seq<Byte>)
    requires |ts| == BUCKETS && 0 <= lo <= hi <= |records| && records[lo..hi] == piece
    requires x == HEADER_SIZE + lo && y == HEADER_SIZE + hi
    ensures y <= HEADER_SIZE + |records| <= |LayoutWith(records, ps, ts)|
    ensures LayoutWith(records, ps, ts)[x..y] == piece
  {
    var header := HeaderBytes(ps, HEADER_SIZE + |records|, BUCKETS);
    assert |header| == HEADER_SIZE;
    SliceMiddleIs(header, records, TablesBytes(ts, BUCKETS), lo, hi, x, y, piece);
  }

  /** Slot `j` of table `b` is bytes `16 * Before(b) + 8 * j` onwards of the table region. */
  lemma SlotOfTables(ps: seq<HashPointer>, ts: seq<Table>, b: nat, j: nat)
    requires Sized(ps, ts) && b < BUCKETS && j < 2 * Count(ps, b)
    ensures 16 * Before(ps, b) + 8 * j + 8 <= |TablesBytes(ts, BUCKETS)|
    ensures TablesBytes(ts, BUCKETS)[16 * Before(ps, b) + 8 * j..16 * Before(ps, b) + 8 * j + 8] == SlotBytes(ts[b][j])
  {
    TablesBytesAt(ps, ts, BUCKETS, b);
    TableBytesAt(ts[b], j);
    SliceOfSlice(TablesBytes(ts, BUCKETS), 16 * Before(ps, b), 16 * Before(ps, b + 1), 8 * j, 8 * j + 8);
  }

  /** Slot `j` of table `b` lies at `TablePos + 8 * j` in the file. */
  lemma SlotOfLayout(records: seq<Byte>, ps: seq<HashPointer>, ts: seq<Table>, b: nat, j: nat)
    requires Sized(ps, ts) && b < BUCKETS && j < 2 * Count(ps, b)
    ensures SlotPos(ps, HEADER_SIZE + |records|, b, j) + 8 <= |LayoutWith(records, ps, ts)|
    ensures LayoutWith(records, ps, ts)[SlotPos(ps, HEADER_SIZE + |records|, b, j)..SlotPos(ps, HEADER_SIZE + |records|, b, j) + 8]
         == SlotBytes(ts[b][j])
  {
    SlotOfTables(ps, ts, b, j);
    var lo := 16 * Before(ps, b) + 8 * j;
    assert SlotPos(ps, HEADER_SIZE + |records|, b, j) == HEADER_SIZE + |records| + lo;
    TablesOfLayout(records, ps, ts, lo, lo + 8, SlotPos(ps, HEADER_SIZE + |records|, b, j), SlotPos(ps, HEADER_SIZE + |records|, b, j) + 8, SlotBytes(ts[b][j]));
  }

  /** The bytes at a record's position are that record, whatever tables follow. */
  lemma RecordOfLayout(rs: seq<Element>, ps: seq<HashPointer>, ts: seq<Table>, k: nat)
    requires |ts| == BUCKETS && k < |rs|
    ensures RecordPos(rs, k) + 8 + |rs[k].key| + |rs[k].data| <= HEADER_SIZE + RecordsSize(rs) <= |LayoutWith(RecordsBytes(rs), ps, ts)|
    ensures LayoutWith(RecordsBytes(rs), ps, ts)[RecordPos(rs, k)..RecordPos(rs, k) + 8 + |rs[k].key| + |rs[k].data|] == RecordBytes(rs[k])
  {
    var a, z := RecordRegion(rs, k);
    var x := RecordPos(rs, k);
    RecordsOfLayout(RecordsBytes(rs), ps, ts, a, z, x, x + 8 + |rs[k].key| + |rs[k].data|, RecordBytes(rs[k]));
  }

  /** Record `k` occupies bytes `a` to `z` of the record region. */
  lemma RecordRegion(rs: seq<Element>, k: nat) returns (a: int, z: int)
    requires k < |rs|
    ensures RecordPos(rs, k) == HEADER_SIZE + a && z == a + 8 + |rs[k].key| + |rs[k].data|
    ensures 0 <= a <= z <= |RecordsBytes(rs)| == RecordsSize(rs)
    ensures RecordsBytes(rs)[a..z] == RecordBytes(rs[k])
  {
    RecordAt(rs, k);
    a := RecordsSize(rs[..k]);
    z := a + 8 + |rs[k].key| + |rs[k].data|;
  }

  /** The bytes at a record's position in the file are that record. */
  lemma RecordOfImage(rs: seq<Element>, k: nat)
    requires k < |rs|
    ensures RecordPos(rs, k) + 8 + |rs[k].key| + |rs[k].data| <= Eod(rs) <= |Image(rs)|
    ensures Image(rs)[RecordPos(rs, k)..RecordPos(rs, k) + 8 + |rs[k].key| + |rs[k].data|] == RecordBytes(rs[k])
  {
    var ps := Pointers(rs);
    RecordOfLayout(rs, ps, Tables(ps), k);
  }

  /** Header entry 0 points at the end of the record region, whatever tables follow. */
  lemma FirstTableOfLayout(records: seq<Byte>, ps: seq<HashPointer>, ts: seq<Table>)
    requires |ts| == BUCKETS
    ensures 8 <= |LayoutWith(records, ps, ts)|
    ensures ReadLe(LayoutWith(records, ps, ts), 0) == Unsigned(HEADER_SIZE + |records|)
  {
    var file := LayoutWith(records, ps, ts);
    var eod := HEADER_SIZE + |records|;
    HeaderOfLayout(records, ps, ts, 0);
    assert file[0..4] == HeaderEntry(ps, eod, 0)[0..4];
    assert HeaderEntry(ps, eod, 0)[0..4] == LeBytes(eod);
    ReadLeAt(file, 0, eod);
  }

  /** Header entry 0 points at the end of the record region: the tables begin there. */
  lemma FirstTableAtEod(rs: seq<Element>)
    ensures 8 <= |Image(rs)|
    ensures ReadLe(Image(rs), 0) == Unsigned(Eod(rs))
  {
    var ps, records := Pointers(rs), RecordsBytes(rs);
    ImageIsLayout(rs);
    FirstTableOfLayout(records, ps, Tables(ps));
  }

  /** The file of `rs` is the layout of its records and tables, and the record
      region ends where the records' bytes do. */
  lemma ImageIsLayout(rs: seq<Element>)
    ensures Image(rs) == LayoutWith(RecordsBytes(rs), Pointers(rs), Tables(Pointers(rs)))
    ensures Eod(rs) == HEADER_SIZE + |RecordsBytes(rs)|
  {
  }

  /** Consecutive tables are adjacent: table `b + 1` begins `8 * len_b` bytes
      after table `b`, where `len_b = 2 * count_b` is the length in header entry `b`. */
  lemma TablesAdjacent(ps: seq<HashPointer>, eod: int, b: nat)
    requires b + 1 < BUCKETS
    ensures TablePos(ps, eod, b + 1) == TablePos(ps, eod, b) + 8 * (2 * Count(ps, b))
  {
  }
}
