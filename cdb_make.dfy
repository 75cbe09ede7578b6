/** The builder `CdbMake` of the library: `start` reserves the header, `add`
    appends one record and remembers its hash pointer, `finish` writes the 256
    hash tables after the records and the header in front of them. The file is
    the byte sequence written so far; `pos` is the builder's own count of it. */
module CdbMake {
  import opened Bytes
  import opened Seqs
  import opened CdbHash
  import opened CdbFormat
  import opened ProbeTable
  import opened CdbLayout
  import opened FinishSteps

  /** The state of a builder after `start` and the records `rs`: their pointers
      (with the hash kept as a `long`, or as an `int` when `intHash`), the
      per-bucket counts of those, the reserved header followed by the records,
      and the position of the end of the file. */
  ghost predicate Built(intHash: bool, rs: seq<Element>, ps: seq<HashPointer>, counts: seq<int>, file: seq<Byte>, pos: int)
  {
    ps == PointersWith(rs, intHash) &&
    |counts| == BUCKETS && (forall b :: 0 <= b < BUCKETS ==> counts[b] == Count(ps, b)) &&
    file == Zeros(HEADER_SIZE) + RecordsBytes(rs) &&
    pos == HEADER_SIZE + RecordsSize(rs)
  }

  /** Nothing added yet: no pointers, all counts zero, only the reserved header. */
  lemma BuiltEmpty(intHash: bool, counts: seq<int>)
    requires |counts| == BUCKETS && forall b :: 0 <= b < BUCKETS ==> counts[b] == 0
    ensures Built(intHash, [], [], counts, Zeros(HEADER_SIZE), HEADER_SIZE)
  {
    assert PointersWith([], intHash) == [];
    assert RecordsBytes([]) == [];
    assert Zeros(HEADER_SIZE) + [] == Zeros(HEADER_SIZE);
    forall b | 0 <= b < BUCKETS
      ensures counts[b] == Count([], b)
    {
      assert InBucket([], b) == [];
    }
  }

  /** Adding a record adds one to the count of its key's bucket only. */
  lemma CountsAdd(ps: seq<HashPointer>, counts: seq<int>, p: HashPointer)
    requires |counts| == BUCKETS && forall b :: 0 <= b < BUCKETS ==> counts[b] == Count(ps, b)
    ensures forall b :: 0 <= b < BUCKETS ==> counts[Bucket(p.hash) := counts[Bucket(p.hash)] + 1][b] == Count(ps + [p], b)
  {
    forall b | 0 <= b < BUCKETS
      ensures counts[Bucket(p.hash) := counts[Bucket(p.hash)] + 1][b] == Count(ps + [p], b)
    {
      InBucketSnoc(ps, p, b);
    }
  }

  /** Adding a record appends its bytes after those of the records before it. */
  lemma FileAdd(rs: seq<Element>, e: Element)
    ensures Zeros(HEADER_SIZE) + RecordsBytes(rs) + RecordBytes(e) == Zeros(HEADER_SIZE) + RecordsBytes(rs + [e])
    ensures RecordsSize(rs + [e]) == RecordsSize(rs) + 8 + |e.key| + |e.data|
  {
    RecordsSnoc(rs, e);
    var z, r, x := Zeros(HEADER_SIZE), RecordsBytes(rs), RecordBytes(e);
    assert (z + r) + x == z + (r + x);
  }

  lemma Append4(f: seq<Byte>, a: seq<Byte>, b: seq<Byte>, c: seq<Byte>, d: seq<Byte>)
    ensures f + a + b + c + d == f + (a + b + c + d)
  {
  }

  /** The pointer of a record added at `pos`, the end of the records before it. */
  lemma PointersSnocAt(rs: seq<Element>, e: Element, signed: bool, pos: int)
    requires pos == HEADER_SIZE + RecordsSize(rs)
    ensures PointersWith(rs + [e], signed) == PointersWith(rs, signed) + [HashPointer(PointerHash(e.key, signed), pos)]
  {
    PointersSnoc(rs, e, signed);
  }

  /** One `add` that does not overflow extends the state by one record. */
  lemma BuiltAdd(intHash: bool, rs: seq<Element>, ps: seq<HashPointer>, counts: seq<int>, file: seq<Byte>, pos: int, e: Element)
    requires Built(intHash, rs, ps, counts, file, pos)
    ensures Built(intHash, rs + [e], ps + [HashPointer(PointerHash(e.key, intHash), pos)],
                  counts[Bucket(PointerHash(e.key, intHash)) := counts[Bucket(PointerHash(e.key, intHash))] + 1],
                  file + RecordBytes(e), pos + 8 + |e.key| + |e.data|)
  {
    var p := HashPointer(PointerHash(e.key, intHash), pos);
    PointersSnocAt(rs, e, intHash, pos);
    CountsAdd(ps, counts, p);
    FileAdd(rs, e);
    BuiltOf(intHash, rs + [e], ps + [p], counts[Bucket(p.hash) := counts[Bucket(p.hash)] + 1], file + RecordBytes(e), pos + 8 + |e.key| + |e.data|);
  }

  /** `Built`, from its four parts. */
  lemma BuiltOf(intHash: bool, rs: seq<Element>, ps: seq<HashPointer>, counts: seq<int>, file: seq<Byte>, pos: int)
    requires ps == PointersWith(rs, intHash)
    requires |counts| == BUCKETS && forall b :: 0 <= b < BUCKETS ==> counts[b] == Count(ps, b)
    requires file == Zeros(HEADER_SIZE) + RecordsBytes(rs)
    requires pos == HEADER_SIZE + RecordsSize(rs)
    ensures Built(intHash, rs, ps, counts, file, pos)
  {
  }

  /** The state `add` leaves behind when `pos` does not overflow. */
  lemma BuiltAfterAdd(intHash: bool, rs: seq<Element>, ps: seq<HashPointer>, counts: seq<int>, file: seq<Byte>, pos: int, e: Element,
                      ps': seq<HashPointer>, counts': seq<int>, file': seq<Byte>, pos': int)
    requires Built(intHash, rs, ps, counts, file, pos)
    requires ps' == ps + [HashPointer(PointerHash(e.key, intHash), pos)]
    requires counts' == counts[Bucket(PointerHash(e.key, intHash)) := counts[Bucket(PointerHash(e.key, intHash))] + 1]
    requires file' == file + RecordBytes(e)
    requires pos' == pos + 8 + |e.key| + |e.data|
    ensures Built(intHash, rs + [e], ps', counts', file', pos')
  {
    BuiltAdd(intHash, rs, ps, counts, file, pos, e);
  }

  /** The file after `finish`: the header written over the reserved bytes,
      followed by the records and the tables written after them. */
  lemma FinishedFile(rs: seq<Element>, ps: seq<HashPointer>, eod: int, reserved: seq<Byte>, header: seq<Byte>, tables: seq<Byte>)
    requires eod == Eod(rs) && |reserved| == HEADER_SIZE
    requires header == HeaderBytes(ps, eod, BUCKETS) && tables == TablesBytes(Tables(ps), BUCKETS)
    ensures |reserved + RecordsBytes(rs) + tables| >= HEADER_SIZE
    ensures header + (reserved + RecordsBytes(rs) + tables)[HEADER_SIZE..] == Layout(RecordsBytes(rs), ps)
  {
    var records := RecordsBytes(rs);
    assert eod == HEADER_SIZE + |records|;
    HeaderOver(reserved, records, ps, Tables(ps), header, tables);
  }

  class CdbMake {
    /** The bytes of the file, in file order. */
    var file: seq<Byte>
    /** `hashPointers`: one `(hash, pos)` per record, in the order added. */
    var hashPointers: seq<HashPointer>
    var tableCount: array<int>
    var tableStart: array<int>
    var pos: Int32
    /** Whether the hash is kept in an `int`, as the older builder does, rather
        than a `long`. */
    const intHash: bool
    /** The records added so far. */
    ghost var records: seq<Element>

    /** The counters and the start table are two distinct arrays of 256 entries. */
    ghost predicate Shape()
      reads this
    {
      tableCount.Length == BUCKETS && tableStart.Length == BUCKETS && tableCount != tableStart
    }

    /** Between `start` and `finish`: a reserved header, the records so far,
        their pointers and per-bucket counts, and `pos` at the end of the file. */
    ghost predicate Valid()
      reads this, tableCount
    {
      Shape() && Built(intHash, records, hashPointers, tableCount[..], file, pos)
    }

    /** The records added so far end within the largest `int` position. */
    lemma ValidSize()
      requires Valid()
      ensures HEADER_SIZE + RecordsSize(records) == pos <= INT_MAX
    {
    }

    /** `new CdbMake()`: nothing is open yet. */
    constructor (intHash: bool)
      ensures this.intHash == intHash && file == [] && hashPointers == [] && records == []
    {
      this.intHash := intHash;
      file, hashPointers, pos, records := [], [], 0, [];
      tableCount := new int[0];
      tableStart := new int[0];
    }

    /** `start`: fresh counters, all zero, no pointers, and the header skipped:
        the first record goes at offset 2048 of an empty file. */
    method Start()
      modifies this
      ensures Valid() && fresh(tableCount) && fresh(tableStart)
      ensures records == [] && hashPointers == [] && file == Zeros(HEADER_SIZE) && pos == HEADER_SIZE
      ensures forall b :: 0 <= b < BUCKETS ==> tableCount[b] == 0
    {
      var counts := new int[BUCKETS];
      var i := 0;
      while i < BUCKETS
        invariant 0 <= i <= BUCKETS
        invariant forall b :: 0 <= b < i ==> counts[b] == 0
      {
        counts[i] := 0;
        i := i + 1;
      }
      hashPointers := [];
      tableCount := counts;
      tableStart := new int[BUCKETS];
      file := Zeros(HEADER_SIZE);
      pos := HEADER_SIZE;
      records := [];
      BuiltEmpty(intHash, counts[..]);
    }

    /** `writeLeInt`: four bytes, least significant first. */
    method WriteLeInt(v: int)
      modifies this`file
      ensures file == old(file) + LeBytes(v)
    {
      var u := Unsigned(v);
      file := file + [ByteOf(u % 256)];
      file := file + [ByteOf(u / 256 % 256)];
      file := file + [ByteOf(u / 256 / 256 % 256)];
      file := file + [ByteOf(u / 256 / 256 / 256 % 256)];
      LeBytesDigits(v);
    }

    /** The writes of `add`: the key length, the data length, the key, the data. */
    method WriteRecord(key: seq<Byte>, data: seq<Byte>)
      modifies this`file
      ensures file == old(file) + RecordBytes(Element(key, data))
    {
      WriteLeInt(|key|);
      WriteLeInt(|data|);
      file := file + key;
      file := file + data;
      Append4(old(file), LeBytes(|key|), LeBytes(|data|), key, data);
    }

    /** The bookkeeping of `add`: the pointer `(hash, pos)` joins the list and
        the counter of its bucket, `hash & 0xff`, goes up by one. */
    method AddPointer(hash: int)
      requires Shape()
      modifies this`hashPointers, tableCount
      ensures hashPointers == old(hashPointers) + [HashPointer(hash, pos)]
      ensures tableCount[..] == old(tableCount[..])[Bucket(hash) := old(tableCount[Bucket(hash)]) + 1]
    {
      hashPointers := hashPointers + [HashPointer(hash, pos)];
      tableCount[Bucket(hash)] := tableCount[Bucket(hash)] + 1;
    }

    /** Where `add` leaves `pos`: past the record, or, when a `posplus`
        fails, past the steps before it. */
    static function PosAfterRecord(pos: int, klen: int, dlen: int): (r: int)
      requires 0 <= klen && 0 <= dlen
      ensures r == pos + 8 + klen + dlen <==> pos + 8 + klen + dlen <= INT_MAX
      ensures pos <= r <= pos + 8 + klen + dlen
    {
      if pos + 8 > INT_MAX then pos
      else if pos + 8 + klen > INT_MAX then pos + 8
      else if pos + 8 + klen + dlen > INT_MAX then pos + 8 + klen
      else pos + 8 + klen + dlen
    }

    /** The end of `add`: `posplus(8)`, `posplus(key.length)`, `posplus(data.length)`,
        stopping at the first that fails. */
    method Advance(klen: Int32, dlen: Int32) returns (ok: bool)
      requires 0 <= pos && 0 <= klen && 0 <= dlen
      modifies this`pos
      ensures ok <==> old(pos) + 8 + klen + dlen <= INT_MAX
      ensures pos == PosAfterRecord(old(pos), klen, dlen)
    {
      ok := PosPlus(8);
      if ok {
        ok := PosPlus(klen);
        if ok {
          ok := PosPlus(dlen);
        }
      }
    }

    /** `posplus`: advance `pos` by `count`, unless the 32-bit sum says the
        file has grown too big, in which case `pos` stays. Every caller passes
        a length or a slot size, and `pos` never goes below 2048. */
    method PosPlus(count: Int32) returns (ok: bool)
      requires 0 <= pos && 0 <= count
      modifies this`pos
      ensures ok <==> old(pos) + count <= INT_MAX
      ensures pos == if ok then old(pos) + count else old(pos)
    {
      var newpos := Wrap32(pos + count);
      if newpos < count {
        return false;
      }
      pos := newpos;
      return true;
    }

    /** The state after the steps of `add`: the record's bytes at the end of
        the file, its pointer `(hash(key), pos)` at the end of the list, its
        bucket's counter up by one, and `pos` past the record or, when a
        `posplus` fails, past the steps before it. */
    twostate predicate Appended(key: seq<Byte>, data: seq<Byte>)
      requires old(Shape())
      reads this, tableCount
    {
      tableCount == old(tableCount) && tableStart == old(tableStart) && Shape() &&
      records == old(records) + [Element(key, data)] &&
      file == old(file) + RecordBytes(Element(key, data)) &&
      hashPointers == old(hashPointers) + [HashPointer(PointerHash(key, intHash), old(pos))] &&
      tableCount[..] == old(tableCount[..])[Bucket(PointerHash(key, intHash)) := old(tableCount[Bucket(PointerHash(key, intHash))]) + 1] &&
      pos == PosAfterRecord(old(pos), |key|, |data|)
    }

    /** The steps of `add`: the record's bytes go to the end of the file,
        its pointer `(hash(key), pos)` to the list and its bucket's counter
        up by one; then `pos` moves past the record, in three steps that can
        each fail. */
    method AddSteps(key: seq<Byte>, data: seq<Byte>) returns (ok: bool)
      requires Shape() && 0 <= pos && |key| <= INT_MAX && |data| <= INT_MAX
      modifies this, tableCount
      ensures ok <==> old(pos) + 8 + |key| + |data| <= INT_MAX
      ensures Appended(key, data)
    {
      WriteRecord(key, data);
      AddPointer(PointerHash(key, intHash));
      records := records + [Element(key, data)];
      ok := Advance(|key|, |data|);
    }

    /** `add`: the steps above; when none fails, the builder holds one more
        record, written and counted as the layout says. */
    method Add(key: seq<Byte>, data: seq<Byte>) returns (ok: bool)
      requires Valid() && |key| <= INT_MAX && |data| <= INT_MAX
      modifies this, tableCount
      ensures ok <==> old(pos) + 8 + |key| + |data| <= INT_MAX
      ensures Appended(key, data)
      ensures ok ==> Valid()
    {
      ghost var rs := records;
      ValidSize();
      ok := AddSteps(key, data);
      if ok {
        BuiltAfterAdd(intHash, rs, old(hashPointers), old(tableCount[..]), old(file), old(pos), Element(key, data), hashPointers, tableCount[..], file, pos);
        assert Valid();
      }
    }

    /** One slot of a table as `finish` writes it: the hash cast to `int`
        and the position, or two zeros for a free slot. */
    method WriteSlot(o: Option<HashPointer>)
      modifies this`file
      ensures file == old(file) + SlotBytes(o)
    {
      match o
      case Some(hp) =>
        WriteLeInt(Wrap32(hp.hash));
        WriteLeInt(hp.pos);
        WrapUnsigned(hp.hash);
      case None =>
        WriteLeInt(0);
        WriteLeInt(0);
    }

    /** The write loop of `finish` for one table: every slot in slot order,
        each followed by `posplus(8)`, which stops the loop when it fails. */
    method WriteTable(hashTable: array<Option<HashPointer>>) returns (ok: bool)
      requires 0 <= pos
      modifies this`file, this`pos
      ensures ok <==> old(pos) + 8 * hashTable.Length <= INT_MAX
      ensures ok ==> file == old(file) + TableBytes(hashTable[..]) && pos == old(pos) + 8 * hashTable.Length
    {
      var u := 0;
      while u < hashTable.Length
        invariant 0 <= u <= hashTable.Length && pos == old(pos) + 8 * u
        invariant file == old(file) + TableBytes(hashTable[..u])
      {
        WriteSlot(hashTable[u]);
        TableBytesSnoc(hashTable[..], u);
        Assoc(old(file), TableBytes(hashTable[..u]), SlotBytes(hashTable[u]));
        ok := PosPlus(8);
        if !ok {
          return;
        }
        u := u + 1;
      }
      assert hashTable[..u] == hashTable[..];
      ok := true;
    }

    /** The table loop of `finish` after `i` rounds, the tables starting at
        `eod` and the file holding `start` before them: `pos` is past the
        tables of the buckets below `i`, the file ends with those tables and
        the header holds their entries. */
    ghost predicate TablesWritten(ps: seq<HashPointer>, eod: int, start: seq<Byte>, slotTable: array<Byte>, i: int)
      reads this, slotTable
    {
      0 <= i <= BUCKETS && slotTable.Length == HEADER_SIZE && pos == eod + 16 * Before(ps, i)
      && file == start + TablesBytes(Tables(ps), i) && slotTable[..8 * i] == HeaderBytes(ps, eod, i)
    }

    /** One round of the table loop of `finish` for bucket `i`: its header entry
        `(pos, len)` goes into `slotTable`, its table is built from its slice of
        `slotPointers` and written out. When a position would pass the largest
        `int`, the tables of all the buckets do not fit either. */
    method WriteBucket(i: int, slotPointers: array<HashPointer>, slotTable: array<Byte>,
                       ghost ps: seq<HashPointer>, ghost eod: int, ghost start: seq<Byte>)
        returns (ok: bool)
      requires Shape() && 0 <= i < BUCKETS && 0 <= eod && TablesWritten(ps, eod, start, slotTable, i)
      requires slotTable as object != slotPointers as object
      requires Distributed(ps, tableCount[..], tableStart[..], slotPointers[..])
      modifies this`file, this`pos, slotTable
      ensures ok ==> TablesWritten(ps, eod, start, slotTable, i + 1)
      ensures !ok ==> INT_MAX < eod + 16 * |ps|
    {
      ghost var slots := slotPointers[..];
      BucketSlice(ps, tableCount[..], tableStart[..], slots, i);
      var len := tableCount[i] * 2;
      PutEntry(slotTable, i, pos, len, HeaderBytes(ps, eod, i));
      HeaderBytesSnoc(ps, eod, i, pos, len);
      ghost var header := slotTable[..8 * (i + 1)];
      assert slotPointers[..] == slots;
      var hashTable := BuildTable(slotPointers, tableStart[i], tableCount[i], ps, i);
      TablesAt(ps, i);
      ok := WriteTable(hashTable);
      if ok {
        assert slotTable[..8 * (i + 1)] == header;
        Assoc(start, TablesBytes(Tables(ps), i), TableBytes(Tables(ps)[i]));
      } else {
        BeforeMono(ps, i + 1, BUCKETS);
        BeforeAll(ps);
      }
    }

    /** The table loop of `finish`: for each bucket in turn, its header entry
        goes into the 2048-byte `slotTable` and its table to the end of the file. */
    method WriteTables(slotPointers: array<HashPointer>, ghost ps: seq<HashPointer>)
        returns (ok: bool, slotTable: array<Byte>)
      requires Shape() && 0 <= pos
      requires Distributed(ps, tableCount[..], tableStart[..], slotPointers[..])
      modifies this`file, this`pos
      ensures fresh(slotTable) && slotTable.Length == HEADER_SIZE
      ensures ok <==> old(pos) + 16 * |ps| <= INT_MAX
      ensures ok ==> file == old(file) + TablesBytes(Tables(ps), BUCKETS) && slotTable[..] == HeaderBytes(ps, old(pos), BUCKETS)
    {
      slotTable := new Byte[HEADER_SIZE];
      var i := 0;
      while i < BUCKETS
        invariant TablesWritten(ps, old(pos), old(file), slotTable, i)
      {
        ok := WriteBucket(i, slotPointers, slotTable, ps, old(pos), old(file));
        if !ok {
          return;
        }
        i := i + 1;
      }
      BeforeAll(ps);
      assert slotTable[..] == slotTable[..8 * BUCKETS];
      ok := true;
    }

    /** `finish`: the prefix sums, the distribution of the pointers into
        per-bucket slices, then the tables after the records and the header
        written last, over the 2048 reserved bytes. The file is then exactly
        the cdb image of the records added, unless a table would end beyond
        the largest `int` position. */
    method Finish() returns (ok: bool)
      requires Valid()
      modifies this, tableStart
      ensures records == old(records)
      ensures ok <==> old(pos) + 16 * |records| <= INT_MAX
      ensures ok ==> file == Layout(RecordsBytes(records), PointersWith(records, intHash))
    {
      ghost var eod := pos;
      assert eod == Eod(records);
      PrefixSums(hashPointers, tableCount, tableStart);
      var slotPointers := Distribute(hashPointers, tableCount[..], tableStart);
      var slotTable;
      ok, slotTable := WriteTables(slotPointers, hashPointers);
      if ok {
        FinishedFile(records, hashPointers, eod, Zeros(HEADER_SIZE), slotTable[..], TablesBytes(Tables(hashPointers), BUCKETS));
        file := slotTable[..] + file[HEADER_SIZE..];
      }
    }
  }
}
