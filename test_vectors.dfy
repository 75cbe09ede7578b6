/** The two records of the repository's test files, `one -> Hello` and
    `two -> Goodbye`: the size of the file the builder makes of them, a
    search for `one` in it, its enumeration and its dump. */
module TestVectors {
  import opened Bytes
  import opened CdbHash
  import opened CdbFormat
  import opened CdbLayout
  import opened CdbReader
  import opened LookupCorrect
  import opened StreamEnumeration
  import opened TextFormat
  import opened Dump
  import opened ElementsCorrect
  import opened MakeText
  import LibraryReader
  import LibraryFindings
  import Buffers

  const ONE: seq<Byte> := [0x6f, 0x6e, 0x65]
  const HELLO: seq<Byte> := [0x48, 0x65, 0x6c, 0x6c, 0x6f]
  const TWO: seq<Byte> := [0x74, 0x77, 0x6f]
  const GOODBYE: seq<Byte> := [0x47, 0x6f, 0x6f, 0x64, 0x62, 0x79, 0x65]

  /** The records of the test file, in the order they are added. */
  const RECORDS: seq<Element> := [Element(ONE, HELLO), Element(TWO, GOODBYE)]

  lemma OneByte1()
    ensures Xor(165, 111) == 202
  {
    assert Xor(2, 1) == 3;
    assert Xor(5, 3) == 6;
    assert Xor(10, 6) == 12;
    assert Xor(20, 13) == 25;
    assert Xor(41, 27) == 50;
    assert Xor(82, 55) == 101;
  }

  lemma OneByte2()
    ensures Xor(10, 110) == 100
  {
    assert Xor(1, 13) == 12;
    assert Xor(2, 27) == 25;
    assert Xor(5, 55) == 50;
  }

  lemma OneByte3()
    ensures Xor(228, 101) == 129
  {
    assert Xor(3, 1) == 2;
    assert Xor(7, 3) == 4;
    assert Xor(14, 6) == 8;
    assert Xor(28, 12) == 16;
    assert Xor(57, 25) == 32;
    assert Xor(114, 50) == 64;
  }

  lemma TwoByte1()
    ensures Xor(165, 116) == 209
  {
    assert Xor(2, 1) == 3;
    assert Xor(5, 3) == 6;
    assert Xor(10, 7) == 13;
    assert Xor(20, 14) == 26;
    assert Xor(41, 29) == 52;
    assert Xor(82, 58) == 104;
  }

  lemma TwoByte2()
    ensures Xor(241, 119) == 134
  {
    assert Xor(3, 1) == 2;
    assert Xor(7, 3) == 4;
    assert Xor(15, 7) == 8;
    assert Xor(30, 14) == 16;
    assert Xor(60, 29) == 33;
    assert Xor(120, 59) == 67;
  }

  lemma TwoByte3()
    ensures Xor(70, 111) == 41
  {
    assert Xor(1, 1) == 0;
    assert Xor(2, 3) == 1;
    assert Xor(4, 6) == 2;
    assert Xor(8, 13) == 5;
    assert Xor(17, 27) == 10;
    assert Xor(35, 55) == 20;
  }

  /** One more byte of `LowHash`. */
  lemma LowStep(s: seq<Byte>, c: Byte, v: nat, before: nat, m: nat, after: nat)
    requires Value(c) == v && LowHash(s) == before && m == (33 * before) % 256 && Xor(m, v) == after
    ensures LowHash(s + [c]) == after
  {
    assert (s + [c])[..|s|] == s;
  }

  lemma LowOne1(k: seq<Byte>)
    requires |k| == 3 && k[0] == 0x6f
    ensures LowHash(k[..1]) == 202
  {
    assert Value(k[0]) == 111;
    assert LowHash([]) == 5;
    assert 165 == (33 * 5) % 256;
    OneByte1();
    assert Xor(165, 111) == 202;
    LowStep([], k[0], 111, 5, 165, 202);
    assert [] + [k[0]] == k[..1];
  }

  lemma LowOne2(k: seq<Byte>)
    requires |k| == 3 && k[1] == 0x6e && LowHash(k[..1]) == 202
    ensures LowHash(k[..2]) == 100
  {
    assert Value(k[1]) == 110;
    assert 10 == (33 * 202) % 256;
    OneByte2();
    assert Xor(10, 110) == 100;
    LowStep(k[..1], k[1], 110, 202, 10, 100);
    assert k[..1] + [k[1]] == k[..2];
  }

  lemma LowOne3(k: seq<Byte>)
    requires |k| == 3 && k[2] == 0x65 && LowHash(k[..2]) == 100
    ensures LowHash(k) == 129
  {
    assert Value(k[2]) == 101;
    assert 228 == (33 * 100) % 256;
    OneByte3();
    assert Xor(228, 101) == 129;
    LowStep(k[..2], k[2], 101, 100, 228, 129);
    assert k[..2] + [k[2]] == k;
  }

  /** The bucket of `one`, one byte at a time: 5 (the low byte of 5381),
      then 202, 100 and 129. */
  lemma BucketOfOne(k: seq<Byte>)
    requires |k| == 3 && k[0] == 0x6f && k[1] == 0x6e && k[2] == 0x65
    ensures Bucket(Hash(k)) == 129
  {
    LowOne1(k);
    LowOne2(k);
    LowOne3(k);
    LowHashIsLowByte(k);
  }

  lemma LowTwo1(k: seq<Byte>)
    requires |k| == 3 && k[0] == 0x74
    ensures LowHash(k[..1]) == 209
  {
    assert Value(k[0]) == 116;
    assert LowHash([]) == 5;
    assert 165 == (33 * 5) % 256;
    TwoByte1();
    assert Xor(165, 116) == 209;
    LowStep([], k[0], 116, 5, 165, 209);
    assert [] + [k[0]] == k[..1];
  }

  lemma LowTwo2(k: seq<Byte>)
    requires |k| == 3 && k[1] == 0x77 && LowHash(k[..1]) == 209
    ensures LowHash(k[..2]) == 134
  {
    assert Value(k[1]) == 119;
    assert 241 == (33 * 209) % 256;
    TwoByte2();
    assert Xor(241, 119) == 134;
    LowStep(k[..1], k[1], 119, 209, 241, 134);
    assert k[..1] + [k[1]] == k[..2];
  }

  lemma LowTwo3(k: seq<Byte>)
    requires |k| == 3 && k[2] == 0x6f && LowHash(k[..2]) == 134
    ensures LowHash(k) == 41
  {
    assert Value(k[2]) == 111;
    assert 70 == (33 * 134) % 256;
    TwoByte3();
    assert Xor(70, 111) == 41;
    LowStep(k[..2], k[2], 111, 134, 70, 41);
    assert k[..2] + [k[2]] == k;
  }

  /** The bucket of `two`: 5, then 209, 134 and 41. */
  lemma BucketOfTwo(k: seq<Byte>)
    requires |k| == 3 && k[0] == 0x74 && k[1] == 0x77 && k[2] == 0x6f
    ensures Bucket(Hash(k)) == 41
  {
    LowTwo1(k);
    LowTwo2(k);
    LowTwo3(k);
    LowHashIsLowByte(k);
  }

  /** The two records make a file of 2048 + (8 + 3 + 5) + (8 + 3 + 7) + 2 * 16 = 2114 bytes. */
  lemma TestFileSize()
    ensures Fits(RECORDS) && |Image(RECORDS)| == 2114
  {
    assert RECORDS[..1] == [Element(ONE, HELLO)];
    assert RECORDS[..1][..0] == [];
    assert RecordsSize(RECORDS[..1]) == 16;
    assert RecordsSize(RECORDS) == 34;
    ImageSize(RECORDS);
  }

  /** `findnext(one)` returns `Hello` and, called again, `null`: no other
      key shares the bucket of `one`. */
  lemma FindOneThenNull(s: Search)
    requires s.loop == 0
    ensures FindNextOn(RECORDS, ONE, s).0 == Hit(HELLO)
    ensures FindNextOn(RECORDS, ONE, FindNextOn(RECORDS, ONE, s).1).0 == Miss
  {
    TestFileSize();
    BucketOfOne(ONE);
    BucketOfTwo(TWO);
    var ps := Pointers(RECORDS);
    PointersWithAt(RECORDS, false, 0);
    PointersWithAt(RECORDS, false, 1);
    assert ps[..1] == [ps[0]];
    assert InBucket(ps, 129) == [ps[0]];
    LoneKeyFoundOnce(RECORDS, ONE, 0, s);
  }

  /** `find(two)` returns `Goodbye` and a further `findnext`, `null`. */
  lemma FindTwoThenNull(s: Search)
    requires s.loop == 0
    ensures FindNextOn(RECORDS, TWO, s).0 == Hit(GOODBYE)
    ensures FindNextOn(RECORDS, TWO, FindNextOn(RECORDS, TWO, s).1).0 == Miss
  {
    TestFileSize();
    BucketOfOne(ONE);
    BucketOfTwo(TWO);
    var ps := Pointers(RECORDS);
    PointersWithAt(RECORDS, false, 0);
    PointersWithAt(RECORDS, false, 1);
    assert ps[..1] == [ps[0]];
    assert InBucket(ps, 41) == [ps[1]];
    LoneKeyFoundOnce(RECORDS, TWO, 1, s);
  }

  /** The library reader as written finds `one` and `two` as well: both
      keys are alone in their buckets and hash below 2^31, so neither of
      its departures from the reference reader shows on this file, and
      the call after `find(one)` returns `null`. */
  lemma LibraryFindsOneAndTwo(s: LibraryReader.SearchState, at: nat)
    requires s.loop == 0
    ensures var r := LibraryReader.SearchedAsWritten(Image(RECORDS), LibraryReader.SlotEntries(Image(RECORDS)), Buffers.BufferState(ONE, 0, 3), s, at);
      r.0 == Hit(HELLO) && LibraryReader.SearchedAsWritten(Image(RECORDS), LibraryReader.SlotEntries(Image(RECORDS)), r.2, r.1, r.3).0 == Miss
    ensures LibraryReader.SearchedAsWritten(Image(RECORDS), LibraryReader.SlotEntries(Image(RECORDS)), Buffers.BufferState(TWO, 0, 3), s, at).0 == Hit(GOODBYE)
  {
    TestFileSize();
    BucketOfOne(ONE);
    BucketOfTwo(TWO);
    var ps := Pointers(RECORDS);
    PointersWithAt(RECORDS, false, 0);
    PointersWithAt(RECORDS, false, 1);
    assert ps[..1] == [ps[0]];
    assert InBucket(ps, 129) == [ps[0]];
    assert InBucket(ps, 41) == [ps[1]];
    LibraryFindings.ShortKeyHash(ONE);
    LibraryFindings.ShortKeyHash(TWO);
    LibraryFindings.LoneKeyFoundAsWritten(RECORDS, ONE, 0, s, at, LibraryReader.SearchedAsWritten(Image(RECORDS), LibraryReader.SlotEntries(Image(RECORDS)), Buffers.BufferState(ONE, 0, 3), s, at).3);
    LibraryFindings.LoneKeyFoundAsWritten(RECORDS, TWO, 1, s, at, at);
  }

  /** The enumeration of the file yields `(one, Hello)`, then `(two, Goodbye)`,
      then nothing more. */
  lemma EnumerateTestFile()
    ensures HEADER_SIZE <= |Image(RECORDS)|
    ensures ElementsFrom(Image(RECORDS), HEADER_SIZE, HEADER_SIZE, StreamInt(Image(RECORDS), 0)) == (RECORDS, true)
  {
    TestFileSize();
    ElementsOfImage(RECORDS);
  }

  /** The lines of `test.make`: `+3,5:one->Hello` and `+3,7:two->Goodbye`,
      each ending in a newline. */
  const LINE_ONE: seq<Byte> := [0x2b, 0x33, 0x2c, 0x35, 0x3a, 0x6f, 0x6e, 0x65, 0x2d, 0x3e, 0x48, 0x65, 0x6c, 0x6c, 0x6f, 0x0a]
  const LINE_TWO: seq<Byte> := [0x2b, 0x33, 0x2c, 0x37, 0x3a, 0x74, 0x77, 0x6f, 0x2d, 0x3e, 0x47, 0x6f, 0x6f, 0x64, 0x62, 0x79, 0x65, 0x0a]

  /** `test.make`: the two lines, then an empty line. */
  const TEST_MAKE: seq<Byte> := LINE_ONE + LINE_TWO + [0x0a]

  lemma BodyOfOne()
    ensures BodyOf(Element(ONE, HELLO)) == LINE_ONE[5..]
  {
  }

  lemma LineOfOne()
    ensures LineText(Element(ONE, HELLO)) == LINE_ONE
  {
    var e := Element(ONE, HELLO);
    assert Decimal(3) == [0x33] && Decimal(5) == [0x35];
    assert LineText(e) == LineOf(e, [0x33], [0x35]);
    BodyOfOne();
    assert LineOf(e, [0x33], [0x35]) == [0x2b, 0x33, 0x2c, 0x35, 0x3a] + LINE_ONE[5..];
    assert LINE_ONE == LINE_ONE[..5] + LINE_ONE[5..];
  }

  lemma BodyOfTwo()
    ensures BodyOf(Element(TWO, GOODBYE)) == LINE_TWO[5..]
  {
  }

  lemma LineOfTwo()
    ensures LineText(Element(TWO, GOODBYE)) == LINE_TWO
  {
    var e := Element(TWO, GOODBYE);
    assert Decimal(3) == [0x33] && Decimal(7) == [0x37];
    assert LineText(e) == LineOf(e, [0x33], [0x37]);
    BodyOfTwo();
    assert LineOf(e, [0x33], [0x37]) == [0x2b, 0x33, 0x2c, 0x37, 0x3a] + LINE_TWO[5..];
    assert LINE_TWO == LINE_TWO[..5] + LINE_TWO[5..];
  }

  /** The dump of the records is `test.make`. */
  lemma TestMakeText()
    ensures DumpText(RECORDS) == TEST_MAKE
  {
    LineOfOne();
    LineOfTwo();
    assert RECORDS[1..] == [Element(TWO, GOODBYE)];
    assert RECORDS[1..][1..] == [];
    assert LinesText(RECORDS[1..]) == LINE_TWO;
  }

  /** Dumping the file gives `test.make`, and making `test.make` gives the file. */
  lemma DumpTestFile()
    ensures HEADER_SIZE <= |Image(RECORDS)|
    ensures DumpOf(ElementsFrom(Image(RECORDS), HEADER_SIZE, HEADER_SIZE, StreamInt(Image(RECORDS), 0)).0,
                   ElementsFrom(Image(RECORDS), HEADER_SIZE, HEADER_SIZE, StreamInt(Image(RECORDS), 0)).1) == (TEST_MAKE, true)
    ensures MakeSpec(TEST_MAKE, {}, false) == Made(Image(RECORDS))
  {
    TestFileSize();
    DumpMakeRoundTrip(RECORDS);
    TestMakeText();
  }
}
