/** The reader `Cdb` of the `src` tree: the constructor decodes the 2048-byte
    header into `slotTable`, `findstart` and `findnext` run the lookup state
    machine over the open file. The file is its content; every read first
    seeks, so the file pointer is not kept between calls. */
module CdbReader {
  import opened Bytes
  import opened CdbHash
  import opened CdbFormat

  /** `seek(q)` and four `readUnsignedByte()`s: the little-endian `int` at
      `q`, or nothing when the seek is to a negative position or a read meets
      the end of the file (both an `IOException`). */
  function IntAt(file: seq<Byte>, q: int): (r: Option<Int32>)
    ensures r.Some? <==> 0 <= q && q + 4 <= |file|
  {
    if 0 <= q && q + 4 <= |file| then Some(Wrap32(ReadLe(file, q))) else None
  }

  /** Four bytes at `off` combined as `b0 | b1 << 8 | b2 << 16 | b3 << 24` in
      `int` arithmetic. */
  method LeInt(bytes: seq<Byte>, off: nat) returns (v: Int32)
    requires off + 4 <= |bytes|
    ensures v == Wrap32(ReadLe(bytes, off))
  {
    ReadLeBytes(bytes, off);
    v := Wrap32(Value(bytes[off]) + 256 * Value(bytes[off + 1]) + 65536 * Value(bytes[off + 2]) + 16777216 * Value(bytes[off + 3]));
  }

  /** `readFully` of `n` bytes from `q` on, or nothing at the end of the file. */
  function BytesAt(file: seq<Byte>, q: int, n: int): (r: Option<seq<Byte>>)
    ensures r.Some? <==> 0 <= q && 0 <= n && q + n <= |file|
    ensures r.Some? ==> |r.value| == n
  {
    if 0 <= q && 0 <= n && q + n <= |file| then Some(file[q..q + n]) else None
  }

  /** The first `n` `int`s of the header, as the constructor stores them:
      entry `2i` is table `i`'s position, entry `2i + 1` its slot count. */
  function HeaderInts(file: seq<Byte>, n: nat): (r: seq<Int32>)
    requires 4 * n <= |file|
    ensures |r| == n
  {
    if n == 0 then [] else HeaderInts(file, n - 1) + [Wrap32(ReadLe(file, 4 * (n - 1)))]
  }

  /** The decoded header `int`s are the `int`s at every fourth byte. */
  lemma {:induction false} HeaderIntsOf(file: seq<Byte>, ints: seq<Int32>)
    requires 4 * |ints| <= |file|
    requires forall j :: 0 <= j < |ints| ==> ints[j] == Wrap32(ReadLe(file, 4 * j))
    ensures HeaderInts(file, |ints|) == ints
  {
    if ints != [] {
      HeaderIntsOf(file, ints[..|ints| - 1]);
      assert ints == ints[..|ints| - 1] + [ints[|ints| - 1]];
    }
  }

  /** `slotTable` after the constructor: the 512 header `int`s, or `null`
      when the file is too short for the 2048-byte header. */
  function SlotTable(file: seq<Byte>): (r: Option<seq<Int32>>)
    ensures r.Some? ==> |r.value| == 2 * BUCKETS
  {
    if |file| < HEADER_SIZE then None else Some(HeaderInts(file, 2 * BUCKETS))
  }

  /** The search state: the number of slots examined, the key's hash, the
      table's slot count and position, and the position of the next slot. */
  datatype Search = Search(loop: Int32, khash: Int32, hslots: Int32, hpos: Int32, kpos: Int32)

  /** What `findnext` ends with: the data, `null`, or the
      `NegativeArraySizeException` of `new byte[dlen]` for a negative data
      length, which `findnext` does not catch. */
  datatype Found = Hit(data: seq<Byte>) | Miss | Thrown

  /** What the record at `pos` says about the key: not this key (go on to the
      next slot), or the end of the call. */
  datatype Examined = Mismatch | Ends(found: Found)

  /** Reading the record a slot points to: its key length must be the key's,
      its key bytes the key's; then its data is returned. A read that fails
      ends the call with `null`. */
  function Examine(file: seq<Byte>, key: seq<Byte>, pos: Int32): Examined
  {
    match IntAt(file, pos)
    case None => Ends(Miss)
    case Some(klen) =>
      if klen != |key| then Mismatch
      else
        match IntAt(file, pos + 4)
        case None => Ends(Miss)
        case Some(dlen) =>
          match BytesAt(file, pos + 8, klen)
          case None => Ends(Miss)
          case Some(k) =>
            if k != key then Mismatch
            else if dlen < 0 then Ends(Thrown)
            else
              match BytesAt(file, pos + 8 + klen, dlen)
              case None => Ends(Miss)
              case Some(d) => Ends(Hit(d))
  }

  /** One more slot examined: `loop += 1`, and `kpos += 8`, back to `hpos`
      when it reaches `hpos + (hslots << 3)`. */
  function Advanced(s: Search): Search
    requires s.loop < s.hslots
  {
    var k := Wrap32(s.kpos + 8);
    s.(loop := s.loop + 1, kpos := if k == Wrap32(s.hpos + s.hslots * 8) then s.hpos else k)
  }

  /** The loop of `findnext`: examine the slot at `kpos` until a key matches,
      a slot is empty, a read fails or `hslots` slots have been examined. */
  function Walk(file: seq<Byte>, key: seq<Byte>, s: Search): (r: (Found, Search))
    decreases s.hslots - s.loop
  {
    if s.loop >= s.hslots then (Miss, s)
    else
      match (IntAt(file, s.kpos), IntAt(file, s.kpos + 4))
      case (Some(h), Some(pos)) =>
        if pos == 0 then (Miss, s)
        else if h != s.khash then Walk(file, key, Advanced(s))
        else (
          match Examine(file, key, pos)
          case Mismatch => Walk(file, key, Advanced(s))
          case Ends(f) => (f, Advanced(s)))
      case _ => (Miss, s)
  }

  /** The walk ends where it is, with `null`, when all slots have been
      examined, the slot cannot be read or the slot is empty. */
  lemma WalkStops(file: seq<Byte>, key: seq<Byte>, s: Search)
    requires s.loop >= s.hslots || IntAt(file, s.kpos).None? || IntAt(file, s.kpos + 4).None? || IntAt(file, s.kpos + 4) == Some(0)
    ensures Walk(file, key, s) == (Miss, s)
  {
  }

  /** A slot with another hash, or with a record of another key, is passed. */
  lemma WalkPasses(file: seq<Byte>, key: seq<Byte>, s: Search, h: Int32, pos: Int32)
    requires s.loop < s.hslots && IntAt(file, s.kpos) == Some(h) && IntAt(file, s.kpos + 4) == Some(pos) && pos != 0
    requires h != s.khash || Examine(file, key, pos) == Mismatch
    ensures Walk(file, key, s) == Walk(file, key, Advanced(s))
  {
  }

  /** A slot whose record ends the call ends the walk just past that slot. */
  lemma WalkEnds(file: seq<Byte>, key: seq<Byte>, s: Search, h: Int32, pos: Int32, f: Found)
    requires s.loop < s.hslots && IntAt(file, s.kpos) == Some(h) && IntAt(file, s.kpos + 4) == Some(pos) && pos != 0
    requires h == s.khash && Examine(file, key, pos) == Ends(f)
    ensures Walk(file, key, s) == (f, Advanced(s))
  {
  }

  /** The start of a search, on the first `findnext` after `findstart`: the
      key's bucket `u & 255`, its table from the header, and the home slot
      `hpos + ((u >>> 8) % hslots << 3)`. */
  function Located(table: seq<Int32>, key: seq<Byte>): Search
    requires |table| == 2 * BUCKETS && table[2 * Bucket(Wrap32(Hash(key))) + 1] != 0
  {
    var u := Wrap32(Hash(key));
    var hslots := table[2 * Bucket(u) + 1];
    var hpos := table[2 * Bucket(u)];
    Search(0, u, hslots, hpos, Wrap32(hpos + 8 * JavaRem(Unsigned(u) / 256, hslots)))
  }

  /** `findnext(key)` from the state `s`: nothing without a header; on the
      first call of a search, no table for the key's bucket ends it at once
      (with `hslots` set to 0), otherwise the walk starts at the home slot;
      later calls go on from where the last one stopped. */
  function Searched(file: seq<Byte>, table: Option<seq<Int32>>, key: seq<Byte>, s: Search): (r: (Found, Search))
    requires table.Some? ==> |table.value| == 2 * BUCKETS
  {
    if table.None? then (Miss, s)
    else if s.loop == 0 then
      var u := Wrap32(Hash(key));
      var hslots := table.value[2 * Bucket(u) + 1];
      if hslots == 0 then (Miss, s.(hslots := 0))
      else Walk(file, key, Located(table.value, key))
    else Walk(file, key, s)
  }

  /** `hash`: the key's 32-bit hash, returned as an `int`. */
  method KeyHash(key: seq<Byte>) returns (r: Int32)
    ensures Unsigned(r) == Hash(key) && r == Wrap32(Hash(key))
  {
    var h: int := CDB_HASHSTART;
    for i := 0 to |key|
      invariant h == Hash(key[..i])
    {
      var l := h * 32;
      TimesThirtyThree(key[..i], l);
      h := h + Unsigned(l);
      h := Unsigned(h);
      var k := Signed(key[i]);
      k := (k + 0x100) % 256;
      HashStep(key, i, h, k);
      h := Xor(h, k);
    }
    assert key[..|key|] == key;
    WrapUnsigned(h);
    r := Wrap32(h);
  }

  /** The fold of `hash` one byte further: `(h * 33) & 0xffffffff`, then `^ k`
      with the byte's unsigned value `k`. */
  lemma HashStep(key: seq<Byte>, i: nat, h: int, k: int)
    requires i < |key| && h == Unsigned(Hash(key[..i]) * 33) && k == Value(key[i])
    ensures h >= 0 && k >= 0 && Xor(h, k) == Hash(key[..i + 1])
  {
    assert key[..i + 1] == key[..i] + [key[i]];
    HashSnoc(key[..i], key[i]);
    UnsignedOfU32(k);
  }

  /** `h + (h << 5 & 0xffffffff)`, masked, is `33 * h` modulo 2^32. */
  lemma TimesThirtyThree(s: seq<Byte>, l: int)
    requires l == Hash(s) * 32
    ensures Unsigned(Hash(s) + Unsigned(l)) == Unsigned(Hash(s) * 33)
  {
    UnsignedAdd(Hash(s), l);
  }

  class Cdb {
    /** The content of the open file. */
    const file: seq<Byte>
    /** The 256 header entries `(pos, len)` as 512 `int`s, or `null`. */
    var slotTable: array?<Int32>
    var loop: Int32
    var khash: Int32
    var hslots: Int32
    var hpos: Int32
    var kpos: Int32

    ghost predicate Valid()
      reads this
    {
      slotTable != null ==> slotTable.Length == 2 * BUCKETS
    }

    /** The search state. */
    function State(): Search
      reads this
    {
      Search(loop, khash, hslots, hpos, kpos)
    }

    /** The decoded header, if there is one. */
    function Header(): (r: Option<seq<Int32>>)
      requires Valid()
      reads this, slotTable
      ensures r.Some? ==> |r.value| == 2 * BUCKETS
    {
      if slotTable == null then None else Some(slotTable[..])
    }

    /** `new Cdb(file)`: read the 2048 header bytes and decode them into 256
        pairs of little-endian `int`s; a file too short for them leaves the
        table `null`, which is not an error. */
    constructor (file: seq<Byte>)
      ensures Valid() && this.file == file && Header() == SlotTable(file)
      ensures State() == Search(0, 0, 0, 0, 0)
    {
      this.file := file;
      loop, khash, hslots, hpos, kpos := 0, 0, 0, 0, 0;
      if |file| < HEADER_SIZE {
        slotTable := null;
      } else {
        var ints := DecodeHeader(file);
        slotTable := ints;
      }
    }

    /** The constructor's decoding loop: each round reads a table's position
        and slot count from the next 8 header bytes. */
    static method DecodeHeader(file: seq<Byte>) returns (ints: array<Int32>)
      requires HEADER_SIZE <= |file|
      ensures fresh(ints) && ints[..] == HeaderInts(file, 2 * BUCKETS)
    {
      ints := new Int32[2 * BUCKETS];
      var n := 0;
      while n < 2 * BUCKETS
        invariant n % 2 == 0 && n <= 2 * BUCKETS
        invariant forall j :: 0 <= j < n ==> ints[j] == Wrap32(ReadLe(file, 4 * j))
      {
        var pos := LeInt(file, 4 * n);
        var len := LeInt(file, 4 * (n + 1));
        ints[n] := pos;
        ints[n + 1] := len;
        n := n + 2;
      }
      HeaderIntsOf(file, ints[..]);
    }

    /** `findstart`: the next `findnext` starts a new search. */
    method FindStart()
      modifies this`loop
      ensures loop == 0
    {
      loop := 0;
    }

    /** `find`: `findstart`, then `findnext`. */
    method Find(key: seq<Byte>) returns (r: Found)
      requires Valid()
      modifies this`loop, this`khash, this`hslots, this`hpos, this`kpos
      ensures (r, State()) == Searched(file, Header(), key, old(State()).(loop := 0))
    {
      FindStart();
      r := FindNext(key);
    }

    /** Four `readUnsignedByte()`s after `seek(q)`, combined into an `int`. */
    method ReadInt(q: int) returns (r: Option<Int32>)
      ensures r == IntAt(file, q)
    {
      if q < 0 || q + 4 > |file| {
        return None;
      }
      var v := LeInt(file, q);
      return Some(v);
    }

    /** The comparison loop: the stored key `k` against the key asked for. */
    method SameKey(k: seq<Byte>, key: seq<Byte>) returns (same: bool)
      requires |k| == |key|
      ensures same <==> k == key
    {
      same := true;
      for i := 0 to |k|
        invariant same <==> k[..i] == key[..i]
      {
        if k[i] != key[i] {
          same := false;
          break;
        }
        assert k[..i + 1] == k[..i] + [k[i]] && key[..i + 1] == key[..i] + [key[i]];
      }
      assert same ==> k[..|k|] == k && key[..|key|] == key;
      assert !same ==> exists i :: 0 <= i < |k| && k[i] != key[i];
    }

    /** `findnext`: the next data stored under `key` in this search. */
    method FindNext(key: seq<Byte>) returns (r: Found)
      requires Valid()
      modifies this`loop, this`khash, this`hslots, this`hpos, this`kpos
      ensures (r, State()) == Searched(file, Header(), key, old(State()))
    {
      ghost var before := State();
      if slotTable == null {
        return Miss;
      }
      ghost var table := slotTable[..];
      assert Header() == Some(table);
      if loop == 0 {
        var located := Locate(key);
        if !located {
          assert Searched(file, Some(table), key, before) == (Miss, State());
          return Miss;
        }
        assert Searched(file, Some(table), key, before) == Walk(file, key, State());
      } else {
        assert Searched(file, Some(table), key, before) == Walk(file, key, State());
      }
      r := WalkSlots(key);
    }

    /** The first call of a search: the key's bucket, its table and the home
        slot, or `null` at once when the bucket has no table. */
    method Locate(key: seq<Byte>) returns (located: bool)
      requires Valid() && slotTable != null && loop == 0
      modifies this`khash, this`hslots, this`hpos, this`kpos
      ensures located <==> slotTable[2 * Bucket(Wrap32(Hash(key))) + 1] != 0
      ensures located ==> State() == Located(slotTable[..], key)
      ensures !located ==> State() == old(State()).(hslots := 0)
    {
      var u := KeyHash(key);
      var slot := Bucket(u);
      hslots := slotTable[2 * slot + 1];
      if hslots == 0 {
        return false;
      }
      hpos := slotTable[2 * slot];
      khash := u;
      var home := JavaRem(Unsigned(u) / 256, hslots);
      kpos := Wrap32(hpos + 8 * home);
      return true;
    }

    /** The loop of `findnext`, from the current state. */
    method WalkSlots(key: seq<Byte>) returns (r: Found)
      modifies this`loop, this`kpos
      ensures (r, State()) == Walk(file, key, old(State()))
    {
      while loop < hslots
        invariant Walk(file, key, State()) == Walk(file, key, old(State()))
        decreases hslots - loop
      {
        var done;
        done, r := ExamineSlot(key);
        if done {
          return r;
        }
      }
      WalkStops(file, key, State());
      return Miss;
    }

    /** One round of the loop of `findnext`: the slot at `kpos` either ends
        the call or is passed, moving the search to the next slot. */
    method ExamineSlot(key: seq<Byte>) returns (done: bool, r: Found)
      requires loop < hslots
      modifies this`loop, this`kpos
      ensures done ==> (r, State()) == Walk(file, key, old(State()))
      ensures !done ==> State() == Advanced(old(State())) && Walk(file, key, State()) == Walk(file, key, old(State()))
    {
      ghost var before := State();
      var h := ReadInt(kpos);
      var pos := ReadInt(kpos + 4);
      if h.None? || pos.None? || pos.value == 0 {
        WalkStops(file, key, before);
        return true, Miss;
      }
      var next := Wrap32(kpos + 8);
      if next == Wrap32(hpos + hslots * 8) {
        next := hpos;
      }
      assert next == Advanced(before).kpos;
      loop := loop + 1;
      kpos := next;
      assert State() == Advanced(before);
      if h.value != khash {
        WalkPasses(file, key, before, h.value, pos.value);
        return false, Miss;
      }
      var examined := ExamineRecord(key, pos.value);
      if examined.Mismatch? {
        WalkPasses(file, key, before, h.value, pos.value);
        return false, Miss;
      }
      WalkEnds(file, key, before, h.value, pos.value, examined.found);
      return true, examined.found;
    }

    /** The body of the loop once the slot's hash matches: the record's
        lengths, its key compared with the key, its data. */
    method ExamineRecord(key: seq<Byte>, pos: Int32) returns (r: Examined)
      ensures r == Examine(file, key, pos)
    {
      var klen := ReadInt(pos);
      if klen.None? {
        return Ends(Miss);
      }
      if klen.value != |key| {
        return Mismatch;
      }
      var dlen := ReadInt(pos + 4);
      if dlen.None? {
        return Ends(Miss);
      }
      var k := BytesAt(file, pos + 8, klen.value);
      if k.None? {
        return Ends(Miss);
      }
      var same := SameKey(k.value, key);
      if !same {
        return Mismatch;
      }
      if dlen.value < 0 {
        return Ends(Thrown);
      }
      var d := BytesAt(file, pos + 8 + klen.value, dlen.value);
      if d.None? {
        return Ends(Miss);
      }
      return Ends(Hit(d.value));
    }
  }
}
