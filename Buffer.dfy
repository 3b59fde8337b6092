/*
 * The byte writer and reader of src/core/buffer.h. The writer appends to a
 * growable byte array (KArray); multi-byte values are stored in host byte
 * order, taken here to be little-endian, so the reader, which reads them
 * back byte by byte with the same order, returns what was written.
 */
module Buffer {
  import opened Config
  import opened Bits
  import KArray

  /** The n bytes of v, least significant first. */
  function LittleEndian(v: nat, n: nat): (r: seq<Byte>)
    ensures |r| == n
  {
    if n == 0 then [] else [v % 256] + LittleEndian(v / 256, n - 1)
  }

  /** The value of bytes read least significant first. */
  function FromLittleEndian(bytes: seq<Byte>): nat
  {
    if bytes == [] then 0 else bytes[0] + 256 * FromLittleEndian(bytes[1..])
  }

  lemma Pow2Byte(n: nat)
    requires n >= 1
    ensures Pow2(8 * n) == 256 * Pow2(8 * (n - 1))
  {
    assert Pow2(8) == 256;
    Pow2Add(8, 8 * (n - 1));
  }

  /** Decoding the n bytes of v < 2^(8n) gives back v. */
  lemma {:induction false} LittleEndianRoundTrip(v: nat, n: nat)
    requires v < Pow2(8 * n)
    decreases n
    ensures FromLittleEndian(LittleEndian(v, n)) == v
  {
    if n == 0 {
    } else {
      Pow2Byte(n);
      var r := LittleEndian(v, n);
      assert r[1..] == LittleEndian(v / 256, n - 1);
      LittleEndianRoundTrip(v / 256, n - 1);
    }
  }

  /** n bytes decode to a value below 2^(8n), and encoding it again gives the bytes. */
  lemma {:induction false} FromLittleEndianRoundTrip(bytes: seq<Byte>)
    ensures FromLittleEndian(bytes) < Pow2(8 * |bytes|)
    ensures LittleEndian(FromLittleEndian(bytes), |bytes|) == bytes
  {
    if bytes != [] {
      Pow2Byte(|bytes|);
      FromLittleEndianRoundTrip(bytes[1..]);
      var v := FromLittleEndian(bytes);
      assert v % 256 == bytes[0] && v / 256 == FromLittleEndian(bytes[1..]);
    }
  }

  /** Reading a + b: the value of b is shifted past the bytes of a. */
  lemma {:induction false} FromLittleEndianAppend(a: seq<Byte>, b: seq<Byte>)
    ensures FromLittleEndian(a + b) == FromLittleEndian(a) + Pow2(8 * |a|) * FromLittleEndian(b)
  {
    if a == [] {
      assert a + b == b;
    } else {
      assert (a + b)[1..] == a[1..] + b;
      FromLittleEndianAppend(a[1..], b);
      Pow2Byte(|a|);
      var p := Pow2(8 * (|a| - 1));
      var x, y := FromLittleEndian(a[1..]), FromLittleEndian(b);
      assert FromLittleEndian(a + b) == a[0] + 256 * (x + p * y);
      MulAssoc(256, p, y);
    }
  }

  lemma MulAssoc(a: nat, b: nat, c: nat)
    ensures a * (b * c) == (a * b) * c
  {
  }

  /** 2^8, 2^16, 2^32 and 2^64: the ranges of 1, 2, 4 and 8 bytes. */
  lemma ByteWidths()
    ensures Pow2(8 * 1) == 0x100 && Pow2(8 * 2) == 0x1_0000
    ensures Pow2(8 * 4) == 0x1_0000_0000 && Pow2(8 * 8) == 0x1_0000_0000_0000_0000
  {
    Pow2Is16And32Bit();
    Pow2Is64Bit();
  }

  /**
   * The reader's d2 << w | d1, where d1 is read from the bytes lo and w is
   * their width: the digits do not meet, so this is the value of lo + hi.
   */
  lemma ReadHalves(lo: seq<Byte>, hi: seq<Byte>, d1: nat, d2: nat, shift: nat)
    requires shift == Pow2(8 * |lo|) && d1 == FromLittleEndian(lo) && d2 == FromLittleEndian(hi)
    ensures Or(d2 * shift, d1) == FromLittleEndian(lo + hi)
  {
    FromLittleEndianRoundTrip(lo);
    OrDisjoint(d2, d1, 8 * |lo|);
    FromLittleEndianAppend(lo, hi);
  }

  lemma SliceSplit(a: array<Byte>, p: nat, q: nat, r: nat)
    requires p <= q <= r <= a.Length
    ensures a[p..r] == a[p..q] + a[q..r]
  {
  }

  lemma SliceOne(a: array<Byte>, p: nat)
    requires p < a.Length
    ensures a[p..p + 1] == [a[p]] && FromLittleEndian(a[p..p + 1]) == a[p]
  {
  }

  /** moz_buffer_writer_t */
  class Writer {
    const buf: KArray.Array<Byte>

    ghost predicate Valid()
      reads this, buf
    {
      buf.Valid()
    }

    /** The bytes written so far. */
    ghost function Contents(): seq<Byte>
      reads this, buf, buf.list
      requires Valid()
    {
      buf.Contents()
    }

    /** moz_buffer_writer_init: an empty writer with room for capacity bytes. */
    constructor Init(capacity: nat)
      ensures Valid() && fresh(buf) && fresh(buf.list)
      ensures Contents() == [] && buf.capacity == capacity
    {
      buf := new KArray.Array<Byte>.Init(capacity, 0);
    }

    /** moz_buffer_writer_length */
    function Length(): (r: nat)
      reads this, buf, buf.list
      requires Valid()
      ensures r == |Contents()|
    {
      buf.size
    }

    /** moz_buffer_writer_write8: ARRAY_add of one byte. */
    method Write8(v: Byte)
      requires Valid()
      modifies buf, buf.list
      ensures Valid() && Contents() == old(Contents()) + [v]
      ensures buf.list == old(buf.list) || fresh(buf.list)
    {
      buf.Add(v);
    }

    /**
     * The store shared by write16/32/64: make room for n bytes, store v in
     * host order just past the end, then count the n bytes.
     */
    method Put(v: nat, n: nat)
      requires Valid() && v < Pow2(8 * n)
      modifies buf, buf.list
      ensures Valid() && Contents() == old(Contents()) + LittleEndian(v, n)
      ensures buf.list == old(buf.list) || fresh(buf.list)
    {
      buf.EnsureSize(n);
      var bytes := LittleEndian(v, n);
      forall i | 0 <= i < n {
        buf.list[buf.size + i] := bytes[i];
      }
      buf.size := buf.size + n;
      assert buf.list[..buf.size] == old(Contents()) + bytes;
    }

    /** moz_buffer_writer_write16 */
    method Write16(v: nat)
      requires Valid() && v < 0x1_0000
      modifies buf, buf.list
      ensures Valid() && Contents() == old(Contents()) + LittleEndian(v, 2)
      ensures buf.list == old(buf.list) || fresh(buf.list)
    {
      ByteWidths();
      Put(v, 2);
    }

    /** moz_buffer_writer_write32 */
    method Write32(v: nat)
      requires Valid() && v < 0x1_0000_0000
      modifies buf, buf.list
      ensures Valid() && Contents() == old(Contents()) + LittleEndian(v, 4)
      ensures buf.list == old(buf.list) || fresh(buf.list)
    {
      ByteWidths();
      Put(v, 4);
    }

    /** moz_buffer_writer_write64 */
    method Write64(v: nat)
      requires Valid() && v < 0x1_0000_0000_0000_0000
      modifies buf, buf.list
      ensures Valid() && Contents() == old(Contents()) + LittleEndian(v, 8)
      ensures buf.list == old(buf.list) || fresh(buf.list)
    {
      ByteWidths();
      Put(v, 8);
    }

    /** moz_buffer_writer_dispose: release the bytes and zero the writer. */
    method Dispose()
      requires Valid()
      modifies buf
      ensures Valid() && Contents() == [] && buf.capacity == 0
    {
      buf.Dispose();
    }
  }

  /** moz_buffer_reader_t: a position over size bytes of list. */
  class Reader {
    var list: array<Byte>
    var size: nat
    /** -1 when the bytes are borrowed from a caller. */
    var capacity: int
    var pos: nat

    ghost predicate Valid()
      reads this
    {
      size <= list.Length && pos <= size
    }

    /** The bytes not read yet. */
    ghost function Unread(): seq<Byte>
      reads this, list
      requires Valid()
    {
      list[pos..size]
    }

    /** moz_buffer_reader_init: read the first size bytes of buf. */
    constructor Init(buf: array<Byte>, size: nat)
      requires size <= buf.Length
      ensures Valid() && list == buf && this.size == size && pos == 0 && capacity == -1
    {
      list := buf;
      this.size := size;
      capacity := -1;
      pos := 0;
    }

    /** moz_buffer_reader_init_from_writer: read the writer's bytes in place. */
    constructor FromWriter(w: Writer)
      requires w.Valid()
      ensures Valid() && list == w.buf.list && pos == 0 && capacity == w.buf.capacity
      ensures list[..size] == w.Contents()
    {
      list := w.buf.list;
      size := w.buf.size;
      capacity := w.buf.capacity;
      pos := 0;
    }

    /** moz_buffer_reader_has_next */
    function HasNext(): (r: bool)
      reads this, list
      requires Valid()
      ensures r <==> Unread() != []
    {
      pos < size
    }

    /** moz_buffer_reader_read8: the byte at pos, advancing pos by one. */
    method Read8() returns (r: Byte)
      requires Valid() && pos < size
      modifies this
      ensures Valid() && list == old(list) && size == old(size) && capacity == old(capacity)
      ensures pos == old(pos) + 1 && r == list[old(pos)]
      ensures [r] + Unread() == old(Unread())
    {
      r := list[pos];
      pos := pos + 1;
    }

    /** moz_buffer_reader_read16 on a little-endian host: d2 << 8 | d1. */
    method Read16() returns (r: nat)
      requires Valid() && pos + 2 <= size
      modifies this
      ensures Valid() && list == old(list) && size == old(size) && capacity == old(capacity)
      ensures pos == old(pos) + 2 && r == FromLittleEndian(list[old(pos)..pos])
    {
      ghost var p := pos;
      var d1 := Read8();
      ghost var q := pos;
      var d2 := Read8();
      SliceOne(list, p);
      SliceOne(list, q);
      SliceSplit(list, p, q, pos);
      ByteWidths();
      ReadHalves(list[p..q], list[q..pos], d1, d2, 0x100);
      r := Or((d2 as nat) * 0x100, d1);
    }

    /** moz_buffer_reader_read32 on a little-endian host: d2 << 16 | d1. */
    method Read32() returns (r: nat)
      requires Valid() && pos + 4 <= size
      modifies this
      ensures Valid() && list == old(list) && size == old(size) && capacity == old(capacity)
      ensures pos == old(pos) + 4 && r == FromLittleEndian(list[old(pos)..pos])
    {
      ghost var p := pos;
      var d1 := Read16();
      ghost var q := pos;
      var d2 := Read16();
      SliceSplit(list, p, q, pos);
      ByteWidths();
      ReadHalves(list[p..q], list[q..pos], d1, d2, 0x1_0000);
      r := Or(d2 * 0x1_0000, d1);
    }

    /** moz_buffer_reader_read64 on a little-endian host: d2 << 32 | d1. */
    method Read64() returns (r: nat)
      requires Valid() && pos + 8 <= size
      modifies this
      ensures Valid() && list == old(list) && size == old(size) && capacity == old(capacity)
      ensures pos == old(pos) + 8 && r == FromLittleEndian(list[old(pos)..pos])
    {
      ghost var p := pos;
      var d1 := Read32();
      ghost var q := pos;
      var d2 := Read32();
      SliceSplit(list, p, q, pos);
      ByteWidths();
      ReadHalves(list[p..q], list[q..pos], d1, d2, 0x1_0000_0000);
      r := Or(d2 * 0x1_0000_0000, d1);
    }

  }

  /** test_buffer_reader_read8: "hello" reads back byte by byte, then has_next is false. */
  method ReadHello() returns (got: seq<Byte>, more: bool)
    ensures got == [104, 101, 108, 108, 111] && !more
  {
    var text := new Byte[5];
    text[0], text[1], text[2], text[3], text[4] := 104, 101, 108, 108, 111;
    var r := new Reader.Init(text, 5);
    var c0 := r.Read8();
    var c1 := r.Read8();
    var c2 := r.Read8();
    var c3 := r.Read8();
    var c4 := r.Read8();
    got := [c0, c1, c2, c3, c4];
    more := r.HasNext();
  }

  /** The byte values of the buffer tests. */
  lemma TestBytes()
    ensures FromLittleEndian([1, 2]) == 0x0201 && FromLittleEndian([3, 4]) == 0x0403
    ensures LittleEndian(0x40302010, 4) == [0x10, 0x20, 0x30, 0x40]
    ensures LittleEndian(0x0102, 2) == [2, 1] && LittleEndian(0x0304, 2) == [4, 3]
    ensures FromLittleEndian([0x10, 0x20, 0x30, 0x40]) == 0x40302010
    ensures FromLittleEndian([2, 1]) == 0x0102 && FromLittleEndian([4, 3]) == 0x0304
  {
    assert FromLittleEndian([2]) == 2 && FromLittleEndian([4]) == 4;
    assert FromLittleEndian([1]) == 1 && FromLittleEndian([3]) == 3;
    assert FromLittleEndian([0x40]) == 0x40;
    assert FromLittleEndian([0x30, 0x40]) == 0x4030;
    assert FromLittleEndian([0x20, 0x30, 0x40]) == 0x403020;
    assert LittleEndian(1, 1) == [1] && LittleEndian(3, 1) == [3];
    assert LittleEndian(0x40, 1) == [0x40];
    assert LittleEndian(0x4030, 2) == [0x30, 0x40];
    assert LittleEndian(0x403020, 3) == [0x20, 0x30, 0x40];
  }

  /** test_buffer_reader_read_many: bytes 1, 2, 3, 4 read as 0x0201 then 0x0403. */
  method ReadMany() returns (first: nat, second: nat, more: bool)
    ensures first == 0x0201 && second == 0x0403 && !more
  {
    TestBytes();
    var text := new Byte[4];
    text[0], text[1], text[2], text[3] := 1, 2, 3, 4;
    var r := new Reader.Init(text, 4);
    first := r.Read16();
    assert text[0..2] == [1, 2];
    second := r.Read16();
    assert text[2..4] == [3, 4];
    more := r.HasNext();
  }

  /** The writes of test_buffer_writer_write_many: 0x40302010, 0x0102, 0x0304. */
  method WriteThree() returns (w: Writer)
    ensures w.Valid() && fresh(w.buf) && w.Contents() == [0x10, 0x20, 0x30, 0x40, 2, 1, 4, 3]
  {
    TestBytes();
    w := new Writer.Init(32);
    w.Write32(0x40302010);
    w.Write16(0x0102);
    w.Write16(0x0304);
  }

  lemma SlicesOfEight(a: array<Byte>)
    requires 8 <= a.Length && a[..8] == [0x10, 0x20, 0x30, 0x40, 2, 1, 4, 3]
    ensures a[0..4] == [0x10, 0x20, 0x30, 0x40] && a[4..6] == [2, 1] && a[6..8] == [4, 3]
  {
    assert a[0..4] == a[..8][0..4];
    assert a[4..6] == a[..8][4..6];
    assert a[6..8] == a[..8][6..8];
  }

  /**
   * test_buffer_writer_write_many: write 0x40302010, 0x0102 and 0x0304,
   * read them back through a reader over the writer, then dispose.
   */
  method WriteMany() returns (length: nat, a: nat, b: nat, c: nat, more: bool, disposed: nat)
    ensures length == 8 && a == 0x40302010 && b == 0x0102 && c == 0x0304 && !more && disposed == 0
  {
    TestBytes();
    var w := WriteThree();
    length := w.Length();
    var r := new Reader.FromWriter(w);
    SlicesOfEight(r.list);
    a := r.Read32();
    b := r.Read16();
    c := r.Read16();
    more := r.HasNext();
    w.Dispose();
    disposed := w.Length();
  }
}
