/** The target's address space as seen through PTRACE_PEEKDATA and
    PTRACE_POKEDATA: machine words of eight little-endian bytes
    (debugger_template.c, read_memory and write_memory, and the word
    arithmetic of enable_breakpoint and disable_breakpoint). */
module Memory {
  import opened Wrappers

  type Byte = bv8
  type Word = bv64
  type Addr = bv64

  /** The memory cell at an address. The address space maps cells to bytes
      (a bare bv64 is not used as the map key because the verifier does
      not relate updates of bv64-keyed maps to their lookups). */
  datatype Cell = At(addr: Addr)

  /** The mapped bytes of the target. */
  type Mem = map<Cell, Byte>

  /** Byte k of a word, byte 0 being the least significant. */
  function ByteOf(w: Word, k: nat): Byte
    requires k < 8
  {
    if k == 0 then (w & 0xFF) as Byte else ByteOf(w >> 8, k - 1)
  }

  /** The bytes of a word in closed form: byte k is bits 8k..8k+7. */
  lemma {:induction false} ByteOfShifts(w: Word)
    ensures ByteOf(w, 0) == ((w) & 0xFF) as Byte
    ensures ByteOf(w, 1) == ((w >> 8) & 0xFF) as Byte
    ensures ByteOf(w, 2) == ((w >> 16) & 0xFF) as Byte
    ensures ByteOf(w, 3) == ((w >> 24) & 0xFF) as Byte
    ensures ByteOf(w, 4) == ((w >> 32) & 0xFF) as Byte
    ensures ByteOf(w, 5) == ((w >> 40) & 0xFF) as Byte
    ensures ByteOf(w, 6) == ((w >> 48) & 0xFF) as Byte
    ensures ByteOf(w, 7) == ((w >> 56) & 0xFF) as Byte
  {
    assert w >> 8 >> 8 == w >> 16 && w >> 16 >> 8 == w >> 24 && w >> 24 >> 8 == w >> 32;
    assert w >> 32 >> 8 == w >> 40 && w >> 40 >> 8 == w >> 48 && w >> 48 >> 8 == w >> 56;
    assert ByteOf(w, 2) == ByteOf(w >> 8, 1) == ByteOf(w >> 16, 0);
    assert ByteOf(w, 3) == ByteOf(w >> 8, 2) == ByteOf(w >> 16, 1) == ByteOf(w >> 24, 0);
    assert ByteOf(w, 4) == ByteOf(w >> 8, 3) == ByteOf(w >> 16, 2) == ByteOf(w >> 24, 1) == ByteOf(w >> 32, 0);
    assert ByteOf(w, 5) == ByteOf(w >> 8, 4) == ByteOf(w >> 16, 3) == ByteOf(w >> 24, 2) == ByteOf(w >> 32, 1) == ByteOf(w >> 40, 0);
    assert ByteOf(w, 6) == ByteOf(w >> 8, 5) == ByteOf(w >> 16, 4) == ByteOf(w >> 24, 3) == ByteOf(w >> 32, 2) == ByteOf(w >> 40, 1) == ByteOf(w >> 48, 0);
    assert ByteOf(w, 7) == ByteOf(w >> 8, 6) == ByteOf(w >> 16, 5) == ByteOf(w >> 24, 4) == ByteOf(w >> 32, 3) == ByteOf(w >> 40, 2) == ByteOf(w >> 48, 1) == ByteOf(w >> 56, 0);
  }

  /** Pushing byte b below y: byte 0 of the result is b and byte k+1 is
      byte k of y. */
  lemma ByteOfPush(b: Byte, y: Word, k: nat)
    requires k < 8
    ensures ByteOf((b as Word) | (y << 8), k) == if k == 0 then b else ByteOf(y, k - 1)
  {
    ByteOfShifts(y);
    ByteOfShifts((b as Word) | (y << 8));
  }

  /** A word is determined by its eight bytes. */
  lemma WordFromLanes(x: Word, y: Word)
    requires ((x >> 0) & 0xFF) as Byte == ((y >> 0) & 0xFF) as Byte
    requires ((x >> 8) & 0xFF) as Byte == ((y >> 8) & 0xFF) as Byte
    requires ((x >> 16) & 0xFF) as Byte == ((y >> 16) & 0xFF) as Byte
    requires ((x >> 24) & 0xFF) as Byte == ((y >> 24) & 0xFF) as Byte
    requires ((x >> 32) & 0xFF) as Byte == ((y >> 32) & 0xFF) as Byte
    requires ((x >> 40) & 0xFF) as Byte == ((y >> 40) & 0xFF) as Byte
    requires ((x >> 48) & 0xFF) as Byte == ((y >> 48) & 0xFF) as Byte
    requires ((x >> 56) & 0xFF) as Byte == ((y >> 56) & 0xFF) as Byte
    ensures x == y
  {
  }

  /** The word of the bytes bs[i..], least significant first. */
  function PackFrom(bs: seq<Byte>, i: nat): Word
    requires i <= |bs| <= 8
    decreases |bs| - i
  {
    if i == |bs| then 0 else (bs[i] as Word) | (PackFrom(bs, i + 1) << 8)
  }

  /** The word whose bytes, least significant first, are bs. */
  function Pack(bs: seq<Byte>): Word
    requires |bs| <= 8
  {
    PackFrom(bs, 0)
  }

  /** Byte k of the word packed from bs[i..] is bs[i+k]. */
  lemma {:induction false} PackFromByte(bs: seq<Byte>, i: nat, k: nat)
    requires i + k < |bs| <= 8
    ensures ByteOf(PackFrom(bs, i), k) == bs[i + k]
    decreases k
  {
    var rest := PackFrom(bs, i + 1);
    assert PackFrom(bs, i) == (bs[i] as Word) | (rest << 8);
    ByteOfPush(bs[i], rest, k);
    if k > 0 {
      PackFromByte(bs, i + 1, k - 1);
      assert i + 1 + (k - 1) == i + k;
    }
  }

  /** The eight bytes of a word, least significant first. */
  function Bytes(w: Word): (bs: seq<Byte>)
    ensures |bs| == 8
  {
    [ByteOf(w, 0), ByteOf(w, 1), ByteOf(w, 2), ByteOf(w, 3),
     ByteOf(w, 4), ByteOf(w, 5), ByteOf(w, 6), ByteOf(w, 7)]
  }

  /** Two words with the same bytes are the same word. */
  lemma BytesInjective(x: Word, y: Word)
    requires Bytes(x) == Bytes(y)
    ensures x == y
  {
    ByteOfShifts(x);
    ByteOfShifts(y);
    assert ByteOf(x, 0) == Bytes(x)[0] == ByteOf(y, 0);
    assert ByteOf(x, 1) == Bytes(x)[1] == ByteOf(y, 1);
    assert ByteOf(x, 2) == Bytes(x)[2] == ByteOf(y, 2);
    assert ByteOf(x, 3) == Bytes(x)[3] == ByteOf(y, 3);
    assert ByteOf(x, 4) == Bytes(x)[4] == ByteOf(y, 4);
    assert ByteOf(x, 5) == Bytes(x)[5] == ByteOf(y, 5);
    assert ByteOf(x, 6) == Bytes(x)[6] == ByteOf(y, 6);
    assert ByteOf(x, 7) == Bytes(x)[7] == ByteOf(y, 7);
    WordFromLanes(x, y);
  }

  /** Splitting a packed word gives back its bytes. */
  lemma PackThenSplit(bs: seq<Byte>)
    requires |bs| == 8
    ensures Bytes(Pack(bs)) == bs
  {
    forall k | 0 <= k < 8 ensures Bytes(Pack(bs))[k] == bs[k] {
      PackFromByte(bs, 0, k);
    }
  }

  /** Packing the bytes of a word gives back the word. */
  lemma SplitThenPack(w: Word)
    ensures Pack(Bytes(w)) == w
  {
    PackThenSplit(Bytes(w));
    BytesInjective(Pack(Bytes(w)), w);
  }

  /** (w & ~0xff) | b has low byte b and the upper seven bytes of w. */
  lemma SpliceBits(w: Word, b: Byte)
    ensures (((w & !0xFF) | (b as Word)) & 0xFF) as Byte == b
    ensures ((((w & !0xFF) | (b as Word)) >> 8) & 0xFF) as Byte == ((w >> 8) & 0xFF) as Byte
    ensures ((((w & !0xFF) | (b as Word)) >> 16) & 0xFF) as Byte == ((w >> 16) & 0xFF) as Byte
    ensures ((((w & !0xFF) | (b as Word)) >> 24) & 0xFF) as Byte == ((w >> 24) & 0xFF) as Byte
    ensures ((((w & !0xFF) | (b as Word)) >> 32) & 0xFF) as Byte == ((w >> 32) & 0xFF) as Byte
    ensures ((((w & !0xFF) | (b as Word)) >> 40) & 0xFF) as Byte == ((w >> 40) & 0xFF) as Byte
    ensures ((((w & !0xFF) | (b as Word)) >> 48) & 0xFF) as Byte == ((w >> 48) & 0xFF) as Byte
    ensures ((((w & !0xFF) | (b as Word)) >> 56) & 0xFF) as Byte == ((w >> 56) & 0xFF) as Byte
  {
  }

  /** Byte k of (w & ~0xff) | b: b for k = 0, byte k of w otherwise. */
  lemma SpliceByte(w: Word, b: Byte, k: nat)
    requires k < 8
    ensures ByteOf((w & !0xFF) | (b as Word), k) == if k == 0 then b else ByteOf(w, k)
  {
    SpliceBits(w, b);
    ByteOfShifts(w);
    ByteOfShifts((w & !0xFF) | (b as Word));
    if k == 0 {
    } else if k == 1 {
    } else if k == 2 {
    } else if k == 3 {
    } else if k == 4 {
    } else if k == 5 {
    } else if k == 6 {
    } else {
      assert k == 7;
    }
  }

  /** (w & ~0xff) | b replaces byte 0 of w by b and keeps the other seven. */
  lemma SpliceKeepsHighBytes(w: Word, b: Byte)
    ensures ByteOf((w & !0xFF) | (b as Word), 0) == b
    ensures ByteOf((w & !0xFF) | (b as Word), 1) == ByteOf(w, 1)
    ensures ByteOf((w & !0xFF) | (b as Word), 2) == ByteOf(w, 2)
    ensures ByteOf((w & !0xFF) | (b as Word), 3) == ByteOf(w, 3)
    ensures ByteOf((w & !0xFF) | (b as Word), 4) == ByteOf(w, 4)
    ensures ByteOf((w & !0xFF) | (b as Word), 5) == ByteOf(w, 5)
    ensures ByteOf((w & !0xFF) | (b as Word), 6) == ByteOf(w, 6)
    ensures ByteOf((w & !0xFF) | (b as Word), 7) == ByteOf(w, 7)
  {
    SpliceByte(w, b, 0); SpliceByte(w, b, 1); SpliceByte(w, b, 2); SpliceByte(w, b, 3);
    SpliceByte(w, b, 4); SpliceByte(w, b, 5); SpliceByte(w, b, 6); SpliceByte(w, b, 7);
  }

  /** x is one of the eight addresses a, a+1, ..., a+7 (wrapping at 2^64). */
  predicate InWord(a: Addr, x: Addr) {
    || x == a || x == a + 1 || x == a + 2 || x == a + 3
    || x == a + 4 || x == a + 5 || x == a + 6 || x == a + 7
  }

  /** All eight bytes of the word at a are mapped. */
  predicate Mapped(m: Mem, a: Addr) {
    && At(a) in m && At(a + 1) in m && At(a + 2) in m && At(a + 3) in m
    && At(a + 4) in m && At(a + 5) in m && At(a + 6) in m && At(a + 7) in m
  }

  /** The bytes stored at a..a+7, in address order. */
  function WordBytes(m: Mem, a: Addr): (bs: seq<Byte>)
    requires Mapped(m, a)
    ensures |bs| == 8
  {
    [m[At(a)], m[At(a + 1)], m[At(a + 2)], m[At(a + 3)],
     m[At(a + 4)], m[At(a + 5)], m[At(a + 6)], m[At(a + 7)]]
  }

  /** read_memory: the word at a, whose least significant byte is the one
      at a; None when part of the word is not mapped. */
  function ReadWord(m: Mem, a: Addr): (r: Option<Word>)
    ensures r.Some? <==> Mapped(m, a)
    ensures r.Some? ==> Bytes(r.value) == WordBytes(m, a)
  {
    if Mapped(m, a) then
      PackThenSplit(WordBytes(m, a));
      Some(Pack(WordBytes(m, a)))
    else
      None
  }

  /** Stores the bytes bs at a, a+1, ..., one byte per cell. */
  function Store(m: Mem, a: Addr, bs: seq<Byte>): Mem
    decreases |bs|
  {
    if |bs| == 0 then m else Store(m[At(a) := bs[0]], a + 1, bs[1..])
  }

  /** Storing eight bytes, written out as eight single-cell updates. */
  lemma {:induction false} StoreUnrolled(m: Mem, a: Addr, bs: seq<Byte>)
    requires |bs| == 8
    ensures Store(m, a, bs) ==
      m[At(a) := bs[0]][At(a + 1) := bs[1]][At(a + 2) := bs[2]][At(a + 3) := bs[3]]
       [At(a + 4) := bs[4]][At(a + 5) := bs[5]][At(a + 6) := bs[6]][At(a + 7) := bs[7]]
  {
    var m1 := m[At(a) := bs[0]];
    var m2 := m1[At(a + 1) := bs[1]];
    var m3 := m2[At(a + 2) := bs[2]];
    var m4 := m3[At(a + 3) := bs[3]];
    var m5 := m4[At(a + 4) := bs[4]];
    var m6 := m5[At(a + 5) := bs[5]];
    var m7 := m6[At(a + 6) := bs[6]];
    var m8 := m7[At(a + 7) := bs[7]];
    assert bs[7..][1..] == [];
    assert bs[6..][1..] == bs[7..] && bs[5..][1..] == bs[6..] && bs[4..][1..] == bs[5..];
    assert bs[3..][1..] == bs[4..] && bs[2..][1..] == bs[3..] && bs[1..][1..] == bs[2..];
    assert Store(m8, a + 8, []) == m8;
    assert Store(m7, a + 7, bs[7..]) == m8;
    assert Store(m6, a + 6, bs[6..]) == m8;
    assert Store(m5, a + 5, bs[5..]) == m8;
    assert Store(m4, a + 4, bs[4..]) == m8;
    assert Store(m3, a + 3, bs[3..]) == m8;
    assert Store(m2, a + 2, bs[2..]) == m8;
    assert Store(m1, a + 1, bs[1..]) == m8;
  }

  /** Storing eight bytes at a puts them at a..a+7 and leaves every other
      cell alone. */
  lemma StoreEffect(m: Mem, a: Addr, bs: seq<Byte>)
    requires Mapped(m, a) && |bs| == 8
    ensures Store(m, a, bs).Keys == m.Keys
    ensures Mapped(Store(m, a, bs), a) && WordBytes(Store(m, a, bs), a) == bs
    ensures forall c :: c in m && !InWord(a, c.addr) ==> Store(m, a, bs)[c] == m[c]
  {
    StoreUnrolled(m, a, bs);
    var m' := Store(m, a, bs);
    assert WordBytes(m', a) == bs;
    forall c | c in m && !InWord(a, c.addr) ensures m'[c] == m[c] {
    }
  }

  /** write_memory: stores the eight bytes of v at a..a+7, leaving every
      other cell alone; None when part of that word is not mapped. */
  function WriteWord(m: Mem, a: Addr, v: Word): (r: Option<Mem>)
    ensures r.Some? <==> Mapped(m, a)
    ensures r.Some? ==> r.value.Keys == m.Keys
    ensures r.Some? ==> Mapped(r.value, a) && WordBytes(r.value, a) == Bytes(v)
    ensures r.Some? ==> forall c :: c in m && !InWord(a, c.addr) ==> r.value[c] == m[c]
  {
    if Mapped(m, a) then
      StoreEffect(m, a, Bytes(v));
      Some(Store(m, a, Bytes(v)))
    else
      None
  }

  /** A word written to mapped memory reads back unchanged. */
  lemma ReadAfterWrite(m: Mem, a: Addr, v: Word)
    requires Mapped(m, a)
    ensures WriteWord(m, a, v).Some?
    ensures ReadWord(WriteWord(m, a, v).value, a) == Some(v)
  {
    SplitThenPack(v);
  }

  /** Overwriting a mapped cell keeps every word mapped or unmapped as it
      was. */
  lemma UpdateKeepsMapped(m: Mem, a: Addr, c: Cell, x: Byte)
    requires c in m
    ensures Mapped(m[c := x], a) <==> Mapped(m, a)
  {
    assert m[c := x].Keys == m.Keys;
  }

  /** Updating a cell with the value it already holds changes nothing. */
  lemma UpdateWithSame(m: Mem, c: Cell, x: Byte)
    requires c in m && m[c] == x
    ensures m[c := x] == m
  {
  }

  /** A second update of the same cell overrides the first. */
  lemma UpdateTwice(m: Mem, c: Cell, x: Byte, y: Byte)
    ensures m[c := x][c := y] == m[c := y]
  {
  }

  /** bs are the eight bytes at a..a+7 with the first one replaced by b. */
  predicate LowByteReplaced(m: Mem, a: Addr, bs: seq<Byte>, b: Byte)
    requires Mapped(m, a)
  {
    && |bs| == 8 && bs[0] == b
    && bs[1] == m[At(a + 1)] && bs[2] == m[At(a + 2)] && bs[3] == m[At(a + 3)]
    && bs[4] == m[At(a + 4)] && bs[5] == m[At(a + 5)] && bs[6] == m[At(a + 6)]
    && bs[7] == m[At(a + 7)]
  }

  /** Storing the bytes already at a..a+7, with the first one replaced by
      b, changes only the byte at a. */
  lemma StoreOverLowByte(m: Mem, a: Addr, bs: seq<Byte>, b: Byte)
    requires Mapped(m, a) && LowByteReplaced(m, a, bs, b)
    ensures Store(m, a, bs) == m[At(a) := b]
  {
    StoreUnrolled(m, a, bs);
    var m0 := m[At(a) := b];
    UpdateWithSame(m0, At(a + 1), bs[1]);
    UpdateWithSame(m0, At(a + 2), bs[2]);
    UpdateWithSame(m0, At(a + 3), bs[3]);
    UpdateWithSame(m0, At(a + 4), bs[4]);
    UpdateWithSame(m0, At(a + 5), bs[5]);
    UpdateWithSame(m0, At(a + 6), bs[6]);
    UpdateWithSame(m0, At(a + 7), bs[7]);
  }

  /** Writing back the word just read leaves memory exactly as it was. */
  lemma WriteAfterRead(m: Mem, a: Addr)
    requires Mapped(m, a)
    ensures WriteWord(m, a, ReadWord(m, a).value) == Some(m)
  {
    StoreOverLowByte(m, a, WordBytes(m, a), m[At(a)]);
    assert m[At(a) := m[At(a)]] == m;
  }

  /** Rewriting the word at a with its low byte replaced by b
      ((data & ~0xff) | b) changes the byte at a to b and nothing else. */
  lemma WriteLowByte(m: Mem, a: Addr, b: Byte)
    requires Mapped(m, a)
    ensures WriteWord(m, a, (ReadWord(m, a).value & !0xFF) | (b as Word)) == Some(m[At(a) := b])
  {
    var v := (ReadWord(m, a).value & !0xFF) | (b as Word);
    SplicedWordBytes(m, a, b);
    StoreOverLowByte(m, a, Bytes(v), b);
  }

  /** The bytes of the word read at a with its low byte replaced by b are
      b followed by the bytes at a+1..a+7. */
  lemma SplicedWordBytes(m: Mem, a: Addr, b: Byte)
    requires Mapped(m, a)
    ensures LowByteReplaced(m, a, Bytes((ReadWord(m, a).value & !0xFF) | (b as Word)), b)
  {
    var w := ReadWord(m, a).value;
    var bs := Bytes((w & !0xFF) | (b as Word));
    SpliceKeepsHighBytes(w, b);
    assert bs[1] == m[At(a + 1)] by { assert Bytes(w)[1] == WordBytes(m, a)[1]; }
    assert bs[2] == m[At(a + 2)] by { assert Bytes(w)[2] == WordBytes(m, a)[2]; }
    assert bs[3] == m[At(a + 3)] by { assert Bytes(w)[3] == WordBytes(m, a)[3]; }
    assert bs[4] == m[At(a + 4)] by { assert Bytes(w)[4] == WordBytes(m, a)[4]; }
    assert bs[5] == m[At(a + 5)] by { assert Bytes(w)[5] == WordBytes(m, a)[5]; }
    assert bs[6] == m[At(a + 6)] by { assert Bytes(w)[6] == WordBytes(m, a)[6]; }
    assert bs[7] == m[At(a + 7)] by { assert Bytes(w)[7] == WordBytes(m, a)[7]; }
  }

  /** Replacing the byte at a changes the word read at a in its low byte
      only: the other 56 bits are kept. */
  lemma ReadAfterLowByte(m: Mem, a: Addr, b: Byte)
    requires Mapped(m, a)
    ensures ReadWord(m[At(a) := b], a) == Some((ReadWord(m, a).value & !0xFF) | (b as Word))
  {
    WriteLowByte(m, a, b);
    ReadAfterWrite(m, a, (ReadWord(m, a).value & !0xFF) | (b as Word));
  }

  /** The read-modify-write that enable_breakpoint and disable_breakpoint
      share: read the word at a, replace its low byte by b
      ((data & ~0xff) | b), and write the word back. */
  function ReplaceLowByte(m: Mem, a: Addr, b: Byte): (r: Option<Mem>)
    ensures r.Some? <==> Mapped(m, a)
    ensures r.Some? ==> r.value == m[At(a) := b]
  {
    if !Mapped(m, a) then None
    else
      var data := ReadWord(m, a).value;
      WriteLowByte(m, a, b);
      WriteWord(m, a, (data & !0xFF) | (b as Word))
  }

  /** The low byte of the word read at a ((uint8_t)(data & 0xff)): on a
      little-endian machine, the byte at a itself. */
  function LowByte(m: Mem, a: Addr): (r: Option<Byte>)
    ensures r.Some? <==> Mapped(m, a)
    ensures r.Some? ==> r.value == m[At(a)]
  {
    match ReadWord(m, a)
    case None => None
    case Some(data) =>
      assert ByteOf(data, 0) == (data & 0xFF) as Byte;
      Some((data & 0xFF) as Byte)
  }
}
