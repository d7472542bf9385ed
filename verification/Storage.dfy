/** Little-endian storage: memory, and the 32/16/8-bit views of the register file. */
module Storage {
  import opened Words
  import opened Isa

  type memory = m: seq<byte> | |m| < 0x1_0000_0000
  type registers = r: seq<dword> | |r| == 16 witness seq(16, _ => 0)

  function Width(size: Size): (n: nat)
    ensures n == 1 || n == 2 || n == 4
  {
    match size
    case Dword => 4
    case Word => 2
    case Byte => 1
  }

  /** How many registers of a size the 64 bytes of the register file could hold. */
  function Views(size: Size): nat {
    match size
    case Dword => 16
    case Word => 32
    case Byte => 64
  }

  predicate Fits(size: Size, v: int) {
    match size
    case Dword => 0 <= v < 0x1_0000_0000
    case Word => 0 <= v < 0x1_0000
    case Byte => 0 <= v < 0x100
  }

  // ----- bytes of a dword -----

  function ByteOf(v: dword, i: nat): byte
    requires i < 4
  {
    if i == 0 then v % 0x100
    else if i == 1 then v / 0x100 % 0x100
    else if i == 2 then v / 0x1_0000 % 0x100
    else v / 0x100_0000
  }

  function Join(b0: byte, b1: byte, b2: byte, b3: byte): dword {
    b0 + 0x100 * b1 + 0x1_0000 * b2 + 0x100_0000 * b3
  }

  function JoinWord(b0: byte, b1: byte): word {
    b0 + 0x100 * b1
  }

  lemma JoinBytes(v: dword)
    ensures Join(ByteOf(v, 0), ByteOf(v, 1), ByteOf(v, 2), ByteOf(v, 3)) == v
  {
    assert v / 0x1_0000 == v / 0x100 / 0x100 && v / 0x100_0000 == v / 0x1_0000 / 0x100;
  }

  lemma BytesOfJoin(b0: byte, b1: byte, b2: byte, b3: byte)
    ensures var v := Join(b0, b1, b2, b3);
            ByteOf(v, 0) == b0 && ByteOf(v, 1) == b1 && ByteOf(v, 2) == b2 && ByteOf(v, 3) == b3
  {
    var v: int := Join(b0, b1, b2, b3);
    var upper: int := b2 + 0x100 * b3;
    DivModUnique(v, 0x100, b1 + 0x100 * upper, b0);
    DivModUnique(b1 + 0x100 * upper, 0x100, upper, b1);
    DivModUnique(v, 0x1_0000, upper, b0 + 0x100 * b1);
    DivModUnique(upper, 0x100, b3, b2);
    DivModUnique(v, 0x100_0000, b3, b0 + 0x100 * b1 + 0x1_0000 * b2);
  }

  lemma WordHalves(x: dword)
    ensures x % 0x1_0000 == JoinWord(ByteOf(x, 0), ByteOf(x, 1))
    ensures x / 0x1_0000 == JoinWord(ByteOf(x, 2), ByteOf(x, 3))
  {
    JoinBytes(x);
    DivModUnique(x, 0x1_0000, JoinWord(ByteOf(x, 2), ByteOf(x, 3)), JoinWord(ByteOf(x, 0), ByteOf(x, 1)));
  }

  /** The bytes that hold a value, least significant first. */
  function Bytes(size: Size, v: dword): (bs: seq<byte>)
    ensures |bs| == Width(size)
  {
    match size
    case Dword => [ByteOf(v, 0), ByteOf(v, 1), ByteOf(v, 2), ByteOf(v, 3)]
    case Word => [ByteOf(v, 0), ByteOf(v, 1)]
    case Byte => [ByteOf(v, 0)]
  }

  function Unbytes(size: Size, bs: seq<byte>): (v: dword)
    requires |bs| == Width(size)
    ensures Fits(size, v)
  {
    match size
    case Dword => Join(bs[0], bs[1], bs[2], bs[3])
    case Word => JoinWord(bs[0], bs[1])
    case Byte => bs[0]
  }

  /** Storing a value that fits and reading the bytes back gives the value; the bytes determine it. */
  lemma UnbytesBytes(size: Size, v: dword)
    requires Fits(size, v)
    ensures Unbytes(size, Bytes(size, v)) == v
  {
    JoinBytes(v);
  }

  lemma BytesUnbytes(size: Size, bs: seq<byte>)
    requires |bs| == Width(size)
    ensures Bytes(size, Unbytes(size, bs)) == bs
  {
    match size
    case Dword => BytesOfJoin(bs[0], bs[1], bs[2], bs[3]);
    case Word =>
      assert JoinWord(bs[0], bs[1]) == Join(bs[0], bs[1], 0, 0);
      BytesOfJoin(bs[0], bs[1], 0, 0);
    case Byte =>
      assert bs[0] == Join(bs[0], 0, 0, 0);
      BytesOfJoin(bs[0], 0, 0, 0);
  }

  // ----- memory -----

  predicate InMemory(m: memory, a: dword, n: nat) {
    a + n <= |m|
  }

  /** The memory m with bs stored from address a on. */
  function Write(m: seq<byte>, a: nat, bs: seq<byte>): (r: seq<byte>)
    requires a + |bs| <= |m|
    ensures |r| == |m|
    ensures forall i :: 0 <= i < |m| ==> r[i] == if a <= i < a + |bs| then bs[i - a] else m[i]
  {
    m[..a] + bs + m[a + |bs|..]
  }

  function Load(size: Size, m: memory, a: dword): (v: dword)
    requires InMemory(m, a, Width(size))
    ensures Fits(size, v)
  {
    Unbytes(size, m[a..a + Width(size)])
  }

  function Store(size: Size, m: memory, a: dword, v: dword): memory
    requires InMemory(m, a, Width(size))
  {
    Write(m, a, Bytes(size, v))
  }

  lemma StoredLength(size: Size, m: memory, a: dword, v: dword)
    requires InMemory(m, a, Width(size))
    ensures |Store(size, m, a, v)| == |m|
  {
  }

  lemma LoadStored(size: Size, m: memory, a: dword, v: dword)
    requires InMemory(m, a, Width(size)) && Fits(size, v)
    ensures Load(size, Store(size, m, a, v), a) == v
  {
    assert Store(size, m, a, v)[a..a + Width(size)] == Bytes(size, v);
    UnbytesBytes(size, v);
  }

  lemma LoadOther(size: Size, m: memory, a: dword, v: dword, size': Size, a': dword)
    requires InMemory(m, a, Width(size)) && InMemory(m, a', Width(size'))
    requires a' + Width(size') <= a || a + Width(size) <= a'
    ensures Load(size', Store(size, m, a, v), a') == Load(size', m, a')
  {
    assert Store(size, m, a, v)[a'..a' + Width(size')] == m[a'..a' + Width(size')];
  }

  // ----- registers -----

  /** The 64 bytes of the register file, register 0 first, each register little-endian. */
  function Flat(regs: registers): (bs: seq<byte>)
    ensures |bs| == 64
  {
    seq(64, i requires 0 <= i < 64 => ByteOf(regs[i / 4], i % 4))
  }

  function GetReg(size: Size, regs: registers, r: nat): (v: dword)
    requires r < Views(size)
    ensures Fits(size, v)
  {
    match size
    case Dword => regs[r]
    case Word => if r % 2 == 0 then regs[r / 2] % 0x1_0000 else regs[r / 2] / 0x1_0000
    case Byte => ByteOf(regs[r / 4], r % 4)
  }

  /** The dword x with its byte or word number k replaced by v. */
  function Replace(size: Size, x: dword, k: nat, v: dword): dword
    requires k < 4 / Width(size) && Fits(size, v)
  {
    match size
    case Dword => v
    case Word =>
      if k == 0 then x / 0x1_0000 * 0x1_0000 + v else 0x1_0000 * v + x % 0x1_0000
    case Byte =>
      if k == 0 then Join(v, ByteOf(x, 1), ByteOf(x, 2), ByteOf(x, 3))
      else if k == 1 then Join(ByteOf(x, 0), v, ByteOf(x, 2), ByteOf(x, 3))
      else if k == 2 then Join(ByteOf(x, 0), ByteOf(x, 1), v, ByteOf(x, 3))
      else Join(ByteOf(x, 0), ByteOf(x, 1), ByteOf(x, 2), v)
  }

  function PutReg(size: Size, regs: registers, r: nat, v: dword): registers
    requires r < Views(size) && Fits(size, v)
  {
    match size
    case Dword => regs[r := v]
    case Word => regs[r / 2 := Replace(Word, regs[r / 2], r % 2, v)]
    case Byte => regs[r / 4 := Replace(Byte, regs[r / 4], r % 4, v)]
  }

  lemma ReplaceWordIsJoin(x: dword, v: word)
    ensures Replace(Word, x, 0, v) == Join(ByteOf(v, 0), ByteOf(v, 1), ByteOf(x, 2), ByteOf(x, 3))
    ensures Replace(Word, x, 1, v) == Join(ByteOf(x, 0), ByteOf(x, 1), ByteOf(v, 0), ByteOf(v, 1))
  {
    WordHalves(x);
    WordHalves(v);
    assert v % 0x1_0000 == v;
  }

  lemma ByteOfReplaceWord(x: dword, k: nat, v: word, i: nat)
    requires k < 2 && i < 4
    ensures ByteOf(Replace(Word, x, k, v), i) == if 2 * k <= i < 2 * k + 2 then ByteOf(v, i - 2 * k) else ByteOf(x, i)
  {
    ReplaceWordIsJoin(x, v);
    if k == 0 {
      BytesOfJoin(ByteOf(v, 0), ByteOf(v, 1), ByteOf(x, 2), ByteOf(x, 3));
    } else {
      BytesOfJoin(ByteOf(x, 0), ByteOf(x, 1), ByteOf(v, 0), ByteOf(v, 1));
    }
  }

  lemma ByteOfReplaceByte(x: dword, k: nat, v: byte, i: nat)
    requires k < 4 && i < 4
    ensures ByteOf(Replace(Byte, x, k, v), i) == if i == k then v else ByteOf(x, i)
  {
    var bs := seq(4, j requires 0 <= j < 4 => if j == k then v else ByteOf(x, j));
    BytesOfJoin(bs[0], bs[1], bs[2], bs[3]);
  }

  lemma ByteOfReplace(size: Size, x: dword, k: nat, v: dword, i: nat)
    requires k < 4 / Width(size) && Fits(size, v) && i < 4
    ensures ByteOf(Replace(size, x, k, v), i) ==
            if k * Width(size) <= i < (k + 1) * Width(size) then ByteOf(v, i - k * Width(size)) else ByteOf(x, i)
  {
    match size
    case Dword =>
    case Word => ByteOfReplaceWord(x, k, v, i);
    case Byte => ByteOfReplaceByte(x, k, v, i);
  }

  /** Setting a register of any size overwrites exactly its own bytes of the flat register file. */
  lemma PutRegIsWrite(size: Size, regs: registers, r: nat, v: dword)
    requires r < Views(size) && Fits(size, v)
    ensures Flat(PutReg(size, regs, r, v)) == Write(Flat(regs), r * Width(size), Bytes(size, v))
  {
    ViewInFile(size, r);
    hide ByteOf, PutReg, Bytes, Width, Flat, Write;
    var after, a, bs := PutReg(size, regs, r, v), r * Width(size), Bytes(size, v);
    forall i | 0 <= i < 64
      ensures Flat(after)[i] == Write(Flat(regs), a, bs)[i]
    {
      FlatByte(after, i);
      FlatByte(regs, i);
      ByteWritten(size, regs, r, v, i);
    }
  }

  lemma ViewInFile(size: Size, r: nat)
    requires r < Views(size)
    ensures 0 <= r * Width(size) && r * Width(size) + Width(size) <= 64
  {
  }

  lemma FlatByte(regs: registers, i: nat)
    requires i < 64
    ensures Flat(regs)[i] == ByteOf(regs[i / 4], i % 4)
  {
    hide ByteOf;
  }

  lemma ByteWritten(size: Size, regs: registers, r: nat, v: dword, i: nat)
    requires r < Views(size) && Fits(size, v) && i < 64
    ensures ByteOf(PutReg(size, regs, r, v)[i / 4], i % 4) ==
            if r * Width(size) <= i < r * Width(size) + Width(size) then Bytes(size, v)[i - r * Width(size)]
            else ByteOf(regs[i / 4], i % 4)
  {
    hide ByteOf, Replace;
    match size
    case Dword => DwordWritten(regs, r, v, i);
    case Word => WordWritten(regs, r, v, i);
    case Byte =>
      OneByteWritten(regs, r, v, i);
      ByteOfByte(v);
  }

  lemma DwordWritten(regs: registers, r: nat, v: dword, i: nat)
    requires r < 16 && i < 64
    ensures ByteOf(PutReg(Dword, regs, r, v)[i / 4], i % 4) ==
            if r * 4 <= i < r * 4 + 4 then Bytes(Dword, v)[i - r * 4] else ByteOf(regs[i / 4], i % 4)
  {
    hide ByteOf;
    if i / 4 == r {
      assert i == 4 * r + i % 4;
    }
  }

  lemma OneByteWritten(regs: registers, r: nat, v: byte, i: nat)
    requires r < 64 && i < 64
    ensures ByteOf(PutReg(Byte, regs, r, v)[i / 4], i % 4) == if i == r then v else ByteOf(regs[i / 4], i % 4)
  {
    hide ByteOf, Replace;
    if i / 4 == r / 4 {
      ByteOfReplace(Byte, regs[r / 4], r % 4, v, i % 4);
      ByteOfByte(v);
    }
  }

  lemma WordWritten(regs: registers, r: nat, v: word, i: nat)
    requires r < 32 && i < 64
    ensures ByteOf(PutReg(Word, regs, r, v)[i / 4], i % 4) ==
            if r * 2 <= i < r * 2 + 2 then Bytes(Word, v)[i - r * 2] else ByteOf(regs[i / 4], i % 4)
  {
    hide ByteOf, Replace;
    if i / 4 == r / 2 {
      ByteOfReplace(Word, regs[r / 2], r % 2, v, i % 4);
    }
  }

  lemma ByteOfByte(v: dword)
    requires v < 0x100
    ensures ByteOf(v, 0) == v
  {
  }

  /** Reading a register of any size decodes its own bytes of the flat register file. */
  lemma GetRegIsRead(size: Size, regs: registers, r: nat)
    requires r < Views(size)
    ensures GetReg(size, regs, r) == Unbytes(size, Flat(regs)[r * Width(size)..r * Width(size) + Width(size)])
  {
    match size
    case Dword => GetDwordIsRead(regs, r);
    case Word => GetWordIsRead(regs, r);
    case Byte => assert Flat(regs)[r..r + 1] == [ByteOf(regs[r / 4], r % 4)];
  }

  lemma GetDwordIsRead(regs: registers, r: nat)
    requires r < 16
    ensures regs[r] == Unbytes(Dword, Flat(regs)[r * 4..r * 4 + 4])
  {
    var bs := Flat(regs)[r * 4..r * 4 + 4];
    FlatAt(regs, r);
    assert forall j :: 0 <= j < 4 ==> bs[j] == Flat(regs)[4 * r + j];
    JoinBytes(regs[r]);
  }

  lemma GetWordIsRead(regs: registers, r: nat)
    requires r < 32
    ensures GetReg(Word, regs, r) == Unbytes(Word, Flat(regs)[r * 2..r * 2 + 2])
  {
    var bs, q := Flat(regs)[r * 2..r * 2 + 2], r / 2;
    FlatAt(regs, q);
    assert bs == [Flat(regs)[2 * r], Flat(regs)[2 * r + 1]];
    WordHalves(regs[q]);
    if r % 2 == 0 {
      assert 2 * r == 4 * q + 0 && 2 * r + 1 == 4 * q + 1;
    } else {
      assert 2 * r == 4 * q + 2 && 2 * r + 1 == 4 * q + 3;
    }
  }

  lemma FlatAt(regs: registers, r: nat)
    requires r < 16
    ensures forall j :: 0 <= j < 4 ==> Flat(regs)[4 * r + j] == ByteOf(regs[r], j)
  {
    forall j | 0 <= j < 4
      ensures Flat(regs)[4 * r + j] == ByteOf(regs[r], j)
    {
      assert (4 * r + j) / 4 == r && (4 * r + j) % 4 == j;
    }
  }

  /** Putting back what was read changes nothing. */
  lemma PutGetReg(size: Size, regs: registers, r: nat)
    requires r < Views(size)
    ensures PutReg(size, regs, r, GetReg(size, regs, r)) == regs
  {
    match size
    case Dword =>
    case Word => PutGetWord(regs[r / 2]);
    case Byte => JoinBytes(regs[r / 4]);
  }

  lemma PutGetWord(x: dword)
    ensures Replace(Word, x, 0, x % 0x1_0000) == x && Replace(Word, x, 1, x / 0x1_0000) == x
  {
  }

  /** A word that was put is read back, and other words are as before. */
  lemma GetPutWord(regs: registers, r: nat, v: word, q: nat)
    requires r < 32 && q < 32
    ensures GetReg(Word, PutReg(Word, regs, r, v), q) == if q == r then v else GetReg(Word, regs, q)
  {
    var x := regs[r / 2];
    DivModUnique(Replace(Word, x, 0, v), 0x1_0000, x / 0x1_0000, v);
    DivModUnique(Replace(Word, x, 1, v), 0x1_0000, v, x % 0x1_0000);
  }
}
