/** The assembler's output buffer: byte emission, growth, labels and deferred label references. */
module Emitter {
  import opened Words
  import opened Isa
  import opened Encoding
  import opened Storage
  import opened Machine

  /** The allocation unit of a buffer without a fixed length. */
  const BLOCK := 512

  datatype LabelRef = LabelRef(name: string, pos: nat, reg: nibble, cond: nibble)

  /** What has been emitted: the bytes up to the highest position, and the bookkeeping. */
  datatype Emission = Emission(image: seq<byte>, pos: nat, offset: dword, labels: map<string, dword>,
                               refs: seq<LabelRef>)

  function Zeros(n: nat): (z: seq<byte>)
    ensures |z| == n && forall i :: 0 <= i < n ==> z[i] == 0
  {
    seq(n, _ => 0)
  }

  /** Bytes written at a position of an image, extending it when they reach past its end. */
  function Overwrite(image: seq<byte>, p: nat, bs: seq<byte>): (r: seq<byte>)
    requires p <= |image|
  {
    if p + |bs| <= |image| then Write(image, p, bs) else image[..p] + bs
  }

  function Emit(e: Emission, bs: seq<byte>): Emission
    requires e.pos <= |e.image|
  {
    e.(image := Overwrite(e.image, e.pos, bs), pos := e.pos + |bs|)
  }

  /** An image extended by zeros to at least n bytes. */
  function Padded(image: seq<byte>, n: nat): seq<byte> {
    if n <= |image| then image else image + Zeros(n - |image|)
  }

  /** Skipping eight bytes for a label reference that is resolved later. */
  function Reserve(e: Emission, name: string, reg: nibble, cond: nibble): Emission
    requires e.pos <= |e.image|
  {
    e.(image := Padded(e.image, e.pos + 8),
       pos := e.pos + 8,
       refs := e.refs + [LabelRef(name, e.pos, reg, cond)])
  }

  // ----- growth -----

  predicate Exceeds(pos: nat, required: nat, size: nat) {
    pos + required - 1 >= size
  }

  function GrownLength(highest: nat): nat {
    (highest / BLOCK + 1) * BLOCK
  }

  /**
   * What reallocation followed by clearing one block from pos leaves in the buffer: the cleared block is
   * zero, other old bytes stay, and the rest of the new bytes can be anything.
   */
  ghost predicate Grown(before: seq<byte>, after: seq<byte>, pos: nat, highest: nat) {
    && |after| == GrownLength(highest)
    && forall i :: 0 <= i < |after| ==>
         if pos <= i < pos + BLOCK then after[i] == 0 else i < |before| ==> after[i] == before[i]
  }

  /** Growth stays inside the allocation, keeps size equal to its length, and keeps all emitted bytes. */
  ghost predicate GrowsRight(pos: nat, highest: nat, size: nat) {
    && pos + BLOCK <= GrownLength(highest)
    && GrownLength(highest) == size + BLOCK
    && forall before, after :: |before| == size && Grown(before, after, pos, highest) && highest <= size ==>
         after == before[..highest] + Zeros(size + BLOCK - highest)
  }

  /** Growth is right exactly when it is triggered at a block boundary with everything emitted below it. */
  lemma GrowthExact(pos: nat, highest: nat, size: nat, required: nat)
    requires pos <= highest <= size && Exceeds(pos, required, size)
    ensures GrowsRight(pos, highest, size) <==> pos == highest == size && size % BLOCK == 0
  {
    if GrowsRight(pos, highest, size) {
      BlockFloor(highest);
      assert highest == size && size % BLOCK == 0;
      if pos < size {
        GrowthLoses(pos, size);
      }
    }
    if pos == highest == size && size % BLOCK == 0 {
      BlockFloor(size);
      forall before, after | |before| == size && Grown(before, after, pos, highest) && highest <= size
        ensures after == before[..highest] + Zeros(size + BLOCK - highest)
      {
      }
    }
  }

  /** Below the highest position growth clears emitted bytes. */
  lemma GrowthLoses(pos: nat, size: nat)
    requires pos < size && size % BLOCK == 0
    ensures !GrowsRight(pos, size, size)
  {
    BlockFloor(size);
    var before: seq<byte> := seq(size, _ => 1);
    var after: seq<byte> := seq(size + BLOCK, i => if pos <= i < pos + BLOCK || i >= size then 0 else 1);
    assert Grown(before, after, pos, size);
    var kept := before[..size] + Zeros(size + BLOCK - size);
    assert after[pos] == 0 && kept[pos] == 1;
  }

  lemma BlockFloor(highest: nat)
    ensures GrownLength(highest) == highest - highest % BLOCK + BLOCK
  {
  }

  /** The prefix in the top two bits, the opcode below it. */
  function PackPrefix(p: prefix, op: opcode): (b: byte)
    ensures b == p * 0x40 + op
  {
    Pow2Values();
    OrConcat(6, p, op);
    Or(p as int * 0x40, op)
  }

  /** Two nibbles in one byte. */
  function PackNibbles(high: nibble, low: nibble): (b: byte)
    ensures b == high * 0x10 + low
  {
    Pow2Values();
    OrConcat(4, high, low);
    Or(high as int * 0x10, low)
  }

  /** The low byte, masked out. */
  function LowByte(v: word): (b: byte)
    ensures b == v % 0x100
  {
    Pow2Values();
    MaskLow(v, 8);
    And(v, 0xFF)
  }

  lemma FourUpdates(s: seq<byte>, highest: nat, p: nat, b0: byte, b1: byte, b2: byte, b3: byte)
    requires p <= highest <= |s| && p + 4 <= |s|
    requires forall i :: highest <= i < |s| ==> s[i] == 0
    ensures var t := s[p := b0][p + 1 := b1][p + 2 := b2][p + 3 := b3];
            var h := if p + 4 > highest then p + 4 else highest;
            && t[..h] == Overwrite(s[..highest], p, [b0, b1, b2, b3])
            && forall i :: h <= i < |s| ==> t[i] == 0
  {
  }

  // ----- the emit context -----

  class EmitContext {
    var buf: array<byte>
    const fixedLength: bool
    var pos: nat
    var highestPos: nat
    var offset: dword
    var size: nat
    var labels: map<string, dword>
    var labelrefs: seq<LabelRef>

    ghost predicate Valid()
      reads this, buf
    {
      && pos <= highestPos <= size == buf.Length < DWORD_MODULUS
      && (!fixedLength ==> size % BLOCK == 0)
      && forall i :: highestPos <= i < size ==> buf[i] == 0
    }

    ghost function Model(): Emission
      reads this, buf
      requires Valid()
    {
      Emission(buf[..highestPos], pos, offset, labels, labelrefs)
    }

    /** Emitting n bytes does not make the buffer grow inside a block. */
    predicate Room(n: nat)
      reads this
    {
      !fixedLength && Exceeds(pos, n, size) ==> pos == highestPos == size && size + BLOCK < DWORD_MODULUS
    }

    /** Whether a buffer of fixed length still has n bytes; without one there is always room. */
    predicate Accepts(n: nat)
      reads this
    {
      fixedLength ==> pos + n <= size
    }

    constructor (size: nat, fixedLength: bool)
      requires size < DWORD_MODULUS && (!fixedLength ==> size % BLOCK == 0)
      ensures Valid() && fresh(buf) && this.fixedLength == fixedLength && this.size == size
      ensures Model() == Emission([], 0, 0, map[], [])
    {
      buf := new byte[size](_ => 0);
      this.size, this.fixedLength := size, fixedLength;
      labels, labelrefs := map[], [];
      pos, highestPos, offset := 0, 0, 0;
    }

    /** ok is false where the program stops because a buffer of fixed length is full. */
    method HandleExceedingBuffer(required: nat) returns (ok: bool)
      requires required > 0 && pos <= highestPos && buf.Length == size
      requires Exceeds(pos, required, size) && !fixedLength ==> pos + BLOCK <= GrownLength(highestPos)
      modifies this`buf, this`size
      ensures ok <==> !fixedLength || !Exceeds(pos, required, old(size))
      ensures fixedLength || !Exceeds(pos, required, old(size)) ==> buf == old(buf) && size == old(size)
      ensures !fixedLength && Exceeds(pos, required, old(size)) ==>
                fresh(buf) && size == old(size) + BLOCK && Grown(old(buf[..]), buf[..], pos, highestPos)
    {
      if !(pos + required - 1 >= size) {
        return true;
      }
      if fixedLength {
        return false;
      }
      var allocBlock := highestPos / BLOCK;
      allocBlock := allocBlock + 1;
      var grown := new byte[allocBlock * BLOCK];
      forall i | 0 <= i < grown.Length && i < buf.Length {
        grown[i] := buf[i];
      }
      forall i | pos <= i < pos + BLOCK {
        grown[i] := 0;
      }
      buf := grown;
      size := size + BLOCK;
      return true;
    }

    method SetHighestPosition()
      modifies this`highestPos
      ensures highestPos == if pos > old(highestPos) then pos else old(highestPos)
    {
      if pos > highestPos {
        highestPos := pos;
      }
    }

    /** Makes room for n bytes at pos; afterwards they lie inside the buffer. */
    method MakeRoom(n: nat) returns (ok: bool)
      requires Valid() && Room(n) && 0 < n <= BLOCK
      modifies this`buf, this`size
      ensures Valid() && Model() == old(Model())
      ensures buf == old(buf) || fresh(buf)
      ensures fixedLength ==> size == old(size)
      ensures ok <==> old(Accepts(n))
      ensures ok ==> pos + n <= size
    {
      BlockFloor(highestPos);
      ghost var before := buf[..];
      ok := HandleExceedingBuffer(n);
      assert buf[..highestPos] == before[..highestPos];
    }

    method EmitByte(b: byte) returns (ok: bool)
      requires Valid() && Room(1)
      modifies this, buf
      ensures Valid() && ok == old(Accepts(1)) && (fixedLength ==> size == old(size)) && (buf == old(buf) || fresh(buf))
      ensures ok ==> Model() == Emit(old(Model()), [b])
    {
      ok := MakeRoom(1);
      if !ok {
        return;
      }
      ghost var image, start := buf[..highestPos], pos;
      PutByte(b);
      SetHighestPosition();
      assert buf[..highestPos] == Overwrite(image, start, [b]);
    }

    /** Stores a byte at the position and moves on. */
    method PutByte(b: byte)
      requires pos < buf.Length
      modifies this`pos, buf
      ensures pos == old(pos) + 1 && buf[..] == old(buf[..])[old(pos) := b]
    {
      buf[pos] := b;
      pos := pos + 1;
    }

    method PutFour(b0: byte, b1: byte, b2: byte, b3: byte)
      requires pos + 4 <= buf.Length
      modifies this`pos, buf
      ensures pos == old(pos) + 4
      ensures buf[..] == old(buf[..])[old(pos) := b0][old(pos) + 1 := b1][old(pos) + 2 := b2][old(pos) + 3 := b3]
    {
      PutByte(b0);
      PutByte(b1);
      PutByte(b2);
      PutByte(b3);
    }

    /** The shared shape of the eight format emitters: four stores with a moving position. */
    method EmitFour(b0: byte, b1: byte, b2: byte, b3: byte) returns (ok: bool)
      requires Valid() && Room(4)
      modifies this, buf
      ensures Valid() && ok == old(Accepts(4)) && (fixedLength ==> size == old(size)) && (buf == old(buf) || fresh(buf))
      ensures ok ==> Model() == Emit(old(Model()), [b0, b1, b2, b3])
    {
      ok := MakeRoom(4);
      if !ok {
        return;
      }
      ghost var before, highest, start := buf[..], highestPos, pos;
      hide Overwrite, Exceeds;
      FourUpdates(before, highest, start, b0, b1, b2, b3);
      PutFour(b0, b1, b2, b3);
      SetHighestPosition();
      assert buf[..][..highestPos] == buf[..highestPos] && before[..highest] == old(buf[..highestPos]);
    }

    method EmitFmtI(prefix: prefix, condition: nibble, opcode: opcode) returns (ok: bool)
      requires Valid() && Room(4)
      modifies this, buf
      ensures Valid() && ok == old(Accepts(4)) && (fixedLength ==> size == old(size)) && (buf == old(buf) || fresh(buf))
      ensures ok ==> Model() == Emit(old(Model()), FormatII(prefix, condition, opcode, 0, 0, 0))
    {
      hide PackPrefix, PackNibbles, LowByte;
      ok := EmitFour(PackPrefix(prefix, opcode), PackNibbles(condition, 0), 0, 0);
    }

    method EmitFmtII(prefix: prefix, condition: nibble, opcode: opcode, dst: nibble, a: nibble, b: nibble) returns (ok: bool)
      requires Valid() && Room(4)
      modifies this, buf
      ensures Valid() && ok == old(Accepts(4)) && (fixedLength ==> size == old(size)) && (buf == old(buf) || fresh(buf))
      ensures ok ==> Model() == Emit(old(Model()), FormatII(prefix, condition, opcode, dst, a, b))
    {
      hide PackPrefix, PackNibbles, LowByte;
      ok := EmitFour(PackPrefix(prefix, opcode), PackNibbles(condition, dst), PackNibbles(a, b), 0);
    }

    method EmitFmtIII(prefix: prefix, condition: nibble, opcode: opcode, dst: nibble, a: nibble, imm12: imm12) returns (ok: bool)
      requires Valid() && Room(4)
      modifies this, buf
      ensures Valid() && ok == old(Accepts(4)) && (fixedLength ==> size == old(size)) && (buf == old(buf) || fresh(buf))
      ensures ok ==> Model() == Emit(old(Model()), FormatIII(prefix, condition, opcode, dst, a, imm12))
    {
      hide PackPrefix, PackNibbles, LowByte;
      ok := EmitFour(PackPrefix(prefix, opcode), PackNibbles(condition, dst), PackNibbles(a, imm12 / 0x100), LowByte(imm12));
    }

    method EmitFmtIV(prefix: prefix, condition: nibble, opcode: opcode, dst: nibble, imm16: word) returns (ok: bool)
      requires Valid() && Room(4)
      modifies this, buf
      ensures Valid() && ok == old(Accepts(4)) && (fixedLength ==> size == old(size)) && (buf == old(buf) || fresh(buf))
      ensures ok ==> Model() == Emit(old(Model()), FormatIV(prefix, condition, opcode, dst, imm16))
    {
      hide PackPrefix, PackNibbles, LowByte;
      ok := EmitFour(PackPrefix(prefix, opcode), PackNibbles(condition, dst), LowByte(imm16), imm16 / 0x100);
    }

    method EmitFmtV(prefix: prefix, condition: nibble, opcode: opcode, dst: nibble) returns (ok: bool)
      requires Valid() && Room(4)
      modifies this, buf
      ensures Valid() && ok == old(Accepts(4)) && (fixedLength ==> size == old(size)) && (buf == old(buf) || fresh(buf))
      ensures ok ==> Model() == Emit(old(Model()), FormatII(prefix, condition, opcode, dst, 0, 0))
    {
      hide PackPrefix, PackNibbles, LowByte;
      ok := EmitFour(PackPrefix(prefix, opcode), PackNibbles(condition, dst), 0, 0);
    }

    method EmitFmtVI(prefix: prefix, condition: nibble, opcode: opcode, a: nibble, b: nibble) returns (ok: bool)
      requires Valid() && Room(4)
      modifies this, buf
      ensures Valid() && ok == old(Accepts(4)) && (fixedLength ==> size == old(size)) && (buf == old(buf) || fresh(buf))
      ensures ok ==> Model() == Emit(old(Model()), FormatII(prefix, condition, opcode, 0, a, b))
    {
      hide PackPrefix, PackNibbles, LowByte;
      ok := EmitFour(PackPrefix(prefix, opcode), PackNibbles(condition, 0), PackNibbles(a, b), 0);
    }

    method EmitFmtVII(prefix: prefix, condition: nibble, opcode: opcode, a: nibble, imm12: imm12) returns (ok: bool)
      requires Valid() && Room(4)
      modifies this, buf
      ensures Valid() && ok == old(Accepts(4)) && (fixedLength ==> size == old(size)) && (buf == old(buf) || fresh(buf))
      ensures ok ==> Model() == Emit(old(Model()), FormatIII(prefix, condition, opcode, 0, a, imm12))
    {
      hide PackPrefix, PackNibbles, LowByte;
      ok := EmitFour(PackPrefix(prefix, opcode), PackNibbles(condition, 0), PackNibbles(a, imm12 / 0x100), LowByte(imm12));
    }

    method EmitFmtVIII(prefix: prefix, condition: nibble, opcode: opcode, imm16: word) returns (ok: bool)
      requires Valid() && Room(4)
      modifies this, buf
      ensures Valid() && ok == old(Accepts(4)) && (fixedLength ==> size == old(size)) && (buf == old(buf) || fresh(buf))
      ensures ok ==> Model() == Emit(old(Model()), FormatIV(prefix, condition, opcode, 0, imm16))
    {
      hide PackPrefix, PackNibbles, LowByte;
      ok := EmitFour(PackPrefix(prefix, opcode), PackNibbles(condition, 0), LowByte(imm16), imm16 / 0x100);
    }

    // ----- labels -----

    /** ok is false where the program stops because the label exists already. */
    method EmitLabel(name: string) returns (ok: bool)
      requires Valid()
      modifies this`labels
      ensures Valid() && ok == (name !in old(labels))
      ensures ok ==> Model() == old(Model()).(labels := old(labels)[name := Wrap(pos + offset)])
    {
      if name in labels {
        return false;
      }
      labels := labels[name := Wrap(pos + offset)];
      return true;
    }

    method EmitLabelRef(name: string, reg: nibble, cond: nibble) returns (ok: bool)
      requires Valid() && Room(8)
      modifies this, buf
      ensures Valid() && ok == old(Accepts(8)) && (fixedLength ==> size == old(size)) && (buf == old(buf) || fresh(buf))
      ensures ok ==> Model() == Reserve(old(Model()), name, reg, cond)
    {
      labelrefs := labelrefs + [LabelRef(name, pos, reg, cond)];
      ok := MakeRoom(8);
      if !ok {
        return;
      }
      SkipHole();
    }

    /** Moves on over eight bytes that lie in the buffer. */
    method SkipHole()
      requires Valid() && pos + 8 <= size
      modifies this`pos, this`highestPos
      ensures Valid()
      ensures Model() == old(Model()).(image := Padded(old(Model()).image, old(pos) + 8), pos := old(pos) + 8)
    {
      ghost var image := buf[..highestPos];
      pos := pos + 8;
      SetHighestPosition();
      assert pos > |image| ==> buf[..highestPos] == image + Zeros(pos - |image|);
    }

    method EmitLabelRes(name: string) returns (r: Option<dword>)
      ensures r == if name in labels then Some(labels[name]) else None
    {
      return if name in labels then Some(labels[name]) else None;
    }
  }
}
