/** The eight instruction formats, and the decoding that inverts all of them. */
module Encoding {
  import opened Words
  import opened Isa

  /** The four bytes of one instruction in memory order. */
  type code4 = w: seq<byte> | |w| == 4 witness [0, 0, 0, 0]

  /** Format II: three register operands. Formats I, V and VI leave some of them zero. */
  function FormatII(p: prefix, c: nibble, op: opcode, dst: nibble, a: nibble, b: nibble): code4 {
    [p * 0x40 + op, c * 0x10 + dst, a * 0x10 + b, 0]
  }

  /** Format III: two registers and a 12-bit immediate, high nibble first. Format VII has no destination. */
  function FormatIII(p: prefix, c: nibble, op: opcode, dst: nibble, a: nibble, v: imm12): code4 {
    [p * 0x40 + op, c * 0x10 + dst, a * 0x10 + v / 0x100, v % 0x100]
  }

  /** Format IV: one register and a 16-bit immediate, low byte first. Format VIII has no destination. */
  function FormatIV(p: prefix, c: nibble, op: opcode, dst: nibble, v: word): code4 {
    [p * 0x40 + op, c * 0x10 + dst, v % 0x100, v / 0x100]
  }

  function Decode(w: code4): Ins {
    Ins(w[0] / 0x40, w[0] % 0x40, w[1] / 0x10, w[1] % 0x10, w[2] / 0x10, w[2] % 0x10,
        w[2] as int + 0x100 * w[3] as int, w[2] as int % 0x10 * 0x100 + w[3])
  }

  lemma DecodeII(p: prefix, c: nibble, op: opcode, dst: nibble, a: nibble, b: nibble)
    ensures Decode(FormatII(p, c, op, dst, a, b)) == Ins(p, op, c, dst, a, b, a * 0x10 + b, b * 0x100)
  {
  }

  lemma DecodeIII(p: prefix, c: nibble, op: opcode, dst: nibble, a: nibble, v: imm12)
    ensures var i := Decode(FormatIII(p, c, op, dst, a, v));
            i.prefix == p && i.opcode == op && i.condition == c && i.dst == dst && i.opa == a && i.imm12 == v &&
            i.opb == v / 0x100
  {
  }

  lemma DecodeIV(p: prefix, c: nibble, op: opcode, dst: nibble, v: word)
    ensures var i := Decode(FormatIV(p, c, op, dst, v));
            i.prefix == p && i.opcode == op && i.condition == c && i.dst == dst && i.imm16 == v
  {
  }

  /** Formats III and IV each lose nothing: re-encoding the decoded fields restores the four bytes. */
  lemma ReencodeDecoded(w: code4)
    ensures var i := Decode(w);
            FormatIII(i.prefix, i.condition, i.opcode, i.dst, i.opa, i.imm12) == w
            && FormatIV(i.prefix, i.condition, i.opcode, i.dst, i.imm16) == w
  {
    var i := Decode(w);
    assert i.imm12 / 0x100 == w[2] % 0x10 && i.imm12 % 0x100 == w[3];
    assert i.imm16 / 0x100 == w[3] && i.imm16 % 0x100 == w[2];
  }

  /** Format II restores exactly the words whose last byte is zero. */
  lemma ReencodeII(w: code4)
    ensures var i := Decode(w);
            FormatII(i.prefix, i.condition, i.opcode, i.dst, i.opa, i.opb) == w <==> w[3] == 0
  {
    var i := Decode(w);
    assert FormatII(i.prefix, i.condition, i.opcode, i.dst, i.opa, i.opb)[..3] == w[..3];
  }

  /** Every field of a word is determined by its decoding. */
  lemma DecodeInjective(w: code4, w': code4)
    requires Decode(w) == Decode(w')
    ensures w == w'
  {
    ReencodeDecoded(w);
    ReencodeDecoded(w');
  }
}
