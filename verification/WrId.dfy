/** Work-request ids and the immediate data of a response.  The fields of a packed word do not
    overlap, so shifting and or-ing them together is written as a sum of multiples. */
module WrId {
  import opened Base

  const CONN_UNIT: nat := 0x1_0000_0000_0000
  const OPCODE_UNIT: nat := 0x100_0000_0000
  const GEN_UNIT: nat := 0x1_0000_0000

  function Encode(conn: uint16, opcode: uint8, gen: uint8, slot: uint32): nat {
    conn * CONN_UNIT + opcode * OPCODE_UNIT + gen * GEN_UNIT + slot
  }

  function GetConnId(wrId: nat): uint16 {
    wrId / CONN_UNIT % 0x1_0000
  }

  function GetOpcode(wrId: nat): uint8 {
    wrId / OPCODE_UNIT % 0x100
  }

  function GetGeneration(wrId: nat): uint8 {
    wrId / GEN_UNIT % 0x100
  }

  function GetSlotIndex(wrId: nat): uint32 {
    wrId % GEN_UNIT
  }

  /** Every 64-bit id is the encoding of its own fields, and of no other fields. */
  lemma EncodingIsBijective(conn: uint16, opcode: uint8, gen: uint8, slot: uint32, wrId: nat)
    requires wrId < 0x1_0000_0000_0000_0000
    ensures wrId == Encode(conn, opcode, gen, slot)
            <==> conn == GetConnId(wrId) && opcode == GetOpcode(wrId)
                 && gen == GetGeneration(wrId) && slot == GetSlotIndex(wrId)
  {
    FieldsOfEncoding(conn, opcode, gen, slot);
    EncodingOfFields(wrId);
  }

  lemma FieldsOfEncoding(conn: uint16, opcode: uint8, gen: uint8, slot: uint32)
    ensures var w := Encode(conn, opcode, gen, slot);
            GetConnId(w) == conn && GetOpcode(w) == opcode && GetGeneration(w) == gen && GetSlotIndex(w) == slot
  {
    Digits(conn, opcode * OPCODE_UNIT + gen * GEN_UNIT + slot, CONN_UNIT);
    Digits(conn * 0x100 + opcode, gen * GEN_UNIT + slot, OPCODE_UNIT);
    Digits(conn * 0x1_0000 + opcode * 0x100 + gen, slot, GEN_UNIT);
    Digits(conn, opcode, 0x100);
    Digits(conn * 0x100 + opcode, gen, 0x100);
  }

  lemma EncodingOfFields(w: nat)
    requires w < 0x1_0000_0000_0000_0000
    ensures Encode(GetConnId(w), GetOpcode(w), GetGeneration(w), GetSlotIndex(w)) == w
  {
    var a, slot := w / GEN_UNIT, w % GEN_UNIT;
    var b, gen := a / 0x100, a % 0x100;
    var conn, opcode := b / 0x100, b % 0x100;
    assert w == conn * CONN_UNIT + opcode * OPCODE_UNIT + gen * GEN_UNIT + slot;
    FieldsOfEncoding(conn, opcode, gen, slot);
  }

  /** The ids count like an odometer whose wheels, from the right, are the slot (2^32), the generation and
      the opcode (256 each) and the connection. */
  lemma EncodingIsOdometer(conn: uint16, opcode: uint8, gen: uint8, slot: uint32)
    ensures Encode(0, 0, 0, 0) == 0
    ensures Encode(conn, opcode, gen, slot) + 1
            == if slot < 0xFFFF_FFFF then Encode(conn, opcode, gen, slot + 1)
               else if gen < 0xFF then Encode(conn, opcode, gen + 1, 0)
               else if opcode < 0xFF then Encode(conn, opcode + 1, 0, 0)
               else if conn < 0xFFFF then Encode(conn + 1, 0, 0, 0)
               else 0x1_0000_0000_0000_0000
  {
  }

  // ----- immediate data of a zero-copy response: the token of the slot it completes -----

  function EncodeImm(gen: uint8, slot: uint32): uint32 {
    gen * 0x1_0000 + slot % 0x1_0000
  }

  function ImmSlot(imm: uint32): uint16 {
    imm % 0x1_0000
  }

  function ImmGeneration(imm: uint32): uint8 {
    imm / 0x1_0000 % 0x100
  }

  /** The 16 bits kept for the slot index are enough exactly because the pool has 65536 slots. */
  lemma ImmRoundTrip(gen: uint8, slot: uint32)
    ensures ImmGeneration(EncodeImm(gen, slot)) == gen
    ensures ImmSlot(EncodeImm(gen, slot)) == slot <==> slot < 0x1_0000
  {
    Digits(gen, slot % 0x1_0000, 0x1_0000);
  }

  /** And immediates like one with 16 bits of slot below 8 of generation: slot s of generation g is the
      (65536 g + s)-th of them. */
  lemma ImmIsNumbered(gen: uint8, slot: uint32)
    requires slot < 0x1_0000
    ensures EncodeImm(gen, slot) - slot == gen * 0x1_0000
  {
    Digits(0, slot, 0x1_0000);
  }
}
