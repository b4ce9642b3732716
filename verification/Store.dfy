/** The register and coil store of modbus_port.c and the callbacks that serve it. */
module Store {
  import opened Bytes
  import opened Bitfield
  import opened Adu

  const COIL_BUF_SIZE := 256
  const REG_BUF_SIZE := 256
  /** Bits in an nmbs_bitfield, the buffer a read callback fills. */
  const BITFIELD_MAX := 2000

  /** nmbs_server_t as a value: 2048 coils, 256 holding registers, 256 input registers. */
  datatype Db = Db(id: u8, coils: seq<bool>, regs: seq<u16>, inputs: seq<u16>)

  ghost predicate Sized(db: Db) {
    |db.coils| == 8 * COIL_BUF_SIZE && |db.regs| == REG_BUF_SIZE && |db.inputs| == REG_BUF_SIZE
  }

  //////////////////////////////////////////////////////////////////////////////
  // What the callbacks return. The loops compare with > where the arrays end one earlier, and use the pointer
  // get_server returns without testing it.
  //////////////////////////////////////////////////////////////////////////////

  /** Reading or writing registers [a, a+q) for a request that names unit. */
  function RegisterError(id: u8, unit: u8, a: u16, q: u16): Error {
    if q == 0 then NoError
    else if a > REG_BUF_SIZE then InvalidRequest
    else if unit != id || a + q > REG_BUF_SIZE then Fault
    else NoError
  }

  /** Writing coils [a, a+q). */
  function CoilWriteError(id: u8, unit: u8, a: u16, q: u16): Error {
    if q == 0 then NoError
    else if a / 8 > COIL_BUF_SIZE then InvalidRequest
    else if unit != id || a + q > 8 * COIL_BUF_SIZE then Fault
    else NoError
  }

  /** Reading coils [a, a+q): the bits are stored at their own addresses in a buffer of BITFIELD_MAX bits. */
  function CoilReadError(id: u8, unit: u8, a: u16, q: u16): Error {
    if q == 0 then NoError
    else if a / 8 > COIL_BUF_SIZE then InvalidRequest
    else if unit != id || a + q > BITFIELD_MAX then Fault
    else NoError
  }

  /** The bitfield server_read_coils leaves: bits a..a+q-1 of the store at their own positions, zero elsewhere. */
  function CoilsOut(coils: seq<bool>, a: nat, q: nat): (bits: seq<bool>)
    requires a + q <= BITFIELD_MAX && |coils| == 8 * COIL_BUF_SIZE
    ensures |bits| == BITFIELD_MAX
  {
    seq(BITFIELD_MAX, i requires 0 <= i < BITFIELD_MAX => a <= i < a + q && coils[i])
  }

  class Server {
    const id: u8
    const coils: array<u8>
    const regs: array<u16>
    const inputRegs: array<u16>

    ghost predicate Valid() {
      && coils.Length == COIL_BUF_SIZE && regs.Length == REG_BUF_SIZE && inputRegs.Length == REG_BUF_SIZE
      && regs != inputRegs
    }

    ghost function Repr(): set<object> {
      {coils as object, regs as object, inputRegs as object}
    }

    ghost function Contents(): (db: Db)
      requires Valid()
      reads coils, regs, inputRegs
      ensures Sized(db)
    {
      Db(id, BitsOf(coils[..]), regs[..], inputRegs[..])
    }

    constructor (id: u8)
      ensures Valid() && fresh(Repr()) && this.id == id
    {
      this.id := id;
      coils := new u8[COIL_BUF_SIZE];
      regs := new u16[REG_BUF_SIZE];
      inputRegs := new u16[REG_BUF_SIZE];
    }

    method ReadHoldingRegisters(address: u16, quantity: u16, registersOut: array<u16>, unitId: u8) returns (err: Error)
      requires Valid() && registersOut !in Repr() && quantity <= registersOut.Length
      modifies registersOut
      ensures err == RegisterError(id, unitId, address, quantity)
      ensures err == NoError && quantity > 0 ==> registersOut[..quantity] == regs[address..address + quantity]
    {
      err := ReadRegisters(regs, address, quantity, registersOut, unitId);
    }

    method ReadInputRegisters(address: u16, quantity: u16, registersOut: array<u16>, unitId: u8) returns (err: Error)
      requires Valid() && registersOut !in Repr() && quantity <= registersOut.Length
      modifies registersOut
      ensures err == RegisterError(id, unitId, address, quantity)
      ensures err == NoError && quantity > 0 ==> registersOut[..quantity] == inputRegs[address..address + quantity]
    {
      err := ReadRegisters(inputRegs, address, quantity, registersOut, unitId);
    }

    /** The loop both read callbacks share, over the table they read. */
    method ReadRegisters(table: array<u16>, address: u16, quantity: u16, registersOut: array<u16>, unitId: u8)
      returns (err: Error)
      requires table.Length == REG_BUF_SIZE && registersOut != table && quantity <= registersOut.Length
      modifies registersOut
      ensures err == RegisterError(id, unitId, address, quantity)
      ensures err == NoError && quantity > 0 ==> registersOut[..quantity] == table[address..address + quantity]
    {
      var at: nat := address;
      for i := 0 to quantity
        invariant at == address + i
        invariant i > 0 ==> unitId == id && at <= REG_BUF_SIZE
        invariant forall k :: 0 <= k < i ==> registersOut[k] == table[address + k]
      {
        if at > REG_BUF_SIZE {
          return InvalidRequest;
        }
        if unitId != id || at == REG_BUF_SIZE {
          return Fault;
        }
        registersOut[i] := table[at];
        at := at + 1;
      }
      return NoError;
    }

    method WriteMultipleRegisters(address: u16, quantity: u16, registers: array<u16>, unitId: u8) returns (err: Error)
      requires Valid() && registers !in Repr() && quantity <= registers.Length
      modifies regs
      ensures err == RegisterError(id, unitId, address, quantity)
      ensures err == NoError && quantity > 0 ==> regs[..] == Splice(old(regs[..]), address, registers[..quantity])
      ensures err == InvalidRequest ==> regs[..] == old(regs[..])
    {
      var at: nat := address;
      for i := 0 to quantity
        invariant at == address + i
        invariant i > 0 ==> unitId == id && at <= REG_BUF_SIZE
        invariant i == 0 ==> regs[..] == old(regs[..])
        invariant i > 0 ==> regs[..] == Splice(old(regs[..]), address, registers[..i])
      {
        if at > REG_BUF_SIZE {
          return InvalidRequest;
        }
        if unitId != id || at == REG_BUF_SIZE {
          return Fault;
        }
        SpliceStep(old(regs[..]), address, registers[..], i);
        assert registers[..][..i] == registers[..i] && registers[..][..i + 1] == registers[..i + 1];
        assert i == 0 ==> old(regs[..]) == Splice(old(regs[..]), address, registers[..i]);
        regs[at] := registers[i];
        at := at + 1;
      }
      return NoError;
    }

    method WriteSingleRegister(address: u16, value: u16, unitId: u8) returns (err: Error)
      requires Valid()
      modifies regs
      ensures err == RegisterError(id, unitId, address, 1)
      ensures err == NoError ==> regs[..] == old(regs[..])[address := value]
      ensures err == InvalidRequest ==> regs[..] == old(regs[..])
    {
      var reg := new u16[1];
      reg[0] := value;
      err := WriteMultipleRegisters(address, 1, reg, unitId);
    }

    method ReadCoils(address: u16, quantity: u16, coilsOut: array<u8>, unitId: u8) returns (err: Error)
      requires Valid() && coilsOut !in Repr() && 8 * coilsOut.Length == BITFIELD_MAX
      requires BitsOf(coilsOut[..]) == seq(BITFIELD_MAX, _ => false)
      modifies coilsOut
      ensures err == CoilReadError(id, unitId, address, quantity)
      ensures err == NoError && quantity > 0 ==> BitsOf(coilsOut[..]) == CoilsOut(BitsOf(coils[..]), address, quantity)
    {
      var at: nat := address;
      for i := 0 to quantity
        invariant at == address + i
        invariant i > 0 ==> unitId == id && at <= BITFIELD_MAX
        invariant i == 0 ==> BitsOf(coilsOut[..]) == seq(BITFIELD_MAX, _ => false)
        invariant i > 0 ==> BitsOf(coilsOut[..]) == CoilsOut(BitsOf(coils[..]), address, i)
      {
        if at / 8 > COIL_BUF_SIZE {
          return InvalidRequest;
        }
        if unitId != id || at >= BITFIELD_MAX {
          return Fault;
        }
        var bit := Read(coils, at);
        Write(coilsOut, at, bit);
        at := at + 1;
      }
      return NoError;
    }

    method WriteMultipleCoils(address: u16, quantity: u16, values: array<u8>, unitId: u8) returns (err: Error)
      requires Valid() && values !in Repr() && quantity <= 8 * values.Length
      modifies coils
      ensures err == CoilWriteError(id, unitId, address, quantity)
      ensures err == NoError && quantity > 0 ==>
        BitsOf(coils[..]) == Splice(old(BitsOf(coils[..])), address, BitsOf(values[..])[..quantity])
      ensures err == InvalidRequest ==> coils[..] == old(coils[..])
    {
      hide Splice, BitsOf;
      ghost var was, new_ := old(BitsOf(coils[..])), BitsOf(values[..]);
      assert new_[..0] == [];
      var at: nat := address;
      for i := 0 to quantity
        invariant at == address + i
        invariant i > 0 ==> unitId == id && at <= 8 * COIL_BUF_SIZE
        invariant i == 0 ==> coils[..] == old(coils[..])
        invariant i > 0 ==> BitsOf(coils[..]) == Splice(was, address, new_[..i])
      {
        if at / 8 > COIL_BUF_SIZE {
          return InvalidRequest;
        }
        if unitId != id || at >= 8 * COIL_BUF_SIZE {
          return Fault;
        }
        SpliceStep(was, address, new_, i);
        if i == 0 {
          SpliceNone(was, address);
        }
        var bit := Read(values, i);
        Write(coils, at, bit);
        at := at + 1;
      }
      return NoError;
    }

    method WriteSingleCoil(address: u16, value: bool, unitId: u8) returns (err: Error)
      requires Valid()
      modifies coils
      ensures err == CoilWriteError(id, unitId, address, 1)
      ensures err == NoError ==> BitsOf(coils[..]) == old(BitsOf(coils[..]))[address := value]
      ensures err == InvalidRequest ==> coils[..] == old(coils[..])
    {
      var coil := new u8[1];
      coil[0] := if value then 1 else 0;
      assert BitsOf(coil[..])[..1] == [value];
      err := WriteMultipleCoils(address, 1, coil, unitId);
    }
  }
}
