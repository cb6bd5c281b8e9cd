/**
 * The audio codec's register transfers over I2C (sgtl5000.c): 16-bit addresses and data go out as
 * big-endian bytes, and a read reuses the buffer that held the address for the reply.
 */
module RegisterCodec {
  import opened Basics

  // ----- The far end: a register file that decodes the frames -----

  function Word(hi: bv8, lo: bv8): bv16 {
    ((hi as bv16) << 8) | (lo as bv16)
  }

  /** What stands at an address: registers are keyed by number, and one never written has its reset value. */
  function Lookup(regs: map<int, bv16>, reset: bv16 -> bv16, a: bv16): bv16 {
    if a as int in regs then regs[a as int] else reset(a)
  }

  function Update(regs: map<int, bv16>, a: bv16, d: bv16): map<int, bv16> {
    regs[a as int := d]
  }

  lemma UpdateThenLookup(regs: map<int, bv16>, reset: bv16 -> bv16, a: bv16, d: bv16, b: bv16)
    ensures Lookup(Update(regs, a, d), reset, b) == if a == b then d else Lookup(regs, reset, b)
  {
    if a as int == b as int {
      assert (a as int) as bv16 == a && (b as int) as bv16 == b;
    }
  }

  /** The chip: a four-byte frame writes a register, a two-byte frame selects one to be read. */
  class Codec {
    var regs: map<int, bv16>
    const reset: bv16 -> bv16
    ghost var sent: seq<seq<bv8>>  // the frames handed to the bus, byte by byte

    constructor (reset: bv16 -> bv16)
      ensures regs == map[] && this.reset == reset && sent == []
    {
      regs, this.reset, sent := map[], reset, [];
    }

    /** alt_avalon_i2c_master_tx; a transfer that fails does not reach the registers. */
    method MasterTx(buffer: array<bv8>, succeeds: bool) returns (ok: bool)
      requires buffer.Length == 4
      modifies this
      ensures ok == succeeds
      ensures regs == if ok then Update(old(regs), Word(buffer[0], buffer[1]), Word(buffer[2], buffer[3]))
                      else old(regs)
      ensures sent == old(sent) + [buffer[..]]
    {
      sent := sent + [buffer[..]];
      ok := succeeds;
      if ok {
        regs := Update(regs, Word(buffer[0], buffer[1]), Word(buffer[2], buffer[3]));
      }
    }

    /** alt_avalon_i2c_master_tx_rx: the address goes out of one buffer, the value comes into the other. */
    method MasterTxRx(tx: array<bv8>, rx: array<bv8>, succeeds: bool) returns (ok: bool)
      requires tx.Length == 2 && rx.Length == 2
      modifies rx, this`sent
      ensures ok == succeeds
      ensures ok ==> Word(rx[0], rx[1]) == Lookup(regs, reset, old(Word(tx[0], tx[1])))
      ensures sent == old(sent) + [old(tx[..])]
    {
      sent := sent + [tx[..]];
      ok := succeeds;
      if ok {
        var value := Lookup(regs, reset, Word(tx[0], tx[1]));
        Halves(value);
        rx[0], rx[1] := (value >> 8) as bv8, (value & 0xFF) as bv8;
      }
    }
  }

  lemma Halves(x: bv16)
    ensures (x & 0xFF00) >> 8 == x >> 8
    ensures Word((x >> 8) as bv8, (x & 0xFF) as bv8) == x
  {
  }

  // ----- The program -----

  /** SGTL5000_Reg_Rd; None when the transfer fails and the program hangs. */
  method RegRd(dev: Codec, address: bv16, succeeds: bool) returns (value: Option<bv16>)
    modifies dev`sent
    ensures dev.sent == old(dev.sent) + [[(address >> 8) as bv8, (address & 0xFF) as bv8]]
    ensures value == if succeeds then Some(Lookup(dev.regs, dev.reset, address)) else None
  {
    hide Lookup;
    var buffer := new bv8[2];
    Halves(address);
    buffer[0] := ((address & 0xFF00) >> 8) as bv8;
    buffer[1] := (address & 0x00FF) as bv8;
    assert Word(buffer[0], buffer[1]) == address;
    assert buffer[..] == [(address >> 8) as bv8, (address & 0xFF) as bv8];
    var ok := dev.MasterTxRx(buffer, buffer, succeeds);
    if !ok {
      return None;
    }
    value := Some(((buffer[0] as bv16) << 8) | (buffer[1] as bv16));
  }

  /** SGTL5000_Reg_Wr; None when the transfer fails and the program hangs. */
  method RegWr(dev: Codec, address: bv16, data: bv16, succeeds: bool) returns (value: Option<bv16>)
    modifies dev
    ensures value == if succeeds then Some(data) else None
    ensures dev.regs == if succeeds then Update(old(dev.regs), address, data) else old(dev.regs)
    ensures dev.sent == old(dev.sent) + [[(address >> 8) as bv8, (address & 0xFF) as bv8,
                                          (data >> 8) as bv8, (data & 0xFF) as bv8]]
  {
    var buffer := new bv8[4];
    Halves(address);
    Halves(data);
    buffer[0] := ((address & 0xFF00) >> 8) as bv8;
    buffer[1] := (address & 0x00FF) as bv8;
    buffer[2] := ((data & 0xFF00) >> 8) as bv8;
    buffer[3] := (data & 0x00FF) as bv8;
    assert Word(buffer[0], buffer[1]) == address && Word(buffer[2], buffer[3]) == data;
    assert buffer[..] == [(address >> 8) as bv8, (address & 0xFF) as bv8, (data >> 8) as bv8, (data & 0xFF) as bv8];
    hide Word;
    var ok := dev.MasterTx(buffer, succeeds);
    if !ok {
      return None;
    }
    value := Some(data);
  }

  // ----- Every sequence of transfers -----

  datatype Transfer = Read(address: bv16) | Write(address: bv16, data: bv16)

  /** The registers after successful transfers. */
  function After(regs: map<int, bv16>, ts: seq<Transfer>): map<int, bv16> {
    if ts == [] then regs
    else
      var before := After(regs, ts[..|ts| - 1]);
      match ts[|ts| - 1]
      case Read(_) => before
      case Write(a, d) => Update(before, a, d)
  }

  /** Transfer k is the last write to the address. */
  predicate LastWrite(ts: seq<Transfer>, k: nat, a: bv16) {
    && k < |ts| && ts[k].Write? && ts[k].address == a
    && forall j :: k < j < |ts| ==> !(ts[j].Write? && ts[j].address == a)
  }

  /** From any registers, an address holds what was last written to it. */
  lemma {:induction false} ReadsLastWrite(regs: map<int, bv16>, reset: bv16 -> bv16, ts: seq<Transfer>, a: bv16, k: nat)
    requires LastWrite(ts, k, a)
    ensures Lookup(After(regs, ts), reset, a) == ts[k].data
  {
    hide Lookup, Update;
    var front, last := ts[..|ts| - 1], ts[|ts| - 1];
    if last.Write? {
      UpdateThenLookup(After(regs, front), reset, last.address, last.data, a);
    }
    if k < |front| {
      assert forall j :: k < j < |front| ==> front[j] == ts[j];
      ReadsLastWrite(regs, reset, front, a, k);
    }
  }

  /** An address that is not written keeps what stood there. */
  lemma {:induction false} ReadsUnwritten(regs: map<int, bv16>, reset: bv16 -> bv16, ts: seq<Transfer>, a: bv16)
    requires forall k :: 0 <= k < |ts| ==> !(ts[k].Write? && ts[k].address == a)
    ensures Lookup(After(regs, ts), reset, a) == Lookup(regs, reset, a)
  {
    if ts != [] {
      hide Lookup, Update;
      var front, last := ts[..|ts| - 1], ts[|ts| - 1];
      ReadsUnwritten(regs, reset, front, a);
      if last.Write? {
        UpdateThenLookup(After(regs, front), reset, last.address, last.data, a);
      }
    }
  }

  /** The program carries out a sequence of transfers on the chip and collects what the reads return. */
  method Perform(dev: Codec, ts: seq<Transfer>) returns (results: seq<bv16>)
    modifies dev
    ensures dev.regs == After(old(dev.regs), ts)
    ensures |results| == |ts|
    ensures forall k :: 0 <= k < |ts| ==>
              results[k] == if ts[k].Write? then ts[k].data
                            else Lookup(After(old(dev.regs), ts[..k]), dev.reset, ts[k].address)
  {
    hide Lookup, Update;
    results := [];
    for i := 0 to |ts|
      invariant dev.regs == After(old(dev.regs), ts[..i])
      invariant |results| == i
      invariant forall k :: 0 <= k < i ==>
                  results[k] == if ts[k].Write? then ts[k].data
                                else Lookup(After(old(dev.regs), ts[..k]), dev.reset, ts[k].address)
    {
      assert ts[..i + 1][..i] == ts[..i];
      var r: Option<bv16>;
      match ts[i] {
        case Read(a) => r := RegRd(dev, a, true);
        case Write(a, d) => r := RegWr(dev, a, d, true);
      }
      results := results + [r.value];
    }
    assert ts[..|ts|] == ts;
  }
}
