/**
 * From a USB keyboard report to the two NES controllers: the key fold of main.c, and the serial pad
 * hardware of CONTROLLER.sv that the game reads bit by bit.
 */
module Keypad {
  import opened Basics

  // ----- Keys to buttons -----

  const BUTTONS := 8

  type Button = n: nat | n < BUTTONS

  /** A, B, Select, Start, Up, Down, Left, Right: the key codes each controller has to itself. */
  const PAD_ONE: seq<bv8> := [14, 15, 49, 40, 26, 22, 4, 7]
  const PAD_TWO: seq<bv8> := [54, 55, 77, 78, 82, 81, 80, 79]

  /** Codes 30 to 37 press the same button on both controllers. */
  const SHARED: seq<bv8> := [30, 31, 32, 33, 34, 35, 36, 37]

  function Mask(n: Button): bv8 {
    match n
    case 0 => 0x01 case 1 => 0x02 case 2 => 0x04 case 3 => 0x08
    case 4 => 0x10 case 5 => 0x20 case 6 => 0x40 case 7 => 0x80
  }

  predicate Presses(pad: seq<bv8>, n: Button, code: bv8)
    requires |pad| == BUTTONS
  {
    code == pad[n] || code == SHARED[n]
  }

  predicate Down(keys: bv8, n: Button) {
    keys & Mask(n) != 0
  }

  /** The eight tests of one controller on one key code. */
  function KeyBits(pad: seq<bv8>, code: bv8): bv8
    requires |pad| == BUTTONS
  {
    (if code == pad[0] || code == 30 then 0x01 else 0) | (if code == pad[1] || code == 31 then 0x02 else 0) |
    (if code == pad[2] || code == 32 then 0x04 else 0) | (if code == pad[3] || code == 33 then 0x08 else 0) |
    (if code == pad[4] || code == 34 then 0x10 else 0) | (if code == pad[5] || code == 35 then 0x20 else 0) |
    (if code == pad[6] || code == 36 then 0x40 else 0) | (if code == pad[7] || code == 37 then 0x80 else 0)
  }

  lemma KeyBitsDown(pad: seq<bv8>, code: bv8, n: Button)
    requires |pad| == BUTTONS
    ensures Down(KeyBits(pad, code), n) <==> Presses(pad, n, code)
  {
  }

  lemma DownOr(a: bv8, b: bv8, n: Button)
    ensures Down(a | b, n) <==> Down(a, n) || Down(b, n)
  {
  }

  lemma DownDetermines(a: bv8, b: bv8)
    requires forall n: Button :: Down(a, n) <==> Down(b, n)
    ensures a == b
  {
    assert Down(a, 0) <==> Down(b, 0);
    assert Down(a, 1) <==> Down(b, 1);
    assert Down(a, 2) <==> Down(b, 2);
    assert Down(a, 3) <==> Down(b, 3);
    assert Down(a, 4) <==> Down(b, 4);
    assert Down(a, 5) <==> Down(b, 5);
    assert Down(a, 6) <==> Down(b, 6);
    assert Down(a, 7) <==> Down(b, 7);
  }

  /** Some code of the report presses the button. */
  ghost predicate Pressed(pad: seq<bv8>, n: Button, codes: seq<bv8>)
    requires |pad| == BUTTONS
  {
    exists k :: 0 <= k < |codes| && Presses(pad, n, codes[k])
  }

  /** The byte whose bits are exactly the pressed buttons. */
  ghost predicate IsPadState(pad: seq<bv8>, codes: seq<bv8>, keys: bv8)
    requires |pad| == BUTTONS
  {
    forall n: Button :: Down(keys, n) <==> Pressed(pad, n, codes)
  }

  lemma PadStateStep(pad: seq<bv8>, codes: seq<bv8>, i: nat, keys: bv8)
    requires |pad| == BUTTONS && i < |codes| && IsPadState(pad, codes[..i], keys)
    ensures IsPadState(pad, codes[..i + 1], keys | KeyBits(pad, codes[i]))
  {
    var front, next := codes[..i], codes[..i + 1];
    hide KeyBits, Down, Presses;
    forall n: Button
      ensures Down(keys | KeyBits(pad, codes[i]), n) <==> Pressed(pad, n, next)
    {
      DownOr(keys, KeyBits(pad, codes[i]), n);
      KeyBitsDown(pad, codes[i], n);
      assert forall k :: 0 <= k < i ==> front[k] == next[k];
      assert next[i] == codes[i];
    }
  }

  lemma EmptyPad(pad: seq<bv8>)
    requires |pad| == BUTTONS
    ensures IsPadState(pad, [], 0)
  {
  }

  /** Some byte is the pad state of any report. */
  lemma {:induction false} PadStateExists(pad: seq<bv8>, codes: seq<bv8>, n: nat) returns (keys: bv8)
    requires |pad| == BUTTONS && n <= |codes|
    ensures IsPadState(pad, codes[..n], keys)
  {
    keys := 0;
    if n > 0 {
      var front := PadStateExists(pad, codes, n - 1);
      PadStateStep(pad, codes, n - 1, front);
      hide KeyBits;
      keys := front | KeyBits(pad, codes[n - 1]);
    }
  }

  lemma PressedCodes(pad: seq<bv8>, n: Button, codes: seq<bv8>)
    requires |pad| == BUTTONS
    ensures Pressed(pad, n, codes) <==> pad[n] in codes || SHARED[n] in codes
  {
    if pad[n] in codes {
      var k :| 0 <= k < |codes| && codes[k] == pad[n];
      assert Presses(pad, n, codes[k]);
    }
    if SHARED[n] in codes {
      var k :| 0 <= k < |codes| && codes[k] == SHARED[n];
      assert Presses(pad, n, codes[k]);
    }
  }

  lemma ButtonBits(keys: bv8)
    ensures (Down(keys, 0) <==> keys & 0x01 != 0) && (Down(keys, 1) <==> keys & 0x02 != 0)
    ensures (Down(keys, 2) <==> keys & 0x04 != 0) && (Down(keys, 3) <==> keys & 0x08 != 0)
    ensures (Down(keys, 4) <==> keys & 0x10 != 0) && (Down(keys, 5) <==> keys & 0x20 != 0)
    ensures (Down(keys, 6) <==> keys & 0x40 != 0) && (Down(keys, 7) <==> keys & 0x80 != 0)
  {
  }

  /** Which key codes press which bit of the first controller's byte. */
  lemma KeysOne(codes: seq<bv8>, one: bv8)
    requires IsPadState(PAD_ONE, codes, one)
    ensures one & 0x01 != 0 <==> 14 in codes || 30 in codes
    ensures one & 0x02 != 0 <==> 15 in codes || 31 in codes
    ensures one & 0x04 != 0 <==> 49 in codes || 32 in codes
    ensures one & 0x08 != 0 <==> 40 in codes || 33 in codes
    ensures one & 0x10 != 0 <==> 26 in codes || 34 in codes
    ensures one & 0x20 != 0 <==> 22 in codes || 35 in codes
    ensures one & 0x40 != 0 <==> 4 in codes || 36 in codes
    ensures one & 0x80 != 0 <==> 7 in codes || 37 in codes
  {
    ButtonBits(one);
    hide Down, Pressed;
    forall n: Button
      ensures Down(one, n) <==> PAD_ONE[n] in codes || SHARED[n] in codes
    {
      PressedCodes(PAD_ONE, n, codes);
    }
  }

  /** And of the second controller's. */
  lemma KeysTwo(codes: seq<bv8>, two: bv8)
    requires IsPadState(PAD_TWO, codes, two)
    ensures two & 0x01 != 0 <==> 54 in codes || 30 in codes
    ensures two & 0x02 != 0 <==> 55 in codes || 31 in codes
    ensures two & 0x04 != 0 <==> 77 in codes || 32 in codes
    ensures two & 0x08 != 0 <==> 78 in codes || 33 in codes
    ensures two & 0x10 != 0 <==> 82 in codes || 34 in codes
    ensures two & 0x20 != 0 <==> 81 in codes || 35 in codes
    ensures two & 0x40 != 0 <==> 80 in codes || 36 in codes
    ensures two & 0x80 != 0 <==> 79 in codes || 37 in codes
  {
    ButtonBits(two);
    hide Down, Pressed;
    forall n: Button
      ensures Down(two, n) <==> PAD_TWO[n] in codes || SHARED[n] in codes
    {
      PressedCodes(PAD_TWO, n, codes);
    }
  }

  /** The loop over the key codes of a report, for reports of any length. */
  method FoldKeys(codes: seq<bv8>) returns (one: bv8, two: bv8)
    ensures one & 0x01 != 0 <==> 14 in codes || 30 in codes
    ensures one & 0x02 != 0 <==> 15 in codes || 31 in codes
    ensures one & 0x04 != 0 <==> 49 in codes || 32 in codes
    ensures one & 0x08 != 0 <==> 40 in codes || 33 in codes
    ensures one & 0x10 != 0 <==> 26 in codes || 34 in codes
    ensures one & 0x20 != 0 <==> 22 in codes || 35 in codes
    ensures one & 0x40 != 0 <==> 4 in codes || 36 in codes
    ensures one & 0x80 != 0 <==> 7 in codes || 37 in codes
    ensures two & 0x01 != 0 <==> 54 in codes || 30 in codes
    ensures two & 0x02 != 0 <==> 55 in codes || 31 in codes
    ensures two & 0x04 != 0 <==> 77 in codes || 32 in codes
    ensures two & 0x08 != 0 <==> 78 in codes || 33 in codes
    ensures two & 0x10 != 0 <==> 82 in codes || 34 in codes
    ensures two & 0x20 != 0 <==> 81 in codes || 35 in codes
    ensures two & 0x40 != 0 <==> 80 in codes || 36 in codes
    ensures two & 0x80 != 0 <==> 79 in codes || 37 in codes
    ensures IsPadState(PAD_ONE, codes, one) && IsPadState(PAD_TWO, codes, two)
  {
    hide KeyBits, Presses, IsPadState;
    EmptyPad(PAD_ONE);
    EmptyPad(PAD_TWO);
    one, two := 0x00, 0x00;
    for i := 0 to |codes|
      invariant IsPadState(PAD_ONE, codes[..i], one)
      invariant IsPadState(PAD_TWO, codes[..i], two)
    {
      PadStateStep(PAD_ONE, codes, i, one);
      PadStateStep(PAD_TWO, codes, i, two);
      one := one | KeyBits(PAD_ONE, codes[i]);
      two := two | KeyBits(PAD_TWO, codes[i]);
    }
    assert codes[..|codes|] == codes;
    KeysOne(codes, one);
    KeysTwo(codes, two);
  }

  /** The fold depends only on the set of codes: order and repetition do not matter. */
  lemma OrderOfKeysIrrelevant(pad: seq<bv8>, codes: seq<bv8>, codes': seq<bv8>, keys: bv8, keys': bv8)
    requires |pad| == BUTTONS && IsPadState(pad, codes, keys) && IsPadState(pad, codes', keys')
    requires forall c :: c in codes <==> c in codes'
    ensures keys == keys'
  {
    hide Down;
    forall n: Button
      ensures Pressed(pad, n, codes) <==> Pressed(pad, n, codes')
    {
      PressedStill(pad, n, codes, codes');
      PressedStill(pad, n, codes', codes);
    }
    DownDetermines(keys, keys');
  }

  lemma PressedStill(pad: seq<bv8>, n: Button, codes: seq<bv8>, codes': seq<bv8>)
    requires |pad| == BUTTONS && forall c :: c in codes ==> c in codes'
    ensures Pressed(pad, n, codes) ==> Pressed(pad, n, codes')
  {
    hide Presses;
    if Pressed(pad, n, codes) {
      var k :| 0 <= k < |codes| && Presses(pad, n, codes[k]);
      var c := codes[k];
      assert c in codes;
      var j :| 0 <= j < |codes'| && codes'[j] == c;
      assert Presses(pad, n, codes'[j]);
    }
  }

  /** Two reports together press what either presses. */
  lemma ReportsCombine(pad: seq<bv8>, a: seq<bv8>, b: seq<bv8>, keysA: bv8, keysB: bv8, keys: bv8)
    requires |pad| == BUTTONS && IsPadState(pad, a, keysA) && IsPadState(pad, b, keysB) && IsPadState(pad, a + b, keys)
    ensures keys == keysA | keysB
  {
    hide Presses;
    forall n: Button
      ensures Down(keys, n) <==> Down(keysA | keysB, n)
    {
      DownOr(keysA, keysB, n);
      hide Down;
      assert forall k :: 0 <= k < |a| ==> (a + b)[k] == a[k];
      assert forall k :: 0 <= k < |b| ==> (a + b)[|a| + k] == b[k];
    }
    DownDetermines(keys, keysA | keysB);
  }

  // ----- The serial pad -----

  /** The registers of CONTROLLER.sv; `data` is bit 0 of data_out. */
  datatype Pad = Pad(rdenPrev: bool, shiftReq: bool, shiftHandle: bool, strobe: bool, keys: bv8, data: bool)

  datatype Wires = Wires(rden: bool, wren: bool, dataIn: bool, keycodes: bv8)

  /** One clock edge outside reset: every register takes its value from the old ones. */
  function PadClock(p: Pad, w: Wires): Pad {
    var edge := !p.rdenPrev && w.rden;
    var shifting := p.shiftReq != p.shiftHandle;
    Pad(if !p.rdenPrev then w.rden else if !w.rden then false else p.rdenPrev,
        if edge then !p.shiftReq else p.shiftReq,
        if shifting then !p.shiftHandle else p.shiftHandle,
        if w.wren then w.dataIn else p.strobe,
        if p.strobe then w.keycodes
        else if shifting then ShiftIn(p.keys)
        else p.keys,
        if edge then LowBit(p.keys) else p.data)
  }

  /** {1'b1, keys[7:1]}. */
  function ShiftIn(keys: bv8): bv8 {
    0x80 | (keys >> 1)
  }

  predicate LowBit(keys: bv8) {
    keys & 0x01 != 0
  }

  function PadRun(p: Pad, ws: seq<Wires>): Pad {
    if ws == [] then p else PadClock(PadRun(p, ws[..|ws| - 1]), ws[|ws| - 1])
  }

  /** After reset. */
  const PAD_RESET := Pad(false, false, false, false, 0, false)

  // ----- Traces: what the wires alone say -----

  /** The read line rises in cycle k. */
  predicate Edge(p: Pad, ws: seq<Wires>, k: nat)
    requires k < |ws|
  {
    ws[k].rden && !(if k == 0 then p.rdenPrev else ws[k - 1].rden)
  }

  /** The strobe is up when cycle k begins: the last write, if any, wrote it on. */
  predicate Up(p: Pad, ws: seq<Wires>, k: nat)
    requires k <= |ws|
  {
    if k == 0 then p.strobe else if ws[k - 1].wren then ws[k - 1].dataIn else Up(p, ws, k - 1)
  }

  /** Cycle u is the last one before cycle t that begins with the strobe up. */
  ghost predicate LastUp(p: Pad, ws: seq<Wires>, u: nat, t: nat)
    requires t <= |ws|
  {
    u < t && Up(p, ws, u) && forall k :: u < k < t ==> !Up(p, ws, k)
  }

  /** Cycle e is the last one in which the read line rises. */
  ghost predicate LastEdge(p: Pad, ws: seq<Wires>, e: nat) {
    e < |ws| && Edge(p, ws, e) && forall k :: e < k < |ws| ==> !Edge(p, ws, k)
  }

  /** How many reads begin in cycles from..to. */
  function Reads(p: Pad, ws: seq<Wires>, from: nat, to: nat): nat
    requires to <= |ws|
  {
    if to <= from then 0 else Reads(p, ws, from, to - 1) + if Edge(p, ws, to - 1) then 1 else 0
  }

  // ----- What the registers make of a trace -----

  /** A shift is outstanding. */
  predicate Pending(p: Pad) {
    p.shiftReq != p.shiftHandle
  }

  lemma PadStep(p: Pad, ws: seq<Wires>, t: nat)
    requires t < |ws|
    ensures PadRun(p, ws[..t + 1]) == PadClock(PadRun(p, ws[..t]), ws[t])
  {
    assert ws[..t + 1][..t] == ws[..t];
  }

  /** The handshake never falls behind: a shift is outstanding exactly in the cycle after an edge. */
  lemma {:induction false} Handshake(p: Pad, ws: seq<Wires>, t: nat)
    requires t <= |ws|
    ensures var q := PadRun(p, ws[..t]);
            && q.rdenPrev == (if t == 0 then p.rdenPrev else ws[t - 1].rden)
            && q.strobe == Up(p, ws, t)
            && (Pending(q) <==> if t == 0 then Pending(p) else Edge(p, ws, t - 1))
  {
    hide ShiftIn, LowBit;
    if t > 0 {
      Handshake(p, ws, t - 1);
      PadStep(p, ws, t - 1);
    }
  }

  /**
   * From any register state: while the strobe is up the key codes load in every cycle, reads or not, so
   * the last such cycle decides; then each read shifts once, one cycle after it begins.
   */
  lemma {:induction false} StrobeLoads(p: Pad, ws: seq<Wires>, u: nat, t: nat)
    requires t <= |ws| && LastUp(p, ws, u, t)
    ensures PadRun(p, ws[..t]).keys == Shifted(ws[u].keycodes, Reads(p, ws, u, t - 1))
  {
    hide ShiftIn, LowBit, Up;
    Handshake(p, ws, t - 1);
    PadStep(p, ws, t - 1);
    if u < t - 1 {
      StrobeLoads(p, ws, u, t - 1);
    }
  }

  /** Without a strobe every read shifts exactly once, whatever its duration, a one coming in at the top. */
  lemma {:induction false} ReadShifts(p: Pad, ws: seq<Wires>, t: nat)
    requires 0 < t <= |ws| && forall k :: 0 <= k < t ==> !Up(p, ws, k)
    ensures PadRun(p, ws[..t]).keys == Shifted(p.keys, Reads(p, ws, 0, t - 1) + if Pending(p) then 1 else 0)
  {
    hide ShiftIn, LowBit, Up;
    Handshake(p, ws, t - 1);
    PadStep(p, ws, t - 1);
    if t > 1 {
      ReadShifts(p, ws, t - 1);
    }
  }

  /** From the cycle in which a read begins until the next one begins, the pad puts out the low bit it had. */
  lemma {:induction false} DataHeld(p: Pad, ws: seq<Wires>, e: nat, t: nat)
    requires e < t <= |ws| && Edge(p, ws, e) && forall k :: e < k < t ==> !Edge(p, ws, k)
    ensures PadRun(p, ws[..t]).data == LowBit(PadRun(p, ws[..e]).keys)
  {
    hide ShiftIn, LowBit, Up;
    Handshake(p, ws, t - 1);
    PadStep(p, ws, t - 1);
    if e < t - 1 {
      assert !Edge(p, ws, t - 1);
      DataHeld(p, ws, e, t - 1);
    } else {
      assert t - 1 == e;
    }
  }

  /** The register after k shifts. */
  function Shifted(keys: bv8, k: nat): bv8 {
    if k == 0 then keys else ShiftIn(Shifted(keys, k - 1))
  }

  lemma FirstShifts(keys: bv8)
    ensures Shifted(keys, 1) == 0x80 | (keys >> 1) && Shifted(keys, 2) == 0xC0 | (keys >> 2)
    ensures Shifted(keys, 3) == 0xE0 | (keys >> 3) && Shifted(keys, 4) == 0xF0 | (keys >> 4)
    ensures Shifted(keys, 5) == 0xF8 | (keys >> 5) && Shifted(keys, 6) == 0xFC | (keys >> 6)
    ensures Shifted(keys, 7) == 0xFE | (keys >> 7) && Shifted(keys, 8) == 0xFF
  {
    assert Shifted(keys, 1) == 0x80 | (keys >> 1);
    assert Shifted(keys, 2) == 0xC0 | (keys >> 2);
    assert Shifted(keys, 3) == 0xE0 | (keys >> 3);
    assert Shifted(keys, 4) == 0xF0 | (keys >> 4);
    assert Shifted(keys, 5) == 0xF8 | (keys >> 5);
    assert Shifted(keys, 6) == 0xFC | (keys >> 6);
    assert Shifted(keys, 7) == 0xFE | (keys >> 7);
  }

  /** The low bit after k shifts is bit k of the start; once those are out, ones follow. */
  lemma {:induction false} ShiftedBit(keys: bv8, k: nat)
    ensures LowBit(Shifted(keys, k)) <==> if k < BUTTONS then Down(keys, k) else true
    ensures k >= BUTTONS ==> Shifted(keys, k) == 0xFF
  {
    if k <= BUTTONS {
      FirstShifts(keys);
      assert k == 0 || k == 1 || k == 2 || k == 3 || k == 4 || k == 5 || k == 6 || k == 7 || k == 8;
    } else {
      ShiftedBit(keys, k - 1);
    }
  }

  // ----- Polling -----

  /** What a read puts out after n others: bit n of the key codes, then ones. */
  predicate Serial(keys: bv8, n: nat) {
    n < BUTTONS ==> Down(keys, n)
  }

  /** From any register state, the answer to a read depends only on the codes loaded last and the reads since. */
  lemma ReadAnswers(p: Pad, ws: seq<Wires>, u: nat, e: nat)
    requires LastEdge(p, ws, e) && LastUp(p, ws, u, e)
    ensures PadRun(p, ws).data <==> Serial(ws[u].keycodes, Reads(p, ws, u, e))
  {
    hide Shifted, LowBit, Down, Up;
    assert ws[..|ws|] == ws;
    DataHeld(p, ws, e, |ws|);
    StrobeLoads(p, ws, u, e);
    assert !Edge(p, ws, e - 1);
    ShiftedBit(ws[u].keycodes, Reads(p, ws, u, e));
  }

  /**
   * Keyboard to game, on any trace of the wires and from any register state: the read with n others
   * before it since the strobe returns 1 exactly when the report loaded last holds a key of button n,
   * and 1 for every read past the eighth. The key codes may change in every cycle, the two lines may
   * rest for any time anywhere, and reads while the strobe is up do no harm.
   */
  lemma PolledButtons(p: Pad, pad: seq<bv8>, codes: seq<bv8>, ws: seq<Wires>, u: nat, e: nat)
    requires LastEdge(p, ws, e) && LastUp(p, ws, u, e)
    requires |pad| == BUTTONS && IsPadState(pad, codes, ws[u].keycodes)
    ensures var n := Reads(p, ws, u, e);
            PadRun(p, ws).data <==> if n < BUTTONS then Pressed(pad, n, codes) else true
  {
    hide PadRun, Down, Presses, LastUp, LastEdge;
    ReadAnswers(p, ws, u, e);
  }

  /** A read that begins while the strobe is up puts out button A of the key codes loaded the cycle before. */
  lemma ReadWhileStrobing(p: Pad, ws: seq<Wires>, e: nat)
    requires LastEdge(p, ws, e) && e > 0 && Up(p, ws, e - 1)
    ensures PadRun(p, ws).data <==> Down(ws[e - 1].keycodes, 0)
  {
    hide Down, Up;
    ReadAnswers(p, ws, e - 1, e);
  }

  /** The answer to every read since reset, on every trace: before the first strobe all buttons are up. */
  lemma EveryReadFromReset(ws: seq<Wires>, e: nat)
    requires LastEdge(PAD_RESET, ws, e)
    ensures forall u: nat :: LastUp(PAD_RESET, ws, u, e) ==>
              (PadRun(PAD_RESET, ws).data <==> Serial(ws[u].keycodes, Reads(PAD_RESET, ws, u, e)))
    ensures (forall k :: 0 <= k < e ==> !Up(PAD_RESET, ws, k)) ==>
              (PadRun(PAD_RESET, ws).data <==> Reads(PAD_RESET, ws, 0, e) >= BUTTONS)
    ensures (exists u: nat :: LastUp(PAD_RESET, ws, u, e)) || (forall k :: 0 <= k < e ==> !Up(PAD_RESET, ws, k))
  {
    var p := PAD_RESET;
    forall u: nat | LastUp(p, ws, u, e)
      ensures PadRun(p, ws).data <==> Serial(ws[u].keycodes, Reads(p, ws, u, e))
    {
      ReadAnswers(p, ws, u, e);
    }
    if k :| 0 <= k < e && Up(p, ws, k) {
      var u := LastUpExists(p, ws, k, e);
    } else {
      hide Shifted, LowBit, Up;
      assert ws[..|ws|] == ws;
      DataHeld(p, ws, e, |ws|);
      if e > 0 {
        ReadShifts(p, ws, e);
        assert !Edge(p, ws, e - 1);
      }
      ShiftedBit(0, Reads(p, ws, 0, e));
    }
  }

  lemma {:induction false} LastUpExists(p: Pad, ws: seq<Wires>, k: nat, t: nat) returns (u: nat)
    requires k < t <= |ws| && Up(p, ws, k)
    ensures LastUp(p, ws, u, t)
  {
    if Up(p, ws, t - 1) {
      u := t - 1;
    } else {
      u := LastUpExists(p, ws, k, t - 1);
    }
  }

  // ----- The two ports on the CPU bus -----

  /** One memory clock cycle of the CPU bus, and the codes at the two controllers. */
  datatype BusCycle = BusCycle(dma: bool, address: bv16, read: bool, dataOut: bv8, codes: Port -> bv8)

  datatype Port = One | Two

  function PortAddress(port: Port): bv16 {
    match port case One => 0x4016 case Two => 0x4017
  }

  /** The CPU stores to 0x4016, which both controllers take. */
  predicate Stores(c: BusCycle) {
    !c.dma && !c.read && c.address == 0x4016
  }

  /** The CPU loads from the port. */
  predicate Loads(c: BusCycle, port: Port) {
    !c.dma && c.read && c.address == PortAddress(port)
  }

  function PortWires(cs: seq<BusCycle>, port: Port): (ws: seq<Wires>)
    ensures |ws| == |cs|
  {
    seq(|cs|, k requires 0 <= k < |cs| =>
      Wires(Loads(cs[k], port), Stores(cs[k]), LowBit(cs[k].dataOut), cs[k].codes(port)))
  }

  /** How many loads from an address begin in bus cycles from..to. */
  function LoadsBegun(cs: seq<BusCycle>, address: bv16, from: nat, to: nat): nat
    requires 0 < from && to <= |cs|
  {
    if to <= from then 0
    else LoadsBegun(cs, address, from, to - 1)
         + if LoadBegins(cs, address, to - 1) then 1 else 0
  }

  predicate LoadBegins(cs: seq<BusCycle>, address: bv16, k: nat)
    requires 0 < k < |cs|
  {
    && !cs[k].dma && cs[k].read && cs[k].address == address
    && !(!cs[k - 1].dma && cs[k - 1].read && cs[k - 1].address == address)
  }

  lemma StoreWires(cs: seq<BusCycle>, port: Port, k: nat)
    requires k < |cs|
    ensures var ws := PortWires(cs, port);
            && (ws[k].wren <==> !cs[k].dma && !cs[k].read && cs[k].address == 0x4016)
            && (ws[k].dataIn <==> cs[k].dataOut & 0x01 != 0)
  {
    assert PortWires(cs, port)[k] == Wires(Loads(cs[k], port), Stores(cs[k]), LowBit(cs[k].dataOut), cs[k].codes(port));
  }

  lemma LoadIsEdge(p: Pad, cs: seq<BusCycle>, port: Port, k: nat)
    requires 0 < k < |cs|
    ensures Edge(p, PortWires(cs, port), k) <==> LoadBegins(cs, PortAddress(port), k)
  {
    hide LowBit;
    var ws := PortWires(cs, port);
    assert ws[k].rden == Loads(cs[k], port) && ws[k - 1].rden == Loads(cs[k - 1], port);
  }

  lemma {:induction false} LoadsAreReads(p: Pad, cs: seq<BusCycle>, port: Port, from: nat, to: nat)
    requires 0 < from && to <= |cs|
    ensures Reads(p, PortWires(cs, port), from, to) == LoadsBegun(cs, PortAddress(port), from, to)
  {
    hide LowBit, LoadBegins, PortWires, Edge;
    if to > from {
      LoadsAreReads(p, cs, port, from, to - 1);
      LoadIsEdge(p, cs, port, to - 1);
    }
  }

  /** The strobe of a poll: a one is stored to 0x4016 in cycle w, a zero in cycle u, and no one again up to e. */
  predicate Strobed(cs: seq<BusCycle>, w: nat, u: nat, e: nat) {
    && w < u < e < |cs|
    && !cs[w].dma && !cs[w].read && cs[w].address == 0x4016 && cs[w].dataOut & 0x01 != 0
    && !cs[u].dma && !cs[u].read && cs[u].address == 0x4016 && cs[u].dataOut & 0x01 == 0
    && (forall k :: w < k < u && !cs[k].dma && !cs[k].read && cs[k].address == 0x4016 ==>
          cs[k].dataOut & 0x01 != 0)
    && (forall k :: u < k < e && !cs[k].dma && !cs[k].read && cs[k].address == 0x4016 ==>
          cs[k].dataOut & 0x01 == 0)
  }

  /** The load that begins in cycle e is the last one from the address. */
  predicate LastLoad(cs: seq<BusCycle>, address: bv16, e: nat) {
    && 0 < e < |cs| && LoadBegins(cs, address, e)
    && forall k :: e < k < |cs| ==> !LoadBegins(cs, address, k)
  }

  /**
   * The procedure a game follows, for either port: store a one to 0x4016 in cycle w, a zero in cycle u,
   * and load. Between these the CPU may do anything but store a one again: stores last any number of
   * cycles, and instruction fetches, DMA and loads from the other port come in between.
   */
  lemma PortPoll(p: Pad, cs: seq<BusCycle>, port: Port, w: nat, u: nat, e: nat)
    requires Strobed(cs, w, u, e) && LastLoad(cs, PortAddress(port), e)
    ensures PadRun(p, PortWires(cs, port)).data
            <==> Serial(cs[u].codes(port), LoadsBegun(cs, PortAddress(port), u, e))
  {
    var ws := PortWires(cs, port);
    forall k: nat | k < |cs|
      ensures ws[k].wren <==> !cs[k].dma && !cs[k].read && cs[k].address == 0x4016
      ensures ws[k].dataIn <==> cs[k].dataOut & 0x01 != 0
    {
      StoreWires(cs, port, k);
    }
    hide PadRun, Serial, PortWires;
    StaysUp(p, ws, w, u);
    StaysDown(p, ws, u, e);
    LoadsAreReads(p, cs, port, u, e);
    forall k: nat | 0 < k < |cs|
      ensures Edge(p, ws, k) <==> LoadBegins(cs, PortAddress(port), k)
    {
      LoadIsEdge(p, cs, port, k);
    }
    hide PortAddress, LoadBegins, Edge;
    ReadAnswers(p, ws, u, e);
  }

  /** Bit n of a byte; ones follow the byte. */
  predicate Answer(keys: bv8, n: nat) {
    n < 8 ==> keys & [0x01, 0x02, 0x04, 0x08, 0x10, 0x20, 0x40, 0x80][n] != 0
  }

  lemma SerialAnswer(keys: bv8, n: nat)
    ensures Serial(keys, n) <==> Answer(keys, n)
  {
    if n < 8 {
      ButtonBits(keys);
      hide Down;
      assert n == 0 || n == 1 || n == 2 || n == 3 || n == 4 || n == 5 || n == 6 || n == 7;
    }
  }

  /**
   * The same on the bus itself: the load from 0x4016 with n others before it since the strobe is
   * answered with bit n of controller one's codes, and a load from 0x4017 with controller two's.
   */
  lemma GamePoll(p: Pad, cs: seq<BusCycle>, w: nat, u: nat, e: nat)
    requires Strobed(cs, w, u, e)
    ensures LastLoad(cs, 0x4016, e) ==>
              (PadRun(p, PortWires(cs, One)).data <==> Answer(cs[u].codes(One), LoadsBegun(cs, 0x4016, u, e)))
    ensures LastLoad(cs, 0x4017, e) ==>
              (PadRun(p, PortWires(cs, Two)).data <==> Answer(cs[u].codes(Two), LoadsBegun(cs, 0x4017, u, e)))
  {
    hide PadRun, PortWires, LoadBegins, LoadsBegun, Serial, Answer;
    if LastLoad(cs, 0x4016, e) {
      PortPoll(p, cs, One, w, u, e);
      SerialAnswer(cs[u].codes(One), LoadsBegun(cs, 0x4016, u, e));
    }
    if LastLoad(cs, 0x4017, e) {
      PortPoll(p, cs, Two, w, u, e);
      SerialAnswer(cs[u].codes(Two), LoadsBegun(cs, 0x4017, u, e));
    }
  }

  /** The report holds the controller's own key of button n or the shared one; ones follow the buttons. */
  predicate KeyAnswer(own: seq<bv8>, codes: seq<bv8>, n: nat)
    requires |own| == 8
  {
    n < 8 ==> own[n] in codes || [30, 31, 32, 33, 34, 35, 36, 37][n] in codes
  }

  /**
   * From key to game: when the ports carry what the fold made of a report, the game's n-th load since its
   * strobe returns 1 exactly when the report holds one of button n's two key codes.
   */
  lemma KeysReachGame(p: Pad, cs: seq<BusCycle>, codes: seq<bv8>, w: nat, u: nat, e: nat)
    requires Strobed(cs, w, u, e)
    requires IsPadState(PAD_ONE, codes, cs[u].codes(One)) && IsPadState(PAD_TWO, codes, cs[u].codes(Two))
    ensures LastLoad(cs, 0x4016, e) ==>
              (PadRun(p, PortWires(cs, One)).data
               <==> KeyAnswer([14, 15, 49, 40, 26, 22, 4, 7], codes, LoadsBegun(cs, 0x4016, u, e)))
    ensures LastLoad(cs, 0x4017, e) ==>
              (PadRun(p, PortWires(cs, Two)).data
               <==> KeyAnswer([54, 55, 77, 78, 82, 81, 80, 79], codes, LoadsBegun(cs, 0x4017, u, e)))
  {
    GamePoll(p, cs, w, u, e);
    KeyAnswers(PAD_ONE, codes, cs[u].codes(One), LoadsBegun(cs, 0x4016, u, e));
    KeyAnswers(PAD_TWO, codes, cs[u].codes(Two), LoadsBegun(cs, 0x4017, u, e));
    hide PadRun, PortWires, LastLoad, LoadsBegun, IsPadState, KeyAnswer, Answer;
  }

  lemma KeyAnswers(pad: seq<bv8>, codes: seq<bv8>, keys: bv8, n: nat)
    requires |pad| == BUTTONS && IsPadState(pad, codes, keys)
    ensures Answer(keys, n) <==> KeyAnswer(pad, codes, n)
  {
    SerialAnswer(keys, n);
    hide Answer, Down;
    if n < BUTTONS {
      PressedCodes(pad, n, codes);
    }
  }

  lemma {:induction false} StaysUp(p: Pad, ws: seq<Wires>, w: nat, u: nat)
    requires w < u <= |ws| && ws[w].wren && ws[w].dataIn
    requires forall k :: w < k < u && ws[k].wren ==> ws[k].dataIn
    ensures Up(p, ws, u)
  {
    if w < u - 1 {
      StaysUp(p, ws, w, u - 1);
    }
  }

  lemma {:induction false} StaysDown(p: Pad, ws: seq<Wires>, u: nat, e: nat)
    requires u < e <= |ws| && ws[u].wren && !ws[u].dataIn
    requires forall k :: u < k < e && ws[k].wren ==> !ws[k].dataIn
    ensures forall k :: u < k <= e ==> !Up(p, ws, k)
  {
    if u < e - 1 {
      StaysDown(p, ws, u, e - 1);
    }
  }
}
