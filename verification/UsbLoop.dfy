/**
 * The USB polling loop of main.c: one iteration of `while (1)` as a step on the two flags, the device
 * class, the key code ports and the shared displays, driven by arbitrary USB states and reports.
 */
module UsbLoop {
  import opened Basics
  import opened Displays
  import Keypad

  // ----- What the USB stack hands over in one iteration -----

  const USB_STATE_RUNNING: bv8 := 0x40
  const USB_STATE_ERROR: bv8 := 0xFF
  const HR_SUCCESS: bv8 := 0x00

  /** One row of the device table: whether it has endpoint information, and its class. */
  datatype DevRecord = DevRecord(hasEpinfo: bool, devclass: bv8)

  /** `state` and `stateAgain` are what the two comparisons of one iteration fetch; a third fetch is only printed. */
  datatype Input = Input(
    state: bv8, stateAgain: bv8,
    table: seq<DevRecord>,
    rcode: bv8,
    keycode: seq<bv8>,
    xDispl: bv8, yDispl: bv8, button: bv8)
  {
    predicate Valid() {
      |keycode| == 6
    }
  }

  // ----- The device scan -----

  /** The last row from index 1 on that has endpoint information. */
  function LastPresent(table: seq<DevRecord>, n: nat): (k: Option<nat>)
    requires n <= |table|
    ensures k.Some? ==> 1 <= k.value < n && table[k.value].hasEpinfo
    ensures forall j :: 1 <= j < n && table[j].hasEpinfo ==> k.Some? && j <= k.value
  {
    if n <= 1 then None
    else if table[n - 1].hasEpinfo then Some(n - 1)
    else LastPresent(table, n - 1)
  }

  function ScanResult(table: seq<DevRecord>): bv8 {
    match LastPresent(table, |table|)
    case Some(k) => table[k].devclass
    case None => 0xFF
  }

  /** The scan in `GetDriverandReport`: the highest present device wins, 0xFF when there is none. */
  method GetDriver(table: seq<DevRecord>) returns (device: bv8)
    ensures device == ScanResult(table)
    ensures (forall j :: 1 <= j < |table| ==> !table[j].hasEpinfo) ==> device == 0xFF
    ensures forall k :: 1 <= k < |table| && table[k].hasEpinfo ==>
              (forall j :: k < j < |table| ==> !table[j].hasEpinfo) ==> device == table[k].devclass
  {
    device := 0xFF;
    var i := 1;
    while i < |table|
      invariant 1 <= i && (i <= |table| || i == 1)
      invariant |table| >= 1 ==>
                  device == match LastPresent(table, i) case Some(k) => table[k].devclass case None => 0xFF
      invariant |table| == 0 ==> device == 0xFF
    {
      if table[i].hasEpinfo {
        device := table[i].devclass;
      }
      i := i + 1;
    }
  }

  // ----- The state of the loop -----

  datatype Event = Report(device: bv8) | Reinit | ErrorMessage | OtherVisit

  /** The variables of `main`; `device` is None until it is first assigned. */
  datatype Loop = Loop(
    runningDebugFlag: bool, errorFlag: bool, device: Option<bv8>,
    keysOne: bv8, keysTwo: bv8,
    log: seq<Event>, ops: seq<Op>)

  const START := Loop(false, false, None, 0, 0, [], [])

  /** Reading `device` is defined. */
  predicate DeviceReady(s: Loop) {
    s.runningDebugFlag ==> s.device.Some?
  }

  function MouseOps(x: Input): seq<Op> {
    [Show0(ToChar(x.xDispl as int)), Show1(ToChar(x.yDispl as int)),
     if x.button & 0x04 != 0 then SetLed(2) else ClearLed(2),
     if x.button & 0x02 != 0 then SetLed(1) else ClearLed(1),
     if x.button & 0x01 != 0 then SetLed(0) else ClearLed(0)]
  }

  function KeyboardOps(x: Input): seq<Op>
    requires x.Valid()
  {
    [Show0(ToChar(x.keycode[0] as int)), Show1(ToChar(x.keycode[1] as int))]
  }

  /** One iteration. The key code ports are left as they are except after a keyboard report. */
  ghost predicate Next(s: Loop, x: Input, t: Loop)
    requires DeviceReady(s) && x.Valid()
  {
    if x.state == USB_STATE_RUNNING then
      if !s.runningDebugFlag then
        t == s.(runningDebugFlag := true, device := Some(ScanResult(x.table)),
                log := s.log + [Report(ScanResult(x.table))], ops := s.ops + [SetLed(9)])
      else if s.device == Some(1) && x.rcode == HR_SUCCESS then
        && t == s.(ops := s.ops + KeyboardOps(x), keysOne := t.keysOne, keysTwo := t.keysTwo)
        && Keypad.IsPadState(Keypad.PAD_ONE, x.keycode, t.keysOne)
        && Keypad.IsPadState(Keypad.PAD_TWO, x.keycode, t.keysTwo)
      else if s.device == Some(2) && x.rcode == HR_SUCCESS then
        t == s.(ops := s.ops + MouseOps(x))
      else
        t == s
    else if x.stateAgain == USB_STATE_ERROR then
      if !s.errorFlag then
        t == s.(errorFlag := true, log := s.log + [ErrorMessage], ops := s.ops + [ClearLed(9)])
      else
        t == s
    else
      t == s.(runningDebugFlag := false, errorFlag := false, ops := s.ops + [ClearLed(9)],
              log := s.log + (if s.runningDebugFlag then [Reinit] else []) + [OtherVisit])
  }

  // ----- The program -----

  /** The variables of `main` and the board it drives. */
  class Main {
    var runningDebugFlag: bool
    var errorFlag: bool
    var device: Option<bv8>
    var keysOne: bv8
    var keysTwo: bv8
    const board: Board
    ghost var log: seq<Event>
    ghost var ops: seq<Op>

    constructor ()
      ensures fresh(board) && State() == START && Consistent()
    {
      runningDebugFlag, errorFlag, device, keysOne, keysTwo := false, false, None, 0, 0;
      board := new Board();
      log, ops := [], [];
    }

    ghost function State(): Loop
      reads this
    {
      Loop(runningDebugFlag, errorFlag, device, keysOne, keysTwo, log, ops)
    }

    /** The board shows what the recorded operations make of a blank one. */
    ghost predicate Consistent()
      reads this`ops, board
    {
      board.Shown() == RunOps(Panel({}, 0, 0), ops)
    }

    method SetLED(n: Led)
      requires Consistent()
      modifies this`ops, board
      ensures Consistent() && ops == old(ops) + [SetLed(n)]
    {
      board.SetLED(n);
      RunOpsSnoc(ops, SetLed(n));
      ops := ops + [SetLed(n)];
    }

    method ClearLED(n: Led)
      requires Consistent()
      modifies this`ops, board
      ensures Consistent() && ops == old(ops) + [ClearLed(n)]
    {
      board.ClearLED(n);
      RunOpsSnoc(ops, ClearLed(n));
      ops := ops + [ClearLed(n)];
    }

    method PrintSignedHex0(v: schar)
      requires Consistent()
      modifies this`ops, board
      ensures Consistent() && ops == old(ops) + [Show0(v)]
    {
      board.PrintSignedHex0(v);
      RunOpsSnoc(ops, Show0(v));
      ops := ops + [Show0(v)];
    }

    method PrintSignedHex1(v: schar)
      requires Consistent()
      modifies this`ops, board
      ensures Consistent() && ops == old(ops) + [Show1(v)]
    {
      board.PrintSignedHex1(v);
      RunOpsSnoc(ops, Show1(v));
      ops := ops + [Show1(v)];
    }

    method Iterate(x: Input)
      requires DeviceReady(State()) && x.Valid() && Consistent()
      modifies this, board
      ensures Consistent() && Next(old(State()), x, State())
    {
      hide Consistent, Keypad.IsPadState, ScanResult, ToChar;
      if x.state == USB_STATE_RUNNING {
        if !runningDebugFlag {
          runningDebugFlag := true;
          SetLED(9);
          var found := GetDriver(x.table);
          device := Some(found);
          log := log + [Report(found)];
        } else if device.value == 1 {
          if x.rcode != HR_SUCCESS {
            return;
          }
          keysOne, keysTwo := Keypad.FoldKeys(x.keycode);
          PrintSignedHex0(ToChar(x.keycode[0] as int));
          PrintSignedHex1(ToChar(x.keycode[1] as int));
        } else if device.value == 2 {
          if x.rcode != HR_SUCCESS {
            return;
          }
          PrintSignedHex0(ToChar(x.xDispl as int));
          PrintSignedHex1(ToChar(x.yDispl as int));
          ShowButton(2, x.button & 0x04 != 0);
          ShowButton(1, x.button & 0x02 != 0);
          ShowButton(0, x.button & 0x01 != 0);
        }
      } else if x.stateAgain == USB_STATE_ERROR {
        if !errorFlag {
          errorFlag := true;
          ClearLED(9);
          log := log + [ErrorMessage];
        }
      } else {
        if runningDebugFlag {
          runningDebugFlag := false;
          log := log + [Reinit];
        }
        errorFlag := false;
        ClearLED(9);
        log := log + [OtherVisit];
      }
    }

    method ShowButton(n: Led, down: bool)
      requires Consistent()
      modifies this`ops, board
      ensures Consistent() && ops == old(ops) + [if down then SetLed(n) else ClearLed(n)]
    {
      if down {
        SetLED(n);
      } else {
        ClearLED(n);
      }
    }
  }

  lemma RunOpsSnoc(ops: seq<Op>, op: Op)
    ensures RunOps(Panel({}, 0, 0), ops + [op]) == Apply(RunOps(Panel({}, 0, 0), ops), op)
  {
    assert (ops + [op])[..|ops|] == ops;
  }

  // ----- Every run -----

  /** The states that a run passes through, one more than its inputs. */
  ghost predicate IsRun(states: seq<Loop>, inputs: seq<Input>) {
    && |states| == |inputs| + 1 && states[0] == START
    && forall k :: 0 <= k < |inputs| ==>
         inputs[k].Valid() && DeviceReady(states[k]) && Next(states[k], inputs[k], states[k + 1])
  }

  function Reports(log: seq<Event>): nat {
    if log == [] then 0 else Reports(log[..|log| - 1]) + (if log[|log| - 1].Report? then 1 else 0)
  }

  function Reinits(log: seq<Event>): nat {
    if log == [] then 0 else Reinits(log[..|log| - 1]) + (if log[|log| - 1].Reinit? then 1 else 0)
  }

  /** The class that the last report gave. */
  function LastReport(log: seq<Event>): Option<bv8> {
    if log == [] then None
    else if log[|log| - 1].Report? then Some(log[|log| - 1].device)
    else LastReport(log[..|log| - 1])
  }

  /** Error messages since the last visit to the branch that is neither running nor error. */
  function ErrorsSinceOther(log: seq<Event>): nat {
    if log == [] || log[|log| - 1].OtherVisit? then 0
    else ErrorsSinceOther(log[..|log| - 1]) + (if log[|log| - 1].ErrorMessage? then 1 else 0)
  }

  /** Since the last report there was neither an error message nor a visit to the other branch. */
  predicate ReportIsLatest(log: seq<Event>) {
    log != [] && (log[|log| - 1].Report? || (log[|log| - 1].Reinit? && ReportIsLatest(log[..|log| - 1])))
  }

  /** What every reachable state satisfies. */
  ghost predicate Inv(s: Loop) {
    && Reports(s.log) == Reinits(s.log) + (if s.runningDebugFlag then 1 else 0)
    && s.device == LastReport(s.log)
    && DeviceReady(s)
    && ErrorsSinceOther(s.log) == (if s.errorFlag then 1 else 0)
    && (LastOn(s.ops, 9, false) <==> ReportIsLatest(s.log))
    && (ReportIsLatest(s.log) ==> s.runningDebugFlag)
    && OwnLedsOnly(s.ops)
  }

  lemma LogSnoc(log: seq<Event>, e: Event)
    ensures Reports(log + [e]) == Reports(log) + (if e.Report? then 1 else 0)
    ensures Reinits(log + [e]) == Reinits(log) + (if e.Reinit? then 1 else 0)
    ensures LastReport(log + [e]) == if e.Report? then Some(e.device) else LastReport(log)
    ensures ErrorsSinceOther(log + [e])
            == if e.OtherVisit? then 0 else ErrorsSinceOther(log) + (if e.ErrorMessage? then 1 else 0)
    ensures ReportIsLatest(log + [e]) <==> e.Report? || (e.Reinit? && ReportIsLatest(log))
  {
    assert (log + [e])[..|log|] == log;
  }

  lemma LastOnSnoc(ops: seq<Op>, op: Op, n: Led)
    requires n < 10
    ensures LastOn(ops + [op], n, false) <==>
              match op
              case SetLed(k) => k == n || LastOn(ops, n, false)
              case ClearLed(k) => k != n && LastOn(ops, n, false)
              case _ => LastOn(ops, n, false)
  {
    assert (ops + [op])[..|ops|] == ops;
  }

  /** Operations that leave LED 9 alone do not change what its last use was. */
  lemma {:induction false} LastOnAppend(ops: seq<Op>, more: seq<Op>, n: Led)
    requires n < 10
    requires forall k :: 0 <= k < |more| && (more[k].SetLed? || more[k].ClearLed?) ==> more[k].led != n
    ensures LastOn(ops + more, n, false) <==> LastOn(ops, n, false)
  {
    if more == [] {
      assert ops + more == ops;
    } else {
      LastOnAppend(ops, more[..|more| - 1], n);
      assert ops + more == (ops + more[..|more| - 1]) + [more[|more| - 1]];
      LastOnSnoc(ops + more[..|more| - 1], more[|more| - 1], n);
    }
  }

  lemma InvKept(s: Loop, x: Input, t: Loop)
    requires Inv(s) && x.Valid() && Next(s, x, t)
    ensures Inv(t)
  {
    hide LastOn, Reports, Reinits, LastReport, ErrorsSinceOther, ReportIsLatest, Keypad.IsPadState, ScanResult;
    if x.state == USB_STATE_RUNNING {
      if !s.runningDebugFlag {
        LogSnoc(s.log, Report(ScanResult(x.table)));
        LastOnSnoc(s.ops, SetLed(9), 9);
      } else if s.device == Some(1) {
        LastOnAppend(s.ops, KeyboardOps(x), 9);
      } else if s.device == Some(2) {
        LastOnAppend(s.ops, MouseOps(x), 9);
      }
    } else if x.stateAgain == USB_STATE_ERROR {
      LogSnoc(s.log, ErrorMessage);
      LastOnSnoc(s.ops, ClearLed(9), 9);
    } else {
      LogSnoc(s.log, Reinit);
      LogSnoc(if s.runningDebugFlag then s.log + [Reinit] else s.log, OtherVisit);
      LastOnSnoc(s.ops, ClearLed(9), 9);
      assert s.log + [] == s.log;
      assert s.log + [Reinit] + [OtherVisit] == s.log + ([Reinit] + [OtherVisit]);
    }
  }

  /** Whatever the USB stack does, every state of the loop satisfies the invariant. */
  lemma {:induction false} RunKeepsInv(states: seq<Loop>, inputs: seq<Input>, k: nat)
    requires IsRun(states, inputs) && k <= |inputs|
    ensures Inv(states[k])
  {
    if k > 0 {
      RunKeepsInv(states, inputs, k - 1);
      InvKept(states[k - 1], inputs[k - 1], states[k]);
    }
  }

  /** `while (1)`, for as long as there are inputs: the program's states are such a run. */
  method Poll(main: Main, inputs: seq<Input>) returns (ghost states: seq<Loop>)
    requires main.State() == START && main.Consistent()
    requires forall k :: 0 <= k < |inputs| ==> inputs[k].Valid()
    modifies main, main.board
    ensures IsRun(states, inputs) && main.State() == states[|inputs|] && main.Consistent()
  {
    hide Next;
    states := [main.State()];
    for i := 0 to |inputs|
      invariant IsRun(states, inputs[..i]) && main.State() == states[i] && main.Consistent()
    {
      RunKeepsInv(states, inputs[..i], i);
      main.Iterate(inputs[i]);
      states := states + [main.State()];
      assert inputs[..i + 1][..i] == inputs[..i];
    }
    assert inputs[..|inputs|] == inputs;
  }

  /** No run gets stuck: from a reachable state every valid input has a successor. */
  lemma StepExists(s: Loop, x: Input) returns (t: Loop)
    requires Inv(s) && x.Valid()
    ensures Next(s, x, t)
  {
    hide Keypad.IsPadState;
    var one := Keypad.PadStateExists(Keypad.PAD_ONE, x.keycode, 6);
    var two := Keypad.PadStateExists(Keypad.PAD_TWO, x.keycode, 6);
    assert x.keycode[..6] == x.keycode;
    if x.state == USB_STATE_RUNNING {
      if !s.runningDebugFlag {
        t := s.(runningDebugFlag := true, device := Some(ScanResult(x.table)),
                log := s.log + [Report(ScanResult(x.table))], ops := s.ops + [SetLed(9)]);
      } else if s.device == Some(1) && x.rcode == HR_SUCCESS {
        t := s.(ops := s.ops + KeyboardOps(x), keysOne := one, keysTwo := two);
      } else if s.device == Some(2) && x.rcode == HR_SUCCESS {
        t := s.(ops := s.ops + MouseOps(x));
      } else {
        t := s;
      }
    } else if x.stateAgain == USB_STATE_ERROR {
      t := if s.errorFlag then s
           else s.(errorFlag := true, log := s.log + [ErrorMessage], ops := s.ops + [ClearLed(9)]);
    } else {
      t := s.(runningDebugFlag := false, errorFlag := false, ops := s.ops + [ClearLed(9)],
              log := s.log + (if s.runningDebugFlag then [Reinit] else []) + [OtherVisit]);
    }
  }

  /** LED 9 in every reachable state: lit exactly when no error message or other visit followed the last report. */
  lemma RunningLed(states: seq<Loop>, inputs: seq<Input>, k: nat)
    requires IsRun(states, inputs) && k <= |inputs|
    ensures var lit := RunOps(Panel({}, 0, 0), states[k].ops).lit;
            && (9 in lit <==> ReportIsLatest(states[k].log))
            && (9 in lit ==> states[k].runningDebugFlag)
  {
    RunKeepsInv(states, inputs, k);
    LedsAsLastLeft(Panel({}, 0, 0), states[k].ops, 9);
  }

  /** Running does not always light the LED: a run whose last state is running, with LED 9 dark since the error. */
  lemma RunningLedDarkAfterError(x: Input) returns (states: seq<Loop>, inputs: seq<Input>)
    requires x.Valid()
    ensures IsRun(states, inputs) && |inputs| == 3 && inputs[2].state == USB_STATE_RUNNING
    ensures states[3].runningDebugFlag && 9 !in RunOps(Panel({}, 0, 0), states[3].ops).lit
  {
    hide Keypad.IsPadState, ScanResult;
    var running := x.(state := USB_STATE_RUNNING, rcode := 0x04);
    var error := x.(state := USB_STATE_ERROR, stateAgain := USB_STATE_ERROR);
    var found := ScanResult(x.table);
    var s1 := START.(runningDebugFlag := true, device := Some(found),
                     log := START.log + [Report(found)], ops := START.ops + [SetLed(9)]);
    var s2 := s1.(errorFlag := true, log := s1.log + [ErrorMessage], ops := s1.ops + [ClearLed(9)]);
    states, inputs := [START, s1, s2, s2], [running, error, running];
    assert Next(states[0], inputs[0], states[1]);
    assert Next(states[1], inputs[1], states[2]);
    assert Next(states[2], inputs[2], states[3]);
    RunningLed(states, inputs, 3);
    LogSnoc(s1.log, ErrorMessage);
  }

  // ----- What the ports and the displays carry, over every run -----

  ghost predicate KeyboardReport(s: Loop, x: Input) {
    x.state == 0x40 && x.rcode == 0 && s.runningDebugFlag && s.device == Some(1)
  }

  ghost predicate MouseReport(s: Loop, x: Input) {
    x.state == 0x40 && x.rcode == 0 && s.runningDebugFlag && s.device == Some(2)
  }

  /** The operations of one iteration, by what it was. */
  lemma StepOps(s: Loop, x: Input, t: Loop) returns (more: seq<Op>)
    requires DeviceReady(s) && x.Valid() && Next(s, x, t)
    ensures t.ops == s.ops + more
    ensures KeyboardReport(s, x) ==> more == KeyboardOps(x)
    ensures MouseReport(s, x) ==> more == MouseOps(x)
    ensures !KeyboardReport(s, x) && !MouseReport(s, x) ==>
              more == if x.state == 0x40 then if s.runningDebugFlag then [] else [SetLed(9)]
                      else if x.stateAgain == 0xFF && s.errorFlag then [] else [ClearLed(9)]
    ensures !KeyboardReport(s, x) ==> t.keysOne == s.keysOne && t.keysTwo == s.keysTwo
  {
    hide KeyboardOps, MouseOps, ScanResult, Keypad.IsPadState;
    more := t.ops[|s.ops|..];
  }

  lemma KeyboardStep(s: Loop, x: Input, t: Loop)
    requires DeviceReady(s) && x.Valid() && Next(s, x, t) && KeyboardReport(s, x)
    ensures Keypad.IsPadState(Keypad.PAD_ONE, x.keycode, t.keysOne)
    ensures Keypad.IsPadState(Keypad.PAD_TWO, x.keycode, t.keysTwo)
  {
    hide KeyboardOps, MouseOps, ScanResult, Keypad.IsPadState;
  }

  lemma {:induction false} KeysKept(states: seq<Loop>, inputs: seq<Input>, j: nat, k: nat)
    requires IsRun(states, inputs) && j <= k <= |inputs|
    requires forall i :: j <= i < k ==> !KeyboardReport(states[i], inputs[i])
    ensures states[k].keysOne == states[j].keysOne && states[k].keysTwo == states[j].keysTwo
  {
    hide Next, KeyboardReport;
    if j < k {
      KeysKept(states, inputs, j, k - 1);
      var _ := StepOps(states[k - 1], inputs[k - 1], states[k]);
    }
  }

  /**
   * In every reachable state the two key ports carry the fold of the last keyboard report that was read:
   * device class 1, a running bus, the flag up before it and no error code.
   */
  lemma PortsCarryLastReport(states: seq<Loop>, inputs: seq<Input>, j: nat, k: nat)
    requires IsRun(states, inputs) && j < k <= |inputs|
    requires inputs[j].state == 0x40 && inputs[j].rcode == 0
             && states[j].runningDebugFlag && states[j].device == Some(1)
    requires forall i :: j < i < k ==>
               !(inputs[i].state == 0x40 && inputs[i].rcode == 0
                 && states[i].runningDebugFlag && states[i].device == Some(1))
    ensures states[k].keysOne & 0x01 != 0 <==> 14 in inputs[j].keycode || 30 in inputs[j].keycode
    ensures states[k].keysOne & 0x02 != 0 <==> 15 in inputs[j].keycode || 31 in inputs[j].keycode
    ensures states[k].keysOne & 0x04 != 0 <==> 49 in inputs[j].keycode || 32 in inputs[j].keycode
    ensures states[k].keysOne & 0x08 != 0 <==> 40 in inputs[j].keycode || 33 in inputs[j].keycode
    ensures states[k].keysOne & 0x10 != 0 <==> 26 in inputs[j].keycode || 34 in inputs[j].keycode
    ensures states[k].keysOne & 0x20 != 0 <==> 22 in inputs[j].keycode || 35 in inputs[j].keycode
    ensures states[k].keysOne & 0x40 != 0 <==> 4 in inputs[j].keycode || 36 in inputs[j].keycode
    ensures states[k].keysOne & 0x80 != 0 <==> 7 in inputs[j].keycode || 37 in inputs[j].keycode
    ensures states[k].keysTwo & 0x01 != 0 <==> 54 in inputs[j].keycode || 30 in inputs[j].keycode
    ensures states[k].keysTwo & 0x02 != 0 <==> 55 in inputs[j].keycode || 31 in inputs[j].keycode
    ensures states[k].keysTwo & 0x04 != 0 <==> 77 in inputs[j].keycode || 32 in inputs[j].keycode
    ensures states[k].keysTwo & 0x08 != 0 <==> 78 in inputs[j].keycode || 33 in inputs[j].keycode
    ensures states[k].keysTwo & 0x10 != 0 <==> 82 in inputs[j].keycode || 34 in inputs[j].keycode
    ensures states[k].keysTwo & 0x20 != 0 <==> 81 in inputs[j].keycode || 35 in inputs[j].keycode
    ensures states[k].keysTwo & 0x40 != 0 <==> 80 in inputs[j].keycode || 36 in inputs[j].keycode
    ensures states[k].keysTwo & 0x80 != 0 <==> 79 in inputs[j].keycode || 37 in inputs[j].keycode
  {
    hide Next, Keypad.IsPadState;
    KeyboardStep(states[j], inputs[j], states[j + 1]);
    KeysKept(states, inputs, j + 1, k);
    Keypad.KeysOne(inputs[j].keycode, states[k].keysOne);
    Keypad.KeysTwo(inputs[j].keycode, states[k].keysTwo);
  }

  /** Before the first such report no button is down. */
  lemma PortsStartClear(states: seq<Loop>, inputs: seq<Input>, k: nat)
    requires IsRun(states, inputs) && k <= |inputs|
    requires forall i :: 0 <= i < k ==>
               !(inputs[i].state == 0x40 && inputs[i].rcode == 0
                 && states[i].runningDebugFlag && states[i].device == Some(1))
    ensures states[k].keysOne == 0 && states[k].keysTwo == 0
  {
    hide Next;
    KeysKept(states, inputs, 0, k);
  }

  lemma LastShownSnoc(ops: seq<Op>, op: Op)
    ensures Last0(ops + [op]) == if op.Show0? then Some(op.value) else Last0(ops)
    ensures Last1(ops + [op]) == if op.Show1? then Some(op.value) else Last1(ops)
  {
    assert (ops + [op])[..|ops|] == ops;
  }

  lemma QuietStep(s: Loop, x: Input, t: Loop)
    requires DeviceReady(s) && x.Valid() && Next(s, x, t) && !KeyboardReport(s, x) && !MouseReport(s, x)
    ensures Last0(t.ops) == Last0(s.ops) && Last1(t.ops) == Last1(s.ops)
  {
    hide Next, KeyboardReport, MouseReport, Last0, Last1;
    var more := StepOps(s, x, t);
    if more == [] {
      assert s.ops + more == s.ops;
    } else {
      LastShownSnoc(s.ops, more[0]);
    }
  }

  lemma KeyboardShows(s: Loop, x: Input, t: Loop)
    requires DeviceReady(s) && x.Valid() && Next(s, x, t) && KeyboardReport(s, x)
    ensures Last0(t.ops) == Some(ToChar(x.keycode[0] as int)) && Last1(t.ops) == Some(ToChar(x.keycode[1] as int))
  {
    hide Next, MouseReport, Last0, Last1, ToChar;
    var more := StepOps(s, x, t);
    assert more == [more[0]] + [more[1]];
    Associate(s.ops, [more[0]], [more[1]]);
    LastShownSnoc(s.ops, more[0]);
    LastShownSnoc(s.ops + [more[0]], more[1]);
  }

  lemma MouseShows(s: Loop, x: Input, t: Loop)
    requires DeviceReady(s) && x.Valid() && Next(s, x, t) && MouseReport(s, x)
    ensures Last0(t.ops) == Some(ToChar(x.xDispl as int)) && Last1(t.ops) == Some(ToChar(x.yDispl as int))
    ensures LastOn(t.ops, 2, false) <==> x.button & 0x04 != 0
    ensures LastOn(t.ops, 1, false) <==> x.button & 0x02 != 0
    ensures LastOn(t.ops, 0, false) <==> x.button & 0x01 != 0
  {
    var more := StepOps(s, x, t);
    hide Next, KeyboardReport, MouseReport, Last0, Last1, ToChar, LastOn;
    var o1 := s.ops + [more[0]];
    var o2 := o1 + [more[1]];
    var o3 := o2 + [more[2]];
    var o4 := o3 + [more[3]];
    assert t.ops == o4 + [more[4]];
    LastShownSnoc(s.ops, more[0]);
    LastShownSnoc(o1, more[1]);
    LastShownSnoc(o2, more[2]);
    LastShownSnoc(o3, more[3]);
    LastShownSnoc(o4, more[4]);
    LastOnSnoc(o2, more[2], 2);
    LastOnSnoc(o3, more[3], 2);
    LastOnSnoc(o4, more[4], 2);
    LastOnSnoc(o3, more[3], 1);
    LastOnSnoc(o4, more[4], 1);
    LastOnSnoc(o4, more[4], 0);
  }

  lemma {:induction false} ShownKept(states: seq<Loop>, inputs: seq<Input>, j: nat, k: nat)
    requires IsRun(states, inputs) && j <= k <= |inputs|
    requires forall i :: j <= i < k ==> !KeyboardReport(states[i], inputs[i]) && !MouseReport(states[i], inputs[i])
    ensures Last0(states[k].ops) == Last0(states[j].ops) && Last1(states[k].ops) == Last1(states[j].ops)
  {
    hide Next, KeyboardReport, MouseReport, Last0, Last1;
    if j < k {
      ShownKept(states, inputs, j, k - 1);
      QuietStep(states[k - 1], inputs[k - 1], states[k]);
    }
  }

  lemma {:induction false} ButtonLedsKept(states: seq<Loop>, inputs: seq<Input>, j: nat, k: nat, n: Led)
    requires IsRun(states, inputs) && j <= k <= |inputs| && n < 9
    requires forall i :: j <= i < k ==> !MouseReport(states[i], inputs[i])
    ensures LastOn(states[k].ops, n, false) <==> LastOn(states[j].ops, n, false)
  {
    hide Next, MouseReport, LastOn;
    if j < k {
      ButtonLedsKept(states, inputs, j, k - 1, n);
      var more := StepOps(states[k - 1], inputs[k - 1], states[k]);
      LastOnAppend(states[k - 1].ops, more, n);
    }
  }

  lemma CharValue(b: bv8)
    ensures ToChar(b as int) == if b as int < 128 then b as int else b as int - 256
  {
  }

  /** The displays carry the first two codes of the last keyboard report while no mouse report has come since. */
  lemma DisplaysCarryKeys(states: seq<Loop>, inputs: seq<Input>, j: nat, k: nat)
    requires IsRun(states, inputs) && j < k <= |inputs|
    requires inputs[j].state == 0x40 && inputs[j].rcode == 0
             && states[j].runningDebugFlag && states[j].device == Some(1)
    requires forall i :: j < i < k ==>
               !(inputs[i].state == 0x40 && inputs[i].rcode == 0
                 && states[i].runningDebugFlag && (states[i].device == Some(1) || states[i].device == Some(2)))
    ensures var a, b := inputs[j].keycode[0] as int, inputs[j].keycode[1] as int;
            && Last0(states[k].ops) == Some(if a < 128 then a else a - 256)
            && Last1(states[k].ops) == Some(if b < 128 then b else b - 256)
  {
    hide Next, Last0, Last1, ToChar;
    KeyboardShows(states[j], inputs[j], states[j + 1]);
    ShownKept(states, inputs, j + 1, k);
    CharValue(inputs[j].keycode[0]);
    CharValue(inputs[j].keycode[1]);
  }

  /** And the displacements of the last mouse report while no keyboard report has come since. */
  lemma DisplaysCarryMouse(states: seq<Loop>, inputs: seq<Input>, j: nat, k: nat)
    requires IsRun(states, inputs) && j < k <= |inputs|
    requires inputs[j].state == 0x40 && inputs[j].rcode == 0
             && states[j].runningDebugFlag && states[j].device == Some(2)
    requires forall i :: j < i < k ==>
               !(inputs[i].state == 0x40 && inputs[i].rcode == 0
                 && states[i].runningDebugFlag && (states[i].device == Some(1) || states[i].device == Some(2)))
    ensures var a, b := inputs[j].xDispl as int, inputs[j].yDispl as int;
            && Last0(states[k].ops) == Some(if a < 128 then a else a - 256)
            && Last1(states[k].ops) == Some(if b < 128 then b else b - 256)
  {
    hide Next, Last0, Last1, ToChar;
    MouseShows(states[j], inputs[j], states[j + 1]);
    ShownKept(states, inputs, j + 1, k);
    CharValue(inputs[j].xDispl);
    CharValue(inputs[j].yDispl);
  }

  /** LEDs 2, 1 and 0 are the buttons of the last mouse report. */
  lemma LedsCarryButtons(states: seq<Loop>, inputs: seq<Input>, j: nat, k: nat)
    requires IsRun(states, inputs) && j < k <= |inputs|
    requires inputs[j].state == 0x40 && inputs[j].rcode == 0
             && states[j].runningDebugFlag && states[j].device == Some(2)
    requires forall i :: j < i < k ==>
               !(inputs[i].state == 0x40 && inputs[i].rcode == 0
                 && states[i].runningDebugFlag && states[i].device == Some(2))
    ensures var lit := RunOps(Panel({}, 0, 0), states[k].ops).lit;
            && (2 in lit <==> inputs[j].button & 0x04 != 0)
            && (1 in lit <==> inputs[j].button & 0x02 != 0)
            && (0 in lit <==> inputs[j].button & 0x01 != 0)
  {
    hide Next, LastOn, RunOps;
    MouseShows(states[j], inputs[j], states[j + 1]);
    ButtonLedsKept(states, inputs, j + 1, k, 2);
    ButtonLedsKept(states, inputs, j + 1, k, 1);
    ButtonLedsKept(states, inputs, j + 1, k, 0);
    LedsAsLastLeft(Panel({}, 0, 0), states[k].ops, 2);
    LedsAsLastLeft(Panel({}, 0, 0), states[k].ops, 1);
    LedsAsLastLeft(Panel({}, 0, 0), states[k].ops, 0);
  }

  /** Without any report nothing is shown; without a mouse report LEDs 2, 1 and 0 are dark. */
  lemma NothingShownBefore(states: seq<Loop>, inputs: seq<Input>, k: nat)
    requires IsRun(states, inputs) && k <= |inputs|
    ensures (forall i :: 0 <= i < k ==>
               !(inputs[i].state == 0x40 && inputs[i].rcode == 0
                 && states[i].runningDebugFlag && (states[i].device == Some(1) || states[i].device == Some(2)))) ==>
              Last0(states[k].ops) == None && Last1(states[k].ops) == None
    ensures (forall i :: 0 <= i < k ==>
               !(inputs[i].state == 0x40 && inputs[i].rcode == 0
                 && states[i].runningDebugFlag && states[i].device == Some(2))) ==>
              forall n: Led :: n < 3 ==> n !in RunOps(Panel({}, 0, 0), states[k].ops).lit
  {
    hide Next, RunOps;
    if forall i :: 0 <= i < k ==> !KeyboardReport(states[i], inputs[i]) && !MouseReport(states[i], inputs[i]) {
      ShownKept(states, inputs, 0, k);
    }
    if forall i :: 0 <= i < k ==> !MouseReport(states[i], inputs[i]) {
      forall n: Led | n < 3
        ensures n !in RunOps(Panel({}, 0, 0), states[k].ops).lit
      {
        ButtonLedsKept(states, inputs, 0, k, n);
        LedsAsLastLeft(Panel({}, 0, 0), states[k].ops, n);
      }
    }
  }

  /** The two flags and the device class, from the inputs alone. */
  lemma {:induction false} FlagsFromInputs(states: seq<Loop>, inputs: seq<Input>, k: nat)
    requires IsRun(states, inputs) && k <= |inputs|
    ensures states[k].runningDebugFlag <==>
              exists j :: 0 <= j < k && inputs[j].state == 0x40
                          && forall i :: j < i < k ==> inputs[i].state == 0x40 || inputs[i].stateAgain == 0xFF
    ensures states[k].errorFlag <==>
              exists j :: 0 <= j < k && inputs[j].state != 0x40 && inputs[j].stateAgain == 0xFF
                          && forall i :: j < i < k ==> inputs[i].state == 0x40 || inputs[i].stateAgain == 0xFF
  {
    hide KeyboardOps, MouseOps, ScanResult, Keypad.IsPadState;
    if k > 0 {
      FlagsFromInputs(states, inputs, k - 1);
      assert Next(states[k - 1], inputs[k - 1], states[k]);
    }
  }

  /**
   * LED 9 in every reachable state, from the inputs: lit since the flag last went up, unless an error that
   * was not announced before or any other state came after that.
   */
  lemma {:induction false} RunningLedFromInputs(states: seq<Loop>, inputs: seq<Input>, k: nat)
    requires IsRun(states, inputs) && k <= |inputs|
    ensures 9 in RunOps(Panel({}, 0, 0), states[k].ops).lit <==>
              exists j :: 0 <= j < k && inputs[j].state == 0x40 && !states[j].runningDebugFlag
                          && forall i :: j < i < k ==> inputs[i].state == 0x40
                                                       || (inputs[i].stateAgain == 0xFF && states[i].errorFlag)
  {
    LedsAsLastLeft(Panel({}, 0, 0), states[k].ops, 9);
    hide RunOps, ScanResult, Keypad.IsPadState, LastOn;
    if k == 0 {
      LedsAsLastLeft(Panel({}, 0, 0), START.ops, 9);
      assert !LastOn([], 9, false) by { NoneOn(9); }
    } else {
      RunningLedFromInputs(states, inputs, k - 1);
      LedsAsLastLeft(Panel({}, 0, 0), states[k - 1].ops, 9);
      RunningLedStep(states[k - 1], inputs[k - 1], states[k]);
      hide Next, KeyboardOps, MouseOps;
    }
  }

  lemma NoneOn(n: Led)
    ensures !LastOn([], n, false)
  {
  }

  lemma RunningLedStep(s: Loop, x: Input, t: Loop)
    requires DeviceReady(s) && x.Valid() && Next(s, x, t)
    ensures LastOn(t.ops, 9, false) <==>
              if x.state == 0x40 then !s.runningDebugFlag || LastOn(s.ops, 9, false)
              else x.stateAgain == 0xFF && s.errorFlag && LastOn(s.ops, 9, false)
  {
    hide LastOn, ScanResult, Keypad.IsPadState;
    var more := StepOps(s, x, t);
    if KeyboardReport(s, x) || MouseReport(s, x) {
      LastOnAppend(s.ops, more, 9);
    } else if more == [] {
      assert s.ops + more == s.ops;
    } else {
      LastOnSnoc(s.ops, more[0], 9);
    }
  }

  lemma {:induction false} DeviceKept(states: seq<Loop>, inputs: seq<Input>, j: nat, k: nat)
    requires IsRun(states, inputs) && j <= k <= |inputs|
    requires forall i :: j <= i < k ==> !(inputs[i].state == 0x40 && !states[i].runningDebugFlag)
    ensures states[k].device == states[j].device
  {
    hide KeyboardOps, MouseOps, ScanResult, Keypad.IsPadState;
    if j < k {
      DeviceKept(states, inputs, j, k - 1);
      assert Next(states[k - 1], inputs[k - 1], states[k]);
    }
  }

  /** The device class is that of the table's last present row when the flag last went up, or 0xFF. */
  lemma DeviceFromTable(states: seq<Loop>, inputs: seq<Input>, j: nat, k: nat)
    requires IsRun(states, inputs) && j < k <= |inputs|
    requires inputs[j].state == 0x40 && !states[j].runningDebugFlag
    requires forall i :: j < i < k ==> !(inputs[i].state == 0x40 && !states[i].runningDebugFlag)
    ensures var table := inputs[j].table;
            && ((forall r :: 1 <= r < |table| ==> !table[r].hasEpinfo) ==> states[k].device == Some(0xFF))
            && (forall r :: 1 <= r < |table| && table[r].hasEpinfo ==>
                  (forall q :: r < q < |table| ==> !table[q].hasEpinfo) ==>
                    states[k].device == Some(table[r].devclass))
  {
    hide KeyboardOps, MouseOps, Keypad.IsPadState;
    assert Next(states[j], inputs[j], states[j + 1]);
    DeviceKept(states, inputs, j + 1, k);
  }

  /** In every reachable state the two displays read as their last values, with the one exception of -128. */
  lemma RunReadouts(states: seq<Loop>, inputs: seq<Input>, k: nat)
    requires IsRun(states, inputs) && k <= |inputs|
    ensures var ops := states[k].ops;
            var panel := RunOps(Panel({}, 0, 0), ops);
            && (Last0(ops).Some? ==>
                  (Readout0(panel) == Some(Last0(ops).value) <==> Last0(ops).value != -128 && !Spilled(ops)))
            && (Last1(ops).Some? ==>
                  (Readout1(panel) == Some(Last1(ops).value) <==> Last1(ops).value != -128))
  {
    RunKeepsInv(states, inputs, k);
    var ops := states[k].ops;
    ReadoutsExact(Panel({}, 0, 0), ops);
    NotTampered(ops, SIGN_0, true);
    NotTampered(ops, HUNDREDS_0, true);
    NotTampered(ops, SIGN_1, false);
    NotTampered(ops, HUNDREDS_1, false);
  }
}
