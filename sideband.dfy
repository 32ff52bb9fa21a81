/** The vDIP/vLED sideband channel of test_dma.c: a 16-bit command register
    that selects one byte of diagnostic state by a 4-bit function code and a
    4-bit selector, and a 16-bit status register whose low byte echoes the
    command once the hardware has latched it and whose high byte carries the
    selected byte. */
module Sideband {
  import opened Bits

  type Nibble = x: nat | x < 16

  /** Number of status reads `get_vled_byte` allows itself per command. */
  const RetryBudget: nat := 200

  /** The command word `(sel << 4) | func` stored into a `uint16_t`. */
  function Command(func: U8, sel: U8): (cmd: U16)
    ensures cmd < 0x1000
    ensures func < 16 ==> cmd == sel * 16 + func
  {
    CommandBits(func, sel);
    Trunc(BitOr(Shl(sel, 4), func), 16)
  }

  /** The OR of the shifted selector and the function code needs at most 12
      bits, and when the function code fits in four bits the two do not
      overlap. */
  lemma CommandBits(func: U8, sel: U8)
    ensures Trunc(BitOr(Shl(sel, 4), func), 16) == BitOr(Shl(sel, 4), func)
    ensures BitOr(Shl(sel, 4), func) < 0x1000
    ensures func < 16 ==> BitOr(Shl(sel, 4), func) == sel * 16 + func
  {
    assert Pow2(4) == 16 && Pow2(12) == 0x1000 && Pow2(16) == 0x1_0000;
    assert Shl(sel, 4) == sel * 16;
    BitOrBound(Shl(sel, 4), func, 12);
    if func < 16 {
      BitOrDisjoint(func, sel, 4);
    }
  }

  /** The three fields of a status word. */
  datatype StatusFields = StatusFields(func: Nibble, sel: Nibble, byte: U8)

  /** A status word split into its echoed function (bits 3:0), echoed
      selector (bits 7:4) and data byte (bits 15:8). */
  function DecodeStatus(v: U16): (f: StatusFields)
    ensures Response(f) == v
  {
    NibbleSplit(v);
    StatusFields(v % 16, (v / 16) % 16, v / 256)
  }

  /** The decode written as `get_vled_byte` and the final status print write it,
      `v & 0xF`, `(v >> 4) & 0xF` and `(v >> 8) & 0xFF`, gives the three
      fields of the word. */
  lemma DecodeStatusMasks(v: U16)
    ensures BitAnd(v, 0xF) == DecodeStatus(v).func
    ensures BitAnd(Shr(v, 4), 0xF) == DecodeStatus(v).sel
    ensures BitAnd(Shr(v, 8), 0xFF) == DecodeStatus(v).byte
  {
    assert Pow2(4) == 16 && Pow2(8) == 256;
    LowBits(v, 4);
    ShrIsDiv(v, 4);
    ShrIsDiv(v, 8);
    LowBits(Shr(v, 4), 4);
    LowBits(Shr(v, 8), 8);
    NibbleSplit(v);
  }

  /** A 16-bit word is its high byte, its second nibble and its low nibble. */
  lemma NibbleSplit(v: U16)
    ensures v == 256 * (v / 256) + 16 * ((v / 16) % 16) + v % 16
    ensures v / 256 < 256
  {
    var mid := v / 16;
    assert v == 16 * mid + v % 16;
    assert mid == 16 * (mid / 16) + mid % 16;
    DivModUnique(v, 256, mid / 16, 16 * (mid % 16) + v % 16);
  }

  /** `BitAndLowMask` for the masks 0xF and 0xFF written as literals. */
  lemma LowBits(a: nat, k: nat)
    requires k == 4 || k == 8
    ensures k == 4 ==> BitAnd(a, 0xF) == a % 16
    ensures k == 8 ==> BitAnd(a, 0xFF) == a % 256
  {
    assert Pow2(4) == 16 && Pow2(8) == 256;
    BitAndLowMask(a, k);
  }

  /** The layout in which the hardware answers: data byte in bits 15:8,
      echoed selector in bits 7:4, echoed function in bits 3:0. */
  function Response(f: StatusFields): U16
  {
    f.byte * 256 + f.sel * 16 + f.func
  }

  /** Decoding a response gives back the fields it was packed from. */
  lemma DecodeResponse(f: StatusFields)
    ensures DecodeStatus(Response(f)) == f
  {
    var v := Response(f);
    DivModUnique(v, 16, f.byte * 16 + f.sel, f.func);
    DivModUnique(v / 16, 16, f.byte, f.sel);
    DivModUnique(v, 256, f.byte, f.sel * 16 + f.func);
  }

  /** The echo check of `get_vled_byte`: the status word reports the
      function and selector that were asked for. */
  predicate Echoes(v: U16, func: U8, sel: U8)
  {
    var f := DecodeStatus(v);
    f.sel == sel && f.func == func
  }

  /** `(uint8_t)(v >> 8)`: the data byte of a status word. */
  function ResponseByte(v: U16): (b: U8)
    ensures b == DecodeStatus(v).byte
  {
    ResponseByteShift(v);
    Trunc(Shr(v, 8), 8)
  }

  lemma ResponseByteShift(v: U16)
    ensures Trunc(Shr(v, 8), 8) == v / 256
  {
    ShrIsDiv(v, 8);
    assert Pow2(8) == 256;
    NibbleSplit(v);
  }

  /** A status word echoes a command exactly when its low byte is that
      command word, which requires both fields of the command to fit in
      four bits. */
  lemma EchoIsCommand(v: U16, func: U8, sel: U8)
    ensures Echoes(v, func, sel) <==> func < 16 && sel < 16 && v % 256 == Command(func, sel)
  {
    var f := DecodeStatus(v);
    var low := 16 * f.sel + f.func;
    DivModUnique(v, 256, v / 256, low);
    DivModUnique(low, 16, f.sel, f.func);
    if func < 16 && sel < 16 {
      var c := Command(func, sel);
      assert c == 16 * sel + func;
      if low == c {
        DivModUnique(c, 16, sel, func);
      }
    }
  }

  /** A command whose fields fit in four bits has a zero high byte, and its
      low byte decodes to those fields. */
  lemma CommandFields(func: Nibble, sel: Nibble)
    ensures Command(func, sel) < 256
    ensures DecodeStatus(Command(func, sel)) == StatusFields(func, sel, 0)
  {
    var f := StatusFields(func, sel, 0);
    assert Command(func, sel) == Response(f);
    DecodeResponse(f);
  }

  /** One result of `fpga_mgmt_get_vLED_status`: a failure (non-zero return
      code) or the 16-bit status word. */
  datatype StatusRead = ReadFailed | ReadOk(value: U16)

  /** The k-th status read a script provides; reads past its end fail. */
  function StatusAt(script: seq<StatusRead>, k: nat): StatusRead
  {
    if k < |script| then script[k] else ReadFailed
  }

  /** What remains of a script after n status reads. */
  function Drop(script: seq<StatusRead>, n: nat): (rest: seq<StatusRead>)
    ensures forall k: nat :: StatusAt(rest, k) == StatusAt(script, n + k)
  {
    if n < |script| then script[n..] else []
  }

  lemma DropDrop(script: seq<StatusRead>, m: nat, n: nat)
    ensures Drop(Drop(script, m), n) == Drop(script, m + n)
  {
    if m + n < |script| {
      assert Drop(script, m)[n..] == script[m + n..];
    }
  }

  /** The k-th status read was successful but answered some other command. */
  predicate Stale(script: seq<StatusRead>, k: nat, func: U8, sel: U8)
  {
    StatusAt(script, k).ReadOk? && !Echoes(StatusAt(script, k).value, func, sel)
  }

  /** How one `get_vled_byte` exchange ends: the byte it returns and the
      number of status reads it made (its attempts). */
  datatype PollOutcome = PollOutcome(byte: U8, attempts: nat)

  /** The polling of `get_vled_byte` with `budget` reads left: a failed read
      ends it with 0, an echoing word ends it with its data byte, a stale
      word costs one read, and an exhausted budget ends it with 0. */
  function Poll(func: U8, sel: U8, script: seq<StatusRead>, budget: nat): (o: PollOutcome)
    ensures o.attempts <= budget
    ensures budget > 0 ==> o.attempts >= 1
    decreases budget
  {
    if budget == 0 then PollOutcome(0, 0)
    else match StatusAt(script, 0)
      case ReadFailed => PollOutcome(0, 1)
      case ReadOk(v) =>
        if Echoes(v, func, sel) then PollOutcome(ResponseByte(v), 1)
        else
          var o := Poll(func, sel, Drop(script, 1), budget - 1);
          PollOutcome(o.byte, o.attempts + 1)
  }

  /** When the first read that is not stale echoes the command, and it comes
      within the budget, its data byte is the result. */
  lemma {:induction false} PollReturnsFirstEcho(func: U8, sel: U8, script: seq<StatusRead>, budget: nat, j: nat)
    requires j < budget
    requires forall k: nat :: k < j ==> Stale(script, k, func, sel)
    requires StatusAt(script, j).ReadOk? && Echoes(StatusAt(script, j).value, func, sel)
    ensures Poll(func, sel, script, budget) == PollOutcome(ResponseByte(StatusAt(script, j).value), j + 1)
    decreases j
  {
    if j > 0 {
      assert Stale(script, 0, func, sel);
      var rest := Drop(script, 1);
      forall k: nat | k < j - 1 ensures Stale(rest, k, func, sel) {
        assert Stale(script, k + 1, func, sel);
      }
      PollReturnsFirstEcho(func, sel, rest, budget - 1, j - 1);
    }
  }

  /** A failed read within the budget, after only stale words, ends the
      exchange with the sentinel 0. */
  lemma {:induction false} PollStopsOnReadFailure(func: U8, sel: U8, script: seq<StatusRead>, budget: nat, j: nat)
    requires j < budget
    requires forall k: nat :: k < j ==> Stale(script, k, func, sel)
    requires StatusAt(script, j) == ReadFailed
    ensures Poll(func, sel, script, budget) == PollOutcome(0, j + 1)
    decreases j
  {
    if j > 0 {
      assert Stale(script, 0, func, sel);
      var rest := Drop(script, 1);
      forall k: nat | k < j - 1 ensures Stale(rest, k, func, sel) {
        assert Stale(script, k + 1, func, sel);
      }
      PollStopsOnReadFailure(func, sel, rest, budget - 1, j - 1);
    }
  }

  /** A budget spent entirely on stale words ends with the sentinel 0 after
      exactly `budget` reads. */
  lemma {:induction false} PollTimesOut(func: U8, sel: U8, script: seq<StatusRead>, budget: nat)
    requires forall k: nat :: k < budget ==> Stale(script, k, func, sel)
    ensures Poll(func, sel, script, budget) == PollOutcome(0, budget)
    decreases budget
  {
    if budget > 0 {
      assert Stale(script, 0, func, sel);
      var rest := Drop(script, 1);
      forall k: nat | k < budget - 1 ensures Stale(rest, k, func, sel) {
        assert Stale(script, k + 1, func, sel);
      }
      PollTimesOut(func, sel, rest, budget - 1);
    }
  }

  /** Every read but the last one of an exchange was stale, and a non-zero
      result is the data byte of a word that echoes the command: a stale
      word is never returned. */
  lemma {:induction false} PollNeverReturnsStale(func: U8, sel: U8, script: seq<StatusRead>, budget: nat)
    ensures var o := Poll(func, sel, script, budget);
      && (forall k: nat :: k + 1 < o.attempts ==> Stale(script, k, func, sel))
      && (o.byte != 0 ==>
            o.attempts >= 1 && StatusAt(script, o.attempts - 1).ReadOk?
            && Echoes(StatusAt(script, o.attempts - 1).value, func, sel)
            && o.byte == ResponseByte(StatusAt(script, o.attempts - 1).value))
    decreases budget
  {
    if budget > 0 && StatusAt(script, 0).ReadOk? && !Echoes(StatusAt(script, 0).value, func, sel) {
      var rest := Drop(script, 1);
      PollNeverReturnsStale(func, sel, rest, budget - 1);
      var o := Poll(func, sel, script, budget);
      forall k: nat | k + 1 < o.attempts ensures Stale(script, k, func, sel) {
        if k > 0 {
          assert Stale(rest, k - 1, func, sel);
        }
      }
    }
  }

  /** A function code or selector that does not fit in four bits can never
      be echoed, so such an exchange always ends with the sentinel 0. */
  lemma {:induction false} PollIgnoresWideFields(func: U8, sel: U8, script: seq<StatusRead>, budget: nat)
    requires func >= 16 || sel >= 16
    ensures Poll(func, sel, script, budget).byte == 0
    decreases budget
  {
    if budget > 0 && StatusAt(script, 0).ReadOk? {
      PollIgnoresWideFields(func, sel, Drop(script, 1), budget - 1);
    }
  }

  /** The sideband port of one FPGA slot as the test sees it: the command
      (vDIP) register it writes and the status (vLED) register it reads. The
      answers of the status register are a script fixed in advance, so the
      port is also the injectable transport of the channel. */
  class SidebandPort {
    /** Every command written so far, oldest first. */
    var commands: seq<U16>
    /** The status reads still to come. */
    var script: seq<StatusRead>
    /** The number of status reads made so far. */
    var statusReads: nat

    constructor (answers: seq<StatusRead>)
      ensures commands == [] && script == answers && statusReads == 0
    {
      commands := [];
      script := answers;
      statusReads := 0;
    }

    /** `fpga_mgmt_set_vDIP`: write the command register. */
    method SetVdip(cmd: U16)
      modifies this
      ensures commands == old(commands) + [cmd]
      ensures script == old(script) && statusReads == old(statusReads)
    {
      commands := commands + [cmd];
    }

    /** `fpga_mgmt_get_vLED_status`: read the status register once. */
    method GetVledStatus() returns (r: StatusRead)
      modifies this
      ensures r == StatusAt(old(script), 0)
      ensures script == Drop(old(script), 1) && statusReads == old(statusReads) + 1
      ensures commands == old(commands)
    {
      r := StatusAt(script, 0);
      script := Drop(script, 1);
      statusReads := statusReads + 1;
    }
  }

  /** `get_vled_byte`: write the command once, then read the status until it
      echoes the command (return its data byte), a read fails, or
      `RetryBudget` reads have gone by (return 0 in both cases). */
  method GetVledByte(port: SidebandPort, func: U8, sel: U8) returns (b: U8)
    modifies port
    ensures port.commands == old(port.commands) + [Command(func, sel)]
    ensures var o := Poll(func, sel, old(port.script), RetryBudget);
      && b == o.byte
      && port.statusReads == old(port.statusReads) + o.attempts
      && port.script == Drop(old(port.script), o.attempts)
    ensures port.statusReads - old(port.statusReads) <= RetryBudget
  {
    var cmd := Command(func, sel);
    port.SetVdip(cmd);
    ghost var script0 := port.script;
    var i := 0;
    while i < RetryBudget
      invariant 0 <= i <= RetryBudget
      invariant port.commands == old(port.commands) + [cmd]
      invariant port.statusReads == old(port.statusReads) + i
      invariant port.script == Drop(script0, i)
      invariant var o := Poll(func, sel, port.script, RetryBudget - i);
        Poll(func, sel, script0, RetryBudget) == PollOutcome(o.byte, o.attempts + i)
    {
      var v := port.GetVledStatus();
      DropDrop(script0, i, 1);
      if v.ReadFailed? {
        break;
      }
      if Echoes(v.value, func, sel) {
        return ResponseByte(v.value);
      }
      i := i + 1;
    }
    return 0;
  }
}
