/** Multi-byte values read through the sideband channel one byte at a time:
    the 32-bit counters of `read_vled_counter`, the 64-bit captured
    AW-address and the 16-byte vLED page of `dump_vled`. */
module Assembler {
  import opened Bits
  import opened Sideband

  /** What a series of `get_vled_byte` calls with one function code does to
      the port: the bytes it returns, the commands it writes, the status
      reads it makes and the script that is left. */
  datatype Transcript = Transcript(bytes: seq<U8>, commands: seq<U16>, attempts: nat, rest: seq<StatusRead>)

  /** `get_vled_byte(func, sels[0])`, then `get_vled_byte(func, sels[1])`,
      and so on, each exchange polling what the previous ones left of the
      script. */
  function ReadSeries(func: U8, sels: seq<U8>, script: seq<StatusRead>): (t: Transcript)
    ensures |t.bytes| == |sels| && |t.commands| == |sels|
    ensures t.attempts <= RetryBudget * |sels|
    decreases |sels|
  {
    if sels == [] then Transcript([], [], 0, script)
    else
      var last := sels[|sels| - 1];
      var t := ReadSeries(func, sels[..|sels| - 1], script);
      var o := Poll(func, last, t.rest, RetryBudget);
      Transcript(t.bytes + [o.byte], t.commands + [Command(func, last)], t.attempts + o.attempts,
                 Drop(t.rest, o.attempts))
  }

  /** One more exchange extends a series by one byte, one command and the
      reads of that exchange. */
  lemma ReadSeriesAppend(func: U8, sels: seq<U8>, sel: U8, script: seq<StatusRead>)
    ensures var t := ReadSeries(func, sels, script);
      var o := Poll(func, sel, t.rest, RetryBudget);
      ReadSeries(func, sels + [sel], script)
        == Transcript(t.bytes + [o.byte], t.commands + [Command(func, sel)], t.attempts + o.attempts,
                      Drop(t.rest, o.attempts))
  {
    assert (sels + [sel])[..|sels|] == sels;
  }

  /** A shorter series is the beginning of a longer one: the k-th byte of a
      series is what the channel answers for the k-th selector once the
      earlier exchanges have taken their share of the script. */
  lemma {:induction false} ReadSeriesByte(func: U8, sels: seq<U8>, script: seq<StatusRead>, k: nat)
    requires k < |sels|
    ensures var before := ReadSeries(func, sels[..k], script);
      ReadSeries(func, sels, script).bytes[k] == Poll(func, sels[k], before.rest, RetryBudget).byte
    decreases |sels|
  {
    if k < |sels| - 1 {
      var init := sels[..|sels| - 1];
      assert init[..k] == sels[..k];
      ReadSeriesByte(func, init, script, k);
    } else {
      assert sels[..|sels| - 1] == sels[..k];
    }
  }

  /** A series writes one command per selector, in order: the k-th command
      written is the command for the k-th selector. */
  lemma {:induction false} ReadSeriesCommand(func: U8, sels: seq<U8>, script: seq<StatusRead>, k: nat)
    requires k < |sels|
    ensures ReadSeries(func, sels, script).commands[k] == Command(func, sels[k])
    decreases |sels|
  {
    if k < |sels| - 1 {
      var init := sels[..|sels| - 1];
      ReadSeriesCommand(func, init, script, k);
      assert ReadSeries(func, sels, script).commands[k] == ReadSeries(func, init, script).commands[k];
    }
  }

  /** Selectors that do not fit in four bits are never echoed, so every byte
      read with them is the sentinel 0. */
  lemma {:induction false} ReadSeriesWideSelectors(func: U8, sels: seq<U8>, script: seq<StatusRead>)
    requires forall k :: 0 <= k < |sels| ==> sels[k] >= 16
    ensures forall k :: 0 <= k < |sels| ==> ReadSeries(func, sels, script).bytes[k] == 0
    decreases |sels|
  {
    if sels != [] {
      var t := ReadSeries(func, sels[..|sels| - 1], script);
      ReadSeriesWideSelectors(func, sels[..|sels| - 1], script);
      PollIgnoresWideFields(func, sels[|sels| - 1], t.rest, RetryBudget);
    }
  }

  /** The unsigned value whose little-endian bytes are `bs`:
      bs[0] + 256 * bs[1] + 256^2 * bs[2] + ... */
  function LittleEndian(bs: seq<U8>): (n: nat)
    ensures n < Pow2(8 * |bs|)
  {
    if bs == [] then 0
    else
      Pow2Add(8, 8 * (|bs| - 1));
      assert Pow2(8) == 256;
      bs[0] + 256 * LittleEndian(bs[1..])
  }

  /** Appending a byte puts it just above the bytes already there. */
  lemma {:induction false} LittleEndianAppend(bs: seq<U8>, b: U8)
    ensures LittleEndian(bs + [b]) == LittleEndian(bs) + Shl(b, 8 * |bs|)
  {
    if bs != [] {
      assert (bs + [b])[1..] == bs[1..] + [b];
      LittleEndianAppend(bs[1..], b);
      Pow2Add(8, 8 * (|bs| - 1));
      assert Pow2(8) == 256;
      var p := Pow2(8 * (|bs| - 1));
      assert Pow2(8 * |bs|) == 256 * p;
      assert LittleEndian(bs) == bs[0] + 256 * LittleEndian(bs[1..]);
      MulLeft(b, 256, p);
      calc {
        LittleEndian(bs + [b]);
        bs[0] + 256 * LittleEndian(bs[1..] + [b]);
        bs[0] + 256 * (LittleEndian(bs[1..]) + b * p);
        LittleEndian(bs) + 256 * (b * p);
      }
    }
  }

  /** Byte i of the sequence sits in bits 8i..8i+7 of the value:
      `(LittleEndian(bs) >> 8i) & 0xFF == bs[i]`. */
  lemma {:induction false} LittleEndianByte(bs: seq<U8>, i: nat)
    requires i < |bs|
    ensures BitAnd(Shr(LittleEndian(bs), 8 * i), 0xFF) == bs[i]
  {
    ShrIsDiv(LittleEndian(bs), 8 * i);
    LowBits(Shr(LittleEndian(bs), 8 * i), 8);
    LittleEndianDigit(bs, i);
  }

  lemma {:induction false} LittleEndianDigit(bs: seq<U8>, i: nat)
    requires i < |bs|
    ensures (LittleEndian(bs) / Pow2(8 * i)) % 256 == bs[i]
  {
    var rest := LittleEndian(bs[1..]);
    assert LittleEndian(bs) == bs[0] + 256 * rest;
    if i == 0 {
      DivModUnique(bs[0] + 256 * rest, 256, rest, bs[0]);
    } else {
      LittleEndianDigit(bs[1..], i - 1);
      Pow2Add(8, 8 * (i - 1));
      assert Pow2(8) == 256;
      DivDropByte(bs[0], rest, Pow2(8 * (i - 1)));
    }
  }

  /** Bytes that are all 0 make the value 0. */
  lemma {:induction false} LittleEndianZero(bs: seq<U8>)
    requires forall k :: 0 <= k < |bs| ==> bs[k] == 0
    ensures LittleEndian(bs) == 0
  {
    if bs != [] {
      LittleEndianZero(bs[1..]);
    }
  }

  /** One step of the accumulation `v |= ((uintW_t)b) << k` into a `w`-bit
      variable that holds the first k / 8 bytes: the OR appends the byte
      just above them, and neither the shift nor the OR overflows. */
  lemma AccumulateByte(bs: seq<U8>, b: U8, k: nat, w: nat)
    requires k == 8 * |bs| && k + 8 <= w
    ensures Trunc(BitOr(LittleEndian(bs), Trunc(Shl(b, k), w)), w) == LittleEndian(bs + [b])
  {
    OrShiftedByte(LittleEndian(bs), b, k, w);
    LittleEndianAppend(bs, b);
  }

  /** The selector `(ctr_sel << 2) | byte` of `read_vled_counter`, stored into
      a `uint8_t`. It stays within four bits exactly when `ctr_sel` modulo 64
      is at most 3: larger counter numbers wrap around in the 8-bit type. */
  function CounterSelector(ctrSel: U8, byte: nat): (sel: U8)
    requires byte < 4
    ensures sel == (4 * ctrSel + byte) % 256
    ensures sel < 16 <==> ctrSel % 64 <= 3
  {
    CounterSelectorBits(ctrSel, byte);
    Trunc(BitOr(Shl(ctrSel, 2), byte), 8)
  }

  /** The shifted counter number and the byte index occupy disjoint bits, and
      the conversion to `uint8_t` keeps the counter number modulo 64. */
  lemma CounterSelectorBits(ctrSel: U8, byte: nat)
    requires byte < 4
    ensures Trunc(BitOr(Shl(ctrSel, 2), byte), 8) == (4 * ctrSel + byte) % 256
    ensures (4 * ctrSel + byte) % 256 == 4 * (ctrSel % 64) + byte
  {
    assert Pow2(2) == 4 && Pow2(8) == 256;
    BitOrDisjoint(byte, ctrSel, 2);
    assert BitOr(Shl(ctrSel, 2), byte) == 4 * ctrSel + byte;
    DivModUnique(4 * ctrSel + byte, 256, ctrSel / 64, 4 * (ctrSel % 64) + byte);
  }

  /** The first n of the four selectors that `read_vled_counter(func, ctrSel)`
      asks for. */
  function CounterSelectors(ctrSel: U8, n: nat): (sels: seq<U8>)
    requires n <= 4
    ensures |sels| == n && forall i :: 0 <= i < n ==> sels[i] == CounterSelector(ctrSel, i)
  {
    if n == 0 then [] else CounterSelectors(ctrSel, n - 1) + [CounterSelector(ctrSel, n - 1)]
  }

  /** The selectors 0, 1, ..., n - 1. */
  function FlatSelectors(n: nat): (sels: seq<U8>)
    requires n <= 256
    ensures |sels| == n && forall i :: 0 <= i < n ==> sels[i] == i
  {
    if n == 0 then [] else FlatSelectors(n - 1) + [n - 1]
  }

  lemma AppendAssoc<X>(a: seq<X>, b: seq<X>, c: seq<X>)
    ensures (a + b) + c == a + (b + c)
  {
  }

  /** `read_vled_counter`: the 32-bit counter `ctrSel` of function `func`,
      assembled little-endian from four channel bytes. */
  method ReadVledCounter(port: SidebandPort, func: U8, ctrSel: U8) returns (v: U32)
    modifies port
    ensures var t := ReadSeries(func, CounterSelectors(ctrSel, 4), old(port.script));
      && v == LittleEndian(t.bytes)
      && port.commands == old(port.commands) + t.commands
      && port.statusReads == old(port.statusReads) + t.attempts
      && port.script == t.rest
  {
    ghost var script0 := port.script;
    ghost var t := ReadSeries(func, [], script0);
    Pow2Of32();
    v := 0;
    var byte := 0;
    while byte < 4
      invariant 0 <= byte <= 4
      invariant t == ReadSeries(func, CounterSelectors(ctrSel, byte), script0)
      invariant v == LittleEndian(t.bytes)
      invariant port.commands == old(port.commands) + t.commands
      invariant port.statusReads == old(port.statusReads) + t.attempts
      invariant port.script == t.rest
    {
      var sel := CounterSelector(ctrSel, byte);
      ReadSeriesAppend(func, CounterSelectors(ctrSel, byte), sel, script0);
      ghost var o := Poll(func, sel, t.rest, RetryBudget);
      var b := GetVledByte(port, func, sel);
      AppendAssoc(old(port.commands), t.commands, [Command(func, sel)]);
      AccumulateByte(t.bytes, b, byte * 8, 32);
      v := Trunc(BitOr(v, Trunc(Shl(b, byte * 8), 32)), 32);
      t := Transcript(t.bytes + [b], t.commands + [Command(func, sel)], t.attempts + o.attempts, Drop(t.rest, o.attempts));
      byte := byte + 1;
    }
  }

  /** The captured AW-address: the 64-bit value assembled little-endian from
      selectors 0 to 7 of function 0xE. */
  method ReadAwAddress(port: SidebandPort) returns (awaddr: U64)
    modifies port
    ensures var t := ReadSeries(0xE, FlatSelectors(8), old(port.script));
      && awaddr == LittleEndian(t.bytes)
      && port.commands == old(port.commands) + t.commands
      && port.statusReads == old(port.statusReads) + t.attempts
      && port.script == t.rest
  {
    ghost var script0 := port.script;
    ghost var t := ReadSeries(0xE, [], script0);
    Pow2Of64();
    awaddr := 0;
    var s := 0;
    while s < 8
      invariant 0 <= s <= 8
      invariant t == ReadSeries(0xE, FlatSelectors(s), script0)
      invariant awaddr == LittleEndian(t.bytes)
      invariant port.commands == old(port.commands) + t.commands
      invariant port.statusReads == old(port.statusReads) + t.attempts
      invariant port.script == t.rest
    {
      ReadSeriesAppend(0xE, FlatSelectors(s), s, script0);
      ghost var o := Poll(0xE, s, t.rest, RetryBudget);
      var b := GetVledByte(port, 0xE, s);
      AppendAssoc(old(port.commands), t.commands, [Command(0xE, s)]);
      AccumulateByte(t.bytes, b, s * 8, 64);
      awaddr := Trunc(BitOr(awaddr, Trunc(Shl(b, s * 8), 64)), 64);
      t := Transcript(t.bytes + [b], t.commands + [Command(0xE, s)], t.attempts + o.attempts, Drop(t.rest, o.attempts));
      s := s + 1;
    }
  }

  /** The buffer that `dump_vled` fills: byte s is `get_vled_byte(0, s)`,
      for s from 0 to 15. */
  method DumpVled(port: SidebandPort) returns (buf: array<U8>)
    modifies port
    ensures fresh(buf) && buf.Length == 16
    ensures var t := ReadSeries(0, FlatSelectors(16), old(port.script));
      && buf[..] == t.bytes
      && port.commands == old(port.commands) + t.commands
      && port.statusReads == old(port.statusReads) + t.attempts
      && port.script == t.rest
  {
    ghost var script0 := port.script;
    ghost var t := ReadSeries(0, [], script0);
    buf := new U8[16];
    var s := 0;
    while s < 16
      invariant 0 <= s <= 16
      invariant t == ReadSeries(0, FlatSelectors(s), script0)
      invariant buf[..s] == t.bytes
      invariant port.commands == old(port.commands) + t.commands
      invariant port.statusReads == old(port.statusReads) + t.attempts
      invariant port.script == t.rest
    {
      ReadSeriesAppend(0, FlatSelectors(s), s, script0);
      ghost var o := Poll(0, s, t.rest, RetryBudget);
      var b := GetVledByte(port, 0, s);
      buf[s] := b;
      AppendAssoc(old(port.commands), t.commands, [Command(0, s)]);
      assert buf[..s + 1] == buf[..s] + [b];
      t := Transcript(t.bytes + [b], t.commands + [Command(0, s)], t.attempts + o.attempts, Drop(t.rest, o.attempts));
      s := s + 1;
    }
    assert buf[..16] == buf[..];
  }

  /** Byte i of counter `ctrSel` lands in bits 8i..8i+7 of the counter
      value, and it is what the channel answered for selector
      `(ctrSel << 2) | i`. */
  lemma CounterByte(func: U8, ctrSel: U8, script: seq<StatusRead>, i: nat)
    requires i < 4
    ensures var sels := CounterSelectors(ctrSel, 4);
      var value := LittleEndian(ReadSeries(func, sels, script).bytes);
      var before := ReadSeries(func, sels[..i], script);
      BitAnd(Shr(value, 8 * i), 0xFF) == Poll(func, CounterSelector(ctrSel, i), before.rest, RetryBudget).byte
  {
    var sels := CounterSelectors(ctrSel, 4);
    LittleEndianByte(ReadSeries(func, sels, script).bytes, i);
    ReadSeriesByte(func, sels, script, i);
  }

  /** A counter number whose selectors leave four bits (4 to 63 modulo 64)
      always reads as 0. */
  lemma CounterOutOfRangeIsZero(func: U8, ctrSel: U8, script: seq<StatusRead>)
    requires ctrSel % 64 > 3
    ensures LittleEndian(ReadSeries(func, CounterSelectors(ctrSel, 4), script).bytes) == 0
  {
    ReadSeriesWideSelectors(func, CounterSelectors(ctrSel, 4), script);
    LittleEndianZero(ReadSeries(func, CounterSelectors(ctrSel, 4), script).bytes);
  }

  /** Byte s of the captured AW-address lands in bits 8s..8s+7 and is what
      the channel answered for selector s of function 0xE. */
  lemma AwAddressByte(script: seq<StatusRead>, s: nat)
    requires s < 8
    ensures var sels := FlatSelectors(8);
      var value := LittleEndian(ReadSeries(0xE, sels, script).bytes);
      var before := ReadSeries(0xE, sels[..s], script);
      BitAnd(Shr(value, 8 * s), 0xFF) == Poll(0xE, s, before.rest, RetryBudget).byte
  {
    var sels := FlatSelectors(8);
    LittleEndianByte(ReadSeries(0xE, sels, script).bytes, s);
    ReadSeriesByte(0xE, sels, script, s);
  }
}
