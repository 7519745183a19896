/** The mouse packet machine and the interrupt mask registers of Kernel/idt.h. */
module Interrupts {
  import opened Machine

  // ---------------------------------------------------------------- mouse packets

  const WARM_UP := 250

  /** HANDLER_CYCLE, current_packet and discard. */
  datatype Packet = Packet(cycle: int, flags: bv8, xMov: bv8, yMov: bv8, discard: bool)

  /** One interrupt: the tick count, and the byte that the port holds. */
  datatype Event = Event(ticks: uint32, data: bv8)

  const Reset: Packet := Packet(0, 0, 0, 0, false)

  /** Overflow in either direction, or a first byte without the bit that marks one. */
  predicate Bad(flags: bv8) { flags & 0x40 != 0 || flags & 0x80 != 0 || flags & 0x08 == 0 }

  lemma ByteParts(b: bv8)
    ensures b as int == (b & 0xC0) as int + (b & 0x37) as int + (b & 0x08) as int
  {}

  /** As a number: at least 64, or without the eight. */
  lemma BadIff(flags: bv8)
    ensures Bad(flags) <==> flags as int >= 64 || flags as int / 8 % 2 == 0
  {}

  /** A handler run as it is written. */
  function Handle(p: Packet, e: Event): Packet {
    if e.ticks < WARM_UP then p.(flags := e.data)
    else if p.cycle == 0 then p.(flags := e.data, discard := p.discard || Bad(e.data), cycle := 1)
    else if p.cycle == 1 then p.(xMov := e.data, cycle := 2)
    else if p.cycle == 2 then p.(yMov := e.data, cycle := 0, discard := false)
    else p
  }

  function Run(p: Packet, events: seq<Event>): Packet {
    if |events| == 0 then p else Handle(Run(p, events[..|events| - 1]), events[|events| - 1])
  }

  ghost predicate TicksGrow(events: seq<Event>) {
    forall i, j | 0 <= i < j < |events| :: events[i].ticks <= events[j].ticks
  }

  /** The interrupts from tick 250 on. */
  function Counted(events: seq<Event>): seq<bv8> {
    if |events| == 0 then []
    else
      var last := events[|events| - 1];
      Counted(events[..|events| - 1]) + if last.ticks >= WARM_UP then [last.data] else []
  }

  /** Byte `place` of the packet that byte number `n` belongs to, or the last whole one. */
  ghost function LastAt(data: seq<bv8>, place: nat, default: bv8): bv8
    requires place < 3
    decreases |data|
  {
    if |data| == 0 then default
    else if (|data| - 1) % 3 == place then data[|data| - 1]
    else LastAt(data[..|data| - 1], place, default)
  }

  /** Position in the packet, the bytes in their fields, and discard exactly within a bad packet. */
  ghost predicate Tracks(p: Packet, data: seq<bv8>) {
    && p.cycle == |data| % 3
    && p.xMov == LastAt(data, 1, 0) && p.yMov == LastAt(data, 2, 0)
    && (|data| > 0 ==> p.flags == LastAt(data, 0, 0))
    && (p.discard <==> |data| % 3 != 0 && Bad(data[|data| - |data| % 3]))
  }

  lemma HandleTracks(p: Packet, data: seq<bv8>, e: Event)
    requires Tracks(p, data) && e.ticks >= WARM_UP
    ensures Tracks(Handle(p, e), data + [e.data])
  {}

  /** Over every run of interrupts the state follows the bytes counted since tick 250. */
  lemma {:induction false} RunTracks(events: seq<Event>)
    requires TicksGrow(events)
    ensures Tracks(Run(Reset, events), Counted(events))
    ensures |Counted(events)| > 0 ==> events[|events| - 1].ticks >= WARM_UP
  {
    var n := |events| - 1;
    if n >= 0 {
      RunTracks(events[..n]);
      var data, e := Counted(events[..n]), events[n];
      if e.ticks >= WARM_UP {
        HandleTracks(Run(Reset, events[..n]), data, e);
      } else {
        if n > 0 {
          assert events[n - 1].ticks <= e.ticks && events[..n][n - 1] == events[n - 1];
        }
      }
    }
  }

  /** The state over the numbers: flags only before tick 250, then the three bytes in their fields. */
  lemma PacketBytes(early: Event, a: Event, b: Event, c: Event)
    requires early.ticks < 250 <= a.ticks && 250 <= b.ticks && 250 <= c.ticks
    ensures var bad := a.data as int >= 64 || a.data as int / 8 % 2 == 0;
      && Run(Reset, [early]) == Packet(0, early.data, 0, 0, false)
      && Run(Reset, [early, a]) == Packet(1, a.data, 0, 0, bad)
      && Run(Reset, [early, a, b]) == Packet(2, a.data, b.data, 0, bad)
      && Run(Reset, [early, a, b, c]) == Packet(0, a.data, b.data, c.data, false)
  {
    BadIff(a.data);
    assert [early][..0] == [] && [early, a][..1] == [early] && [early, a, b][..2] == [early, a];
    assert [early, a, b, c][..3] == [early, a, b];
    hide Bad;
  }

  class Mouse {
    var handlerCycle: int
    var flags: bv8
    var xMov: bv8
    var yMov: bv8
    var discard: uint8

    constructor ()
      ensures View() == Reset && discard <= 1
    {
      handlerCycle, flags, xMov, yMov, discard := 0, 0, 0, 0, 0;
    }

    function View(): Packet
      reads this
    {
      Packet(handlerCycle, flags, xMov, yMov, discard == 1)
    }

    /** `port` holds the bytes that this interrupt can read; each path reads two and keeps the first. */
    method Interrupt(ticks: uint32, port: seq<bv8>) returns (rest: seq<bv8>)
      requires |port| >= 2 && discard <= 1
      modifies this
      ensures View() == Handle(old(View()), Event(ticks, port[0])) && discard <= 1
      ensures 0 <= handlerCycle <= 2 <==> 0 <= old(handlerCycle) <= 2
      ensures 0 <= old(handlerCycle) <= 2 ==> rest == port[2..]
    {
      rest := port;
      if ticks < WARM_UP {
        flags := rest[0];
        rest := rest[1..];
      } else if handlerCycle == 0 {
        flags := rest[0];
        rest := rest[1..];
        if flags & (1 << 6) != 0 || flags & (1 << 7) != 0 {
          discard := 1;
        }
        if !(flags & (1 << 3) != 0) {
          discard := 1;
        }
        handlerCycle := handlerCycle + 1;
      } else if handlerCycle == 1 {
        xMov := rest[0];
        rest := rest[1..];
        handlerCycle := handlerCycle + 1;
      } else if handlerCycle == 2 {
        yMov := rest[0];
        rest := rest[1..];
        handlerCycle := 0;
        if discard == 1 {
          discard := 0;
        }
      }
      rest := rest[1..];
    }
  }

  // ---------------------------------------------------------------- interrupt masks

  /** One controller: the words of an initialisation still expected at its data port, its vector offset and its mask. */
  datatype Controller = Controller(expected: nat, offset: bv8, mask: bv8)

  /** A write to the command port: 0x11 starts an initialisation that three data words complete. */
  function Command(c: Controller, data: bv8): Controller {
    if data == 0x11 then c.(expected := 3) else c
  }

  /** A write to the data port: an initialisation word, or else the mask. */
  function Data(c: Controller, data: bv8): Controller {
    if c.expected == 3 then c.(expected := 2, offset := data)
    else if c.expected > 0 then c.(expected := c.expected - 1)
    else c.(mask := data)
  }

  /** Ready for mask writes. */
  predicate Ready(c: Controller) { c.expected == 0 }

  datatype Pic = Pic(first: Controller, second: Controller)

  predicate BitClear(mask: bv8, bit: nat)
    requires bit < 8
  {
    mask & (1 << bit) == 0
  }

  predicate Unmasked(p: Pic, line: nat)
    requires line < 16
  {
    if line < 8 then BitClear(p.first.mask, line) else BitClear(p.second.mask, line - 8)
  }

  /** One call of pic_set_mask. */
  datatype Call = Call(line: nat, status: int)

  function Masked(value: bv8, bit: nat, status: int): bv8
    requires bit < 8
  {
    if status == 0 then value & !(1 << bit) else value | (1 << bit)
  }

  function SetMask(p: Pic, c: Call): Pic
    requires c.line < 16
  {
    if c.line < 8 then p.(first := Data(p.first, Masked(p.first.mask, c.line, c.status)))
    else p.(second := Data(p.second, Masked(p.second.mask, c.line - 8, c.status)))
  }

  /** Lines 0 to 7 are the bits of the first mask from the unit place up, lines 8 to 15 those of the second. */
  lemma LineBits(p: Pic, bit: nat, mask: bv8)
    requires bit < 8
    ensures Unmasked(p, bit) <==> BitClear(p.first.mask, bit)
    ensures Unmasked(p, 8 + bit) <==> BitClear(p.second.mask, bit)
    ensures BitClear(mask, 0) <==> mask & 1 == 0
    ensures bit < 7 ==> (BitClear(mask, bit + 1) <==> BitClear(mask >> 1, bit))
  {}

  /** 0x11 asks for three words, of which the first is the offset; any other word is the mask. */
  lemma PortWords(c: Controller, data: bv8)
    ensures Command(c, 0x11) == Controller(3, c.offset, c.mask) && (data != 0x11 ==> Command(c, data) == c)
    ensures c.expected == 3 ==> Data(c, data) == Controller(2, data, c.mask)
    ensures 0 < c.expected < 3 ==> Data(c, data) == Controller(c.expected - 1, c.offset, c.mask)
    ensures c.expected == 0 ==> Data(c, data) == Controller(0, c.offset, data)
  {}

  lemma MaskedBits(value: bv8, bit: nat, status: int, k: nat)
    requires bit < 8 && k < 8
    ensures BitClear(Masked(value, bit, status), k) <==> if k == bit then status == 0 else BitClear(value, k)
  {
    if k != bit { BitsDisjoint(bit, k); }
  }

  lemma BitsDisjoint(j: nat, k: nat)
    requires j < 8 && k < 8 && j != k
    ensures (1 as bv8 << j) & (1 << k) == 0
  {}

  function RunMasks(p: Pic, calls: seq<Call>): Pic
    requires forall i | 0 <= i < |calls| :: calls[i].line < 16
  {
    if |calls| == 0 then p else SetMask(RunMasks(p, calls[..|calls| - 1]), calls[|calls| - 1])
  }

  /** The status of the last call for `line`, nonzero when there was none. */
  function LastStatus(calls: seq<Call>, line: nat): int {
    if |calls| == 0 then 1
    else if calls[|calls| - 1].line == line then calls[|calls| - 1].status
    else LastStatus(calls[..|calls| - 1], line)
  }

  /** pic_remap: four words to each controller, then both masks full. */
  function Remapped(offset0: bv8, offset1: bv8): Pic {
    Pic(Controller(0, offset0, 0xFF), Controller(0, offset1, 0xFF))
  }

  /** After a remap, a line is unmasked exactly when its last call had status 0. */
  lemma {:induction false} MasksFollowCalls(offset0: bv8, offset1: bv8, calls: seq<Call>, line: nat)
    requires forall i | 0 <= i < |calls| :: calls[i].line < 16
    requires line < 16
    ensures var q := RunMasks(Remapped(offset0, offset1), calls);
      && Ready(q.first) && Ready(q.second) && q.first.offset == offset0 && q.second.offset == offset1
      && (Unmasked(q, line) <==> LastStatus(calls, line) == 0)
    decreases |calls|
  {
    hide BitClear, Masked;
    if |calls| > 0 {
      var before, c := calls[..|calls| - 1], calls[|calls| - 1];
      MasksFollowCalls(offset0, offset1, before, line);
      var q := RunMasks(Remapped(offset0, offset1), before);
      if c.line < 8 && line < 8 { MaskedBits(q.first.mask, c.line, c.status, line); }
      if c.line >= 8 && line >= 8 { MaskedBits(q.second.mask, c.line - 8, c.status, line - 8); }
    } else {
      if line < 8 { FullMask(line); } else { FullMask(line - 8); }
    }
  }

  lemma FullMask(bit: nat)
    requires bit < 8
    ensures !BitClear(0xFF, bit)
  {}

  class Pics {
    var first: Controller
    var second: Controller

    constructor (p: Pic)
      ensures View() == p
    {
      first, second := p.first, p.second;
    }

    function View(): Pic
      reads this
    {
      Pic(first, second)
    }

    method PortOut(port: uint16, data: bv8)
      requires port in {0x20, 0x21, 0xA0, 0xA1}
      modifies this
      ensures View() == match port
        case 0x20 => old(View()).(first := Command(old(first), data))
        case 0x21 => old(View()).(first := Data(old(first), data))
        case 0xA0 => old(View()).(second := Command(old(second), data))
        case _ => old(View()).(second := Data(old(second), data))
    {
      if port == 0x20 {
        first := Command(first, data);
      } else if port == 0x21 {
        first := Data(first, data);
      } else if port == 0xA0 {
        second := Command(second, data);
      } else {
        second := Data(second, data);
      }
    }

    method PicRemap(offset0: bv8, offset1: bv8)
      modifies this
      ensures View() == Remapped(offset0, offset1)
    {
      PortOut(0x20, 0x11);
      PortOut(0xA0, 0x11);
      PortOut(0x21, offset0);
      PortOut(0xA1, offset1);
      PortOut(0x21, 4);
      PortOut(0xA1, 2);
      PortOut(0x21, 1);
      PortOut(0xA1, 1);
      PortOut(0x21, 0xFF);
      PortOut(0xA1, 0xFF);
    }

    method PicSetMask(line: uint8, status: int)
      requires line < 16
      modifies this
      ensures View() == SetMask(old(View()), Call(line, status))
    {
      var port: uint16, bit: nat := 0x21, line;
      if line >= 8 {
        port := 0xA1;
        bit := line - 8;
      }
      var value := if port == 0x21 then first.mask else second.mask;
      value := Masked(value, bit, status);
      hide Masked;
      PortOut(port, value);
    }
  }
}
