/**
 Card identification (boot1/driver/drv_sd/mmc.c:356-1131): the host's side, run against the card
 of MmcCard. The environment decides every reply; the results are stated over its replies and
 over the log of the commands sent.
 */
module MmcProtocol {
  import opened Bits
  import opened Csd
  import opened MmcCard

  datatype Version = Unset | Sd1_0 | Sd1_10 | Sd2 | MmcUnknown | Mmc1_2 | Mmc1_4 | Mmc2_2 | Mmc3 | Mmc4

  predicate IsSd(v: Version) { v.Sd1_0? || v.Sd1_10? || v.Sd2? }

  datatype Mode = HS | HS52 | Bit4 | Bit8

  const COMM_ERR := -18
  const UNUSABLE_ERR := -17
  const TIMEOUT := -19

  /** How often the power-up loops go round again. */
  const SD_TURNS: nat := 1000
  const MMC_TURNS: nat := 10000

  // ---------- what the replies decide ----------

  /** The environment, command by command. */
  type Tape = nat -> Reply

  /** From reply p on, every command is served. */
  ghost predicate Served(tape: Tape, p: nat) { forall i :: i >= p ==> tape(i).err == 0 }

  /** The answer to CMD13. */
  predicate IsReady(r: Word) { And(r, 0x100) != 0 }
  predicate HasFault(r: Word) { And(r, Not(0x0206_BF7F)) != 0 }

  /** Bit 8 says the card is ready; the error bits are 31..26, 24..19, 16, 14 and 7. */
  lemma StatusBits(r: Word)
    ensures IsReady(r) <==> Field(r, 8, 8) == 1
    ensures HasFault(r) <==>
      Field(r, 31, 26) > 0 || Field(r, 24, 19) > 0 || Field(r, 16, 16) > 0 || Field(r, 14, 14) > 0 || Field(r, 7, 7) > 0
  {
    StatusPowers();
    BitIsDiv(r, 8, 0x100);
    FaultSum(r);
    FaultFields(r);
  }

  /** The mask with the reserved bits left out is made of five. */
  lemma FaultSum(r: Word)
    ensures And(r, 0xfdf9_4080) ==
      And(r, 0xfc00_0000) + And(r, 0x1f8_0000) + And(r, 0x1_0000) + And(r, 0x4000) + And(r, 0x80)
  {
    StatusPowers();
    AndSplit(r, 0x3f_7e50, 10, 0x80);
    AndSplit(r, 0x1_fbf2, 15, 0x4000);
    AndSplit(r, 0x7efc, 17, 0x1_0000);
    AndSplit(r, 0x3f, 26, 0x1f8_0000);
  }

  lemma FaultFields(r: Word)
    ensures And(r, 0xfc00_0000) > 0 <==> Field(r, 31, 26) > 0
    ensures And(r, 0x1f8_0000) > 0 <==> Field(r, 24, 19) > 0
    ensures And(r, 0x1_0000) > 0 <==> Field(r, 16, 16) > 0
    ensures And(r, 0x4000) > 0 <==> Field(r, 14, 14) > 0
    ensures And(r, 0x80) > 0 <==> Field(r, 7, 7) > 0
  {
    StatusPowers();
    MaskTests(r, 31, 26, 0xfc00_0000);
    MaskTests(r, 24, 19, 0x1f8_0000);
    MaskTests(r, 16, 16, 0x1_0000);
    MaskTests(r, 14, 14, 0x4000);
    MaskTests(r, 7, 7, 0x80);
  }

  lemma StatusPowers()
    ensures Pow2(7) == 0x80 && Pow2(8) == 0x100 && Pow2(10) == 0x400 && Pow2(14) == 0x4000 && Pow2(15) == 0x8000
    ensures Pow2(16) == 0x1_0000 && Pow2(17) == 0x2_0000 && Pow2(19) == 0x8_0000 && Pow2(25) == 0x200_0000
    ensures Pow2(26) == 0x400_0000 && Pow2(30) == 0x4000_0000 && Pow2(31) == 0x8000_0000
    ensures Pow2(32) == 0x1_0000_0000
  {
    assert Pow2(3) == 8 && Pow2(7) == 0x80 && Pow2(10) == 0x400;
    Pow2Add(7, 7);
    Pow2Add(8, 8);
    Pow2Add(16, 3);
    Pow2Add(15, 10);
    Pow2Add(16, 10);
    Pow2Add(14, 16);
    Pow2Word();
  }

  /**
   The result of mmc_send_status on a card that takes CMD13, from reply p on, with `left` turns to go
   after this one.
   */
  function PollResult(tape: Tape, p: nat, left: nat): int
    decreases left, p
  {
    var r := tape(p);
    if r.err != 0 then r.err
    else if IsReady(r.resp.c0) then (if left == 0 then TIMEOUT else 0)
    else if HasFault(r.resp.c0) then COMM_ERR
    else if left == 0 then 0
    else PollResult(tape, p + 1, left - 1)
  }

  /** A turn of the polling that goes on. */
  predicate Polls(r: Reply) { r.err == 0 && !IsReady(r.resp.c0) && !HasFault(r.resp.c0) }

  /**
   A driver that never reports TIMEOUT itself gets it from the polling exactly when the card
   becomes ready on the very last turn; a card that never does counts as ready.
   */
  lemma {:induction false} PollTimesOut(tape: Tape, p: nat, left: nat)
    requires forall i :: p <= i <= p + left ==> tape(i).err != TIMEOUT
    ensures PollResult(tape, p, left) == TIMEOUT <==>
      (forall i :: p <= i < p + left ==> Polls(tape(i))) && tape(p + left).err == 0 && IsReady(tape(p + left).resp.c0)
    ensures (forall i :: p <= i <= p + left ==> Polls(tape(i))) ==> PollResult(tape, p, left) == 0
    decreases left, p
  {
    if left > 0 {
      PollTimesOut(tape, p + 1, left - 1);
      if PollResult(tape, p, left) == TIMEOUT {
        assert Polls(tape(p));
      }
    }
  }

  /** The result of sd_send_op_cond on an idle SD card. */
  function SdPower(tape: Tape, p: nat, left: nat): int
    decreases left, p
  {
    if tape(p).err != 0 then tape(p).err
    else if tape(p + 1).err != 0 then tape(p + 1).err
    else if Busy(tape(p + 1).resp.c0) then (if left > 0 then 0 else UNUSABLE_ERR)
    else if left == 0 then UNUSABLE_ERR
    else SdPower(tape, p + 2, left - 1)
  }

  /** Whether sd_send_op_cond leaves the card powered up, whatever its result. */
  function SdPowered(tape: Tape, p: nat, left: nat): bool
    decreases left, p
  {
    if tape(p).err != 0 then false
    else if Busy(tape(p + 1).resp.c0) then tape(p + 1).err == 0 || tape(p + 1).seen
    else if tape(p + 1).err != 0 || left == 0 then false
    else SdPowered(tape, p + 2, left - 1)
  }

  /** A power-up that succeeds leaves the card powered up. */
  lemma {:induction false} SucceedsPowered(tape: Tape, p: nat, left: nat)
    requires SdPower(tape, p, left) == 0
    ensures SdPowered(tape, p, left)
    decreases left
  {
    if !Busy(tape(p + 1).resp.c0) {
      SucceedsPowered(tape, p + 2, left - 1);
    }
  }

  /** Bits 31 and 30 of the answer to a power-up command, by the driver's masks: powered up, and block addresses. */
  lemma OcrBits(r: Word)
    ensures And(r, 0x8000_0000) != 0 <==> Busy(r)
    ensures And(r, 0x4000_0000) != 0 <==> r / 0x4000_0000 % 2 == 1
    ensures r / 0x4000_0000 % 2 == Field(r, 30, 30)
    ensures Busy(r) <==> Field(r, 31, 31) == 1
  {
    assert Pow2(31) == 2 * Pow2(30) == 0x8000_0000 by {
      Pow2Word();
    }
    BitIsDiv(r, 30, 0x4000_0000);
    BitIsDiv(r, 31, 0x8000_0000);
    TopBit(r);
  }

  lemma TopBit(r: Word)
    ensures r / 0x8000_0000 % 2 == 1 <==> Busy(r)
  {
  }

  /** Two commands are served; the second answers whether the card is ready. */
  predicate Turn(tape: Tape, p: nat, ready: bool) {
    tape(p).err == 0 && tape(p + 1).err == 0 && Busy(tape(p + 1).resp.c0) == ready
  }

  /** Turn k finds the card ready, after turns that are all served and do not. */
  predicate ReadyAfter(tape: Tape, p: nat, k: nat)
    decreases k
  {
    if k == 0 then Turn(tape, p, true) else Turn(tape, p, false) && ReadyAfter(tape, p + 2, k - 1)
  }

  /** A power-up that succeeds finds the card ready on some turn but the last. */
  lemma {:induction false} PowersUp(tape: Tape, p: nat, left: nat) returns (k: nat)
    requires SdPower(tape, p, left) == 0
    ensures k < left && ReadyAfter(tape, p, k)
    decreases left
  {
    k := 0;
    if !Turn(tape, p, true) {
      var j := PowersUp(tape, p + 2, left - 1);
      k := j + 1;
    }
  }

  /** And one that does succeeds. */
  lemma {:induction false} FoundReady(tape: Tape, p: nat, left: nat, k: nat)
    requires k < left && ReadyAfter(tape, p, k)
    ensures SdPower(tape, p, left) == 0
    decreases left
  {
    if k > 0 {
      FoundReady(tape, p + 2, left - 1, k - 1);
    }
  }

  /** The result of the power-up loop of mmc_send_op_cond on an idle MMC card. */
  function MmcPower(tape: Tape, p: nat, left: nat): int
    decreases left, p
  {
    if tape(p).err != 0 then tape(p).err
    else if Busy(tape(p).resp.c0) then (if left > 0 then 0 else UNUSABLE_ERR)
    else if left == 0 then UNUSABLE_ERR
    else MmcPower(tape, p + 1, left - 1)
  }

  /** The result of CMD55 on an MMC card, which does not take it. */
  function Refused(r: Reply): int { if r.err == 0 then -1 else r.err }

  /** The version after CMD8, sent as reply p. */
  function ProbedVersion(v: Version, r: Reply): Version { if r.err == 0 && r.resp.c0 % 0x100 == 0xaa then Sd2 else v }

  // ---------- what the card offers ----------

  ghost predicate SameAnswer(was: Record, h: Record, cmd: Command) { h.Answer(cmd) == was.Answer(cmd) }

  /** A register that is sent as n words, the highest first. */
  ghost function Number(data: nat -> Word, n: nat): nat
    decreases n, data(0)
  {
    if n == 0 then 0 else Number(data, n - 1) * 0x1_0000_0000 + data(n - 1)
  }

  /** A field inside one of the words, the last being word 0. */
  lemma {:induction false} WordField(data: nat -> Word, n: nat, i: nat, hi: nat, lo: nat)
    requires lo <= hi < 32 && i < n
    ensures Field(Number(data, n), 32 * i + hi, 32 * i + lo) == Field(data(n - 1 - i), hi, lo)
    decreases n
  {
    var above := Number(data, n - 1);
    if i == 0 {
      PairFields(above, data(n - 1), lo, hi - lo + 1);
    } else {
      PairFields(above, data(n - 1), 32 * (i - 1) + lo, hi - lo + 1);
      WordField(data, n - 1, i - 1, hi, lo);
    }
  }

  /** The fields of the SCR the driver reads. */
  lemma ScrFields(data: nat -> Word)
    ensures Field(Number(data, 2), 59, 56) == data(0) / 0x100_0000 % 0x10
    ensures Field(Number(data, 2), 50, 50) == data(0) / 0x4_0000 % 2
  {
    WordField(data, 2, 1, 27, 24);
    WordField(data, 2, 1, 18, 18);
    WordDivisions(data(0));
  }

  /** The fields of the switch status it reads. */
  lemma StatusFields(data: nat -> Word)
    ensures Field(Number(data, 16), 401, 401) == data(3) / 0x2_0000 % 2
    ensures Field(Number(data, 16), 379, 376) == data(4) / 0x100_0000 % 0x10
    ensures Field(Number(data, 16), 273, 273) == data(7) / 0x2_0000 % 2
  {
    WordField(data, 16, 12, 17, 17);
    WordField(data, 16, 11, 27, 24);
    WordField(data, 16, 8, 17, 17);
    WordDivisions(data(3));
    WordDivisions(data(4));
    WordDivisions(data(7));
  }

  lemma WordDivisions(w: Word)
    ensures Field(w, 27, 24) == w / 0x100_0000 % 0x10
    ensures Field(w, 17, 17) == w / 0x2_0000 % 2 && Field(w, 18, 18) == w / 0x4_0000 % 2
  {
    assert Pow2(4) == 0x10 && Pow2(8) == 0x100 && Pow2(9) == 0x200 && Pow2(10) == 0x400;
    Pow2Add(8, 8);
    Pow2Add(16, 8);
    Pow2Add(8, 9);
    Pow2Add(8, 10);
    FieldIsDiv(w, 27, 24, 0x100_0000, 0x10);
    BitIsDiv(w, 17, 0x2_0000);
    BitIsDiv(w, 18, 0x4_0000);
  }

  /** The SCR the driver went by. */
  ghost function Scr(h: Record): nat {
    match h.Answer(AppSendScr) case Some(r) => Number(r.data, 2) case None => 0
  }

  /** The 512-bit status the card answered CMD6 with last. */
  ghost function SwitchStatus(h: Record, change: bool): nat {
    match h.Answer(SwitchFunc(change)) case Some(r) => Number(r.data, 16) case None => 0
  }

  /** The version of an SD card, by SD_SPEC, bits 59..56 of its SCR. */
  ghost predicate ByScr(v: Version, h: Record) {
    var spec := Field(Scr(h), 59, 56);
    && h.Answer(AppSendScr).Some?
    && v == if spec == 2 then Sd2 else if spec == 1 then Sd1_10 else Sd1_0
  }

  /** The card says it has the high-speed function: bit 401 of the status. */
  ghost predicate SdHasFast(h: Record) { Field(SwitchStatus(h, false), 401, 401) == 1 }

  /** It has the function, and confirmed the switch to it in bits 379..376 of the status. */
  ghost predicate SdFast(h: Record) { SdHasFast(h) && Field(SwitchStatus(h, true), 379, 376) == 1 }

  /** Bit 273 of the status: the function is busy. */
  ghost predicate Occupied(r: Reply) { Field(Number(r.data, 16), 273, 273) == 1 }

  /** The modes an SD card offers: four data lines by bit 50 of its SCR, high speed from version 1.10 on. */
  ghost function SdOffer(h: Record): set<Mode> {
    var spec := Field(Scr(h), 59, 56);
    (if Field(Scr(h), 50, 50) == 1 then {Bit4} else {}) + (if (spec == 1 || spec == 2) && SdFast(h) then {HS} else {})
  }

  /** The modes an MMC card offers, by its extended CSD before and after the switch of the timing. */
  ghost function MmcOffer(v: Version, h: Record): set<Mode> {
    if v != Mmc4 then {} else
      var second := h.Answer(SendExtCsd);
      {Bit4} + if second.Some? && h.extCsd.Some? then MmcFast(h.extCsd.value, second.value) else {}
  }

  /** High speed when the timing byte is set after the switch, at 52 MHz when bit 1 of the card type was. */
  ghost function MmcFast(first: Reply, second: Reply): set<Mode> {
    if second.data(185) % 0x100 == 0 then {} else if Field(first.data(196), 1, 1) == 1 then {HS, HS52} else {HS}
  }

  /** The driver's mask tests that bit. */
  lemma CardType(w: Word)
    ensures And(And(w, 0xf), 2) != 0 <==> Field(w, 1, 1) == 1
  {
    assert Pow2(1) == 2 && Pow2(2) == 4 && Pow2(4) == 0x10;
    AndLowMask(w, 4);
    LowIsMod(w, 4);
    BitIsDiv(w, 1, 2);
    BitIsDiv(w % 0x10, 1, 2);
  }

  /** The version of an MMC card, by SPEC_VERS, bits 125..122 of its CSD. */
  ghost function MmcVersion(c: Csd): Version {
    var v := Field(Register(c), 125, 122);
    if v == 1 then Mmc1_4 else if v == 2 then Mmc2_2 else if v == 3 then Mmc3 else if v == 4 then Mmc4 else Mmc1_2
  }

  /** The modes a card offers. */
  ghost function Offer(v: Version, h: Record): set<Mode> { if IsSd(v) then SdOffer(h) else MmcOffer(v, h) }

  /** The clock these modes allow. */
  ghost function TopClock(v: Version, caps: set<Mode>): nat {
    if IsSd(v) then (if HS in caps then 50_000_000 else 25_000_000)
    else if HS !in caps then 20_000_000 else if HS52 in caps then 52_000_000 else 26_000_000
  }

  /** The capacity an extended CSD gives, its top byte sign-extended by the int arithmetic of the code. */
  function ExtCapacity(data: nat -> Word): nat {
    var n := data(212) % 0x100 + data(213) % 0x100 * 0x100 + data(214) % 0x100 * 0x1_0000
      + data(215) % 0x100 * 0x100_0000;
    (if n >= 0x8000_0000 then n - 0x1_0000_0000 else n) * 512 % 0x1_0000_0000_0000_0000
  }

  /**
   A card whose extended CSD counts s sectors in bytes 212 to 215, the lowest first, gets 512 bytes for
   each; from 2^31 on, which is 1 TB, the sign extension makes something else of them.
   */
  lemma ExtSectors(data: nat -> Word, s: Word)
    requires data(212) % 0x100 == s % 0x100 && data(213) % 0x100 == s / 0x100 % 0x100
    requires data(214) % 0x100 == s / 0x1_0000 % 0x100 && data(215) % 0x100 == s / 0x100_0000
    ensures s < 0x8000_0000 ==> ExtCapacity(data) == s * 512
    ensures s >= 0x8000_0000 ==> ExtCapacity(data) == 0x1_0000_0000_0000_0000 - (0x1_0000_0000 - s) * 512
  {
    WordBytes(s);
  }

  lemma WordBytes(s: Word)
    ensures s % 0x100 + s / 0x100 % 0x100 * 0x100 + s / 0x1_0000 % 0x100 * 0x1_0000 + s / 0x100_0000 * 0x100_0000 == s
  {
    assert s / 0x100 / 0x100 == s / 0x1_0000;
    assert s / 0x1_0000 / 0x100 == s / 0x100_0000;
  }

  /** What an answer to the request for the extended CSD makes of the capacity in the CSD. */
  function ExtStored(r: Reply, inCsd: nat): nat {
    var ext := ExtCapacity(r.data);
    if r.err == 0 && r.data(192) % 0x100 >= 2 && ext / 0x10_0000 > 2 * 1024 then ext else inCsd
  }

  /** The capacity of a card: that of its CSD, or of the extended CSD of an MMC card of version 4. */
  function FoundCapacity(v: Version, inCsd: nat, ext: Option<Reply>): nat {
    if v == Mmc4 && ext.Some? then ExtStored(ext.value, inCsd) else inCsd
  }

  /** The offers depend on these answers only. */
  lemma SameOffer(was: Record, h: Record)
    requires SameAnswer(was, h, AppSendScr) && SameAnswer(was, h, SwitchFunc(false)) &&
      SameAnswer(was, h, SwitchFunc(true))
    ensures SdOffer(h) == SdOffer(was)
  {
  }

  class Mmc {
    const tape: Tape
    var pos: nat
    var card: Card             // the card in the slot
    ghost const start: Card
    ghost var log: seq<(Command, Reply)>  // the commands sent so far
    ghost var history: seq<Record>        // what they came to, one by one
    ghost var now: Record                 // and in the end
    const hostCaps: set<Mode>
    const fMin: nat
    const fMax: nat
    var version: Version
    var hasInit: bool
    var highCapacity: bool
    var busWidth: nat
    var clock: nat
    var cardCaps: set<Mode>
    var rca: Word
    var csd: Csd
    var readBlLen: Word
    var writeBlLen: Word
    var capacity: nat
    var lba: Word
    var bMax: Word

    /** The card, and what is known of the run, are what the commands sent so far have made of them. */
    ghost predicate Valid()
      reads `log, `history, `now, `card
    {
      Records(start, history, log, now) && card == now.card
    }

    /** mmc->send_cmd. */
    method SendCmd(cmd: Command) returns (err: int, r: Reply)
      requires Valid() && now.Allows(cmd)
      modifies `pos, `card, `log, `history, `now
      ensures Valid()
      ensures r == tape(old(pos)) && pos == old(pos) + 1
      ensures now == Advance(old(now), cmd, r) && log == old(log) + [(cmd, r)]
      ensures (card, err) == Deliver(old(card), cmd, r)
    {
      r := tape(pos);
      pos := pos + 1;
      RecordsNext(start, history, log, now, cmd, r);
      log := log + [(cmd, r)];
      now := Advance(now, cmd, r);
      history := history + [now];
      var d := Deliver(card, cmd, r);
      card, err := d.0, d.1;
    }

    /** What the driver keeps using: the CSD, the extended CSDs, and the answer to the power-up. */
    ghost predicate SameAnswers(was: Record, h: Record)
      reads `rca
    {
      && SameAnswer(was, h, SendCsd(rca)) && SameAnswer(was, h, SendExtCsd)
      && h.extCsd == was.extCsd && h.firstExt == was.firstExt && h.power == was.power
    }

    /** CMD13 until the card is ready; its result is never used by the callers modelled here. */
    method PollStatus(timeout: nat) returns (err: int)
      requires Valid()
      modifies `pos, `card, `log, `history, `now
      ensures Valid()
      ensures pos >= old(pos) && now.bare == old(now.bare)
      ensures Same(card, old(card))
      ensures now.clean == (old(now.clean) && Accepts(old(card), SendStatus(rca)))
      ensures Accepts(old(card), SendStatus(rca)) ==> err == PollResult(tape, old(pos), timeout)
      ensures SameAnswers(old(now), now)
    {
      var left: int := timeout;
      while true
        invariant Valid() && pos >= old(pos) && now.bare == old(now.bare)
        invariant Same(card, old(card))
        invariant left == timeout ==> now.clean == old(now.clean) && card == old(card)
        invariant left < timeout ==> now.clean == (old(now.clean) && Accepts(old(card), SendStatus(rca)))
        invariant 0 <= left <= timeout
        invariant Accepts(old(card), SendStatus(rca)) ==>
          PollResult(tape, pos, left) == PollResult(tape, old(pos), timeout)
        invariant SameAnswers(old(now), now)
        decreases left
      {
        var r;
        err, r := SendCmd(SendStatus(rca));
        if err != 0 {
          return;
        } else if IsReady(r.resp.c0) {
          break;
        }
        if HasFault(r.resp.c0) {
          return COMM_ERR;
        }
        left := left - 1;
        if left + 1 == 0 {
          break;
        }
      }
      err := if left == 0 then TIMEOUT else 0;
    }

    /** CMD0. */
    method SendGoIdle() returns (err: int)
      requires Valid()
      modifies `pos, `card, `log, `history, `now
      ensures Valid()
      ensures pos == old(pos) + 1 && now.bare == old(now.bare)
      ensures card.kind == old(card).kind && now.clean == old(now.clean)
      ensures err == tape(old(pos)).err
      ensures card == Card(old(card).kind, Idle, false, 0) || (err != 0 && card == old(card))
    {
      var r;
      err, r := SendCmd(GoIdle);
    }

    /** CMD8: only SD cards of version 2 answer. */
    method ProbeIfCond() returns (err: int)
      requires Valid()
      modifies `pos, `card, `log, `history, `now, `version
      ensures Valid()
      ensures pos == old(pos) + 1 && now.bare == old(now.bare)
      ensures Same(card, old(card))
      ensures now.clean == (old(now.clean) && Accepts(old(card), SendIfCond))
      ensures version ==
        if Accepts(old(card), SendIfCond) then ProbedVersion(old(version), tape(old(pos))) else old(version)
    {
      var r;
      err, r := SendCmd(SendIfCond);
      if err != 0 {
        return;
      }
      if r.resp.c0 % 0x100 != 0xaa {
        return UNUSABLE_ERR;
      }
      version := Sd2;
    }

    /** An SD card, or an MMC card, after a reset. */
    predicate Fresh(c: Card) { c.state.Idle? && c.rca == 0 }

    /** One turn of sd_send_op_cond: CMD55 and ACMD41. */
    method AskOpCond() returns (err: int, r: Reply)
      requires Valid()
      modifies `pos, `card, `log, `history, `now
      ensures Valid()
      ensures pos > old(pos) && now.bare == old(now.bare)
      ensures card.kind == old(card).kind
      ensures err == 0 ==> old(card).kind.SdCard? && pos == old(pos) + 2
      ensures err == 0 ==> now.power == Some((AppSendOpCond, r))
      ensures err == 0 ==> card.state == if Busy(r.resp.c0) then Ready else Idle
      ensures old(card).kind.SdCard? && Fresh(old(card)) ==>
        && card.rca == 0 && now.clean == old(now.clean)
        && err == (if tape(old(pos)).err != 0 then tape(old(pos)).err else tape(old(pos) + 1).err)
        && (err == 0 ==> r == tape(old(pos) + 1))
        && card.state == (if tape(old(pos)).err == 0 && Busy(tape(old(pos) + 1).resp.c0) &&
                             (err == 0 || tape(old(pos) + 1).seen) then Ready else Idle)
      ensures old(card).kind.MmcCard? ==> Same(card, old(card)) && pos == old(pos) + 1 && err == Refused(tape(old(pos)))
    {
      err, r := SendCmd(AppCmd(0));
      if err != 0 {
        return;
      }
      err, r := SendCmd(AppSendOpCond);
    }

    /**
     The card was last powered up by this command, and the driver takes it for a high-capacity one
     exactly when bit 30 of the answer is set.
     */
    ghost predicate FlagSet(cmd: Command)
      reads `now, `highCapacity
    {
      && now.power.Some? && now.power.value.0 == cmd
      && highCapacity == (now.power.value.1.resp.c0 / 0x4000_0000 % 2 == 1)
    }

    /** sd_send_op_cond: CMD55 and ACMD41 until the card is powered up, at most 1001 times. */
    method SdSendOpCond() returns (err: int)
      requires Valid()
      modifies `pos, `card, `log, `history, `now, `version, `highCapacity, `rca
      ensures Valid()
      ensures pos > old(pos) && now.bare == old(now.bare)
      ensures card.kind == old(card).kind
      ensures err == 0 ==> card.kind.SdCard? && card.state.Ready? && rca == 0
      ensures err == 0 ==> version == if old(version) == Sd2 then Sd2 else Sd1_0
      ensures err == 0 ==> FlagSet(AppSendOpCond)
      ensures err != 0 ==> version == old(version) && rca == old(rca) && highCapacity == old(highCapacity)
      ensures old(card).kind.SdCard? && Fresh(old(card)) ==>
        && now.clean == old(now.clean) && err == SdPower(tape, old(pos), SD_TURNS)
        && (if SdPowered(tape, old(pos), SD_TURNS) then card.state.Ready? else card.state.Idle?)
      ensures old(card).kind.MmcCard? ==> Same(card, old(card)) && pos == old(pos) + 1 && err == Refused(tape(old(pos)))
    {
      var r, timeout;
      err, r, timeout := SdPowerLoop();
      if err != 0 {
        return;
      }
      if timeout <= 0 {
        return UNUSABLE_ERR;
      }
      if version != Sd2 {
        version := Sd1_0;
      }
      OcrBits(r.resp.c0);
      highCapacity := And(r.resp.c0, 0x4000_0000) != 0;
      rca := 0;
    }

    /** The loop of sd_send_op_cond: the last reply, and what is left of the timeout. */
    method SdPowerLoop() returns (err: int, r: Reply, timeout: int)
      requires Valid()
      modifies `pos, `card, `log, `history, `now
      ensures Valid()
      ensures pos > old(pos) && now.bare == old(now.bare)
      ensures card.kind == old(card).kind
      ensures err == 0 ==> now.power == Some((AppSendOpCond, r))
      ensures err == 0 && timeout > 0 ==> card.kind.SdCard? && card.state.Ready?
      ensures old(card).kind.SdCard? && Fresh(old(card)) ==>
        && now.clean == old(now.clean)
        && (if err == 0 && timeout <= 0 then UNUSABLE_ERR else err) == SdPower(tape, old(pos), SD_TURNS)
        && (if SdPowered(tape, old(pos), SD_TURNS) then card.state.Ready? else card.state.Idle?)
      ensures old(card).kind.MmcCard? ==> Same(card, old(card)) && pos == old(pos) + 1 && err == Refused(tape(old(pos)))
    {
      timeout := SD_TURNS;
      while true
        invariant Valid() && pos >= old(pos) && now.bare == old(now.bare)
        invariant 0 <= timeout <= SD_TURNS
        invariant card.kind == old(card).kind
        invariant timeout < SD_TURNS ==> card.kind.SdCard?
        invariant timeout == SD_TURNS ==> card == old(card) && pos == old(pos)
        invariant old(card).kind.SdCard? && Fresh(old(card)) ==>
          && Fresh(card) && now.clean == old(now.clean)
          && SdPower(tape, pos, timeout) == SdPower(tape, old(pos), SD_TURNS)
          && SdPowered(tape, pos, timeout) == SdPowered(tape, old(pos), SD_TURNS)
        decreases timeout
      {
        err, r := AskOpCond();
        if err != 0 {
          return;
        }
        OcrBits(r.resp.c0);
        if And(r.resp.c0, 0x8000_0000) != 0 {
          break;
        }
        timeout := timeout - 1;
        if timeout + 1 == 0 {
          break;
        }
      }
    }

    /** mmc_send_op_cond: a reset whose result is ignored, a query, and the MMC power-up loop. */
    method MmcSendOpCondLoop() returns (err: int)
      requires Valid()
      modifies `pos, `card, `log, `history, `now, `version, `highCapacity, `rca
      ensures Valid()
      ensures pos >= old(pos) && now.bare == old(now.bare)
      ensures card.kind == old(card).kind
      ensures err == 0 ==> card.kind.MmcCard? && card.state.Ready? && version == MmcUnknown && rca == 1
      ensures if err == 0 then FlagSet(MmcSendOpCond(false)) else highCapacity == old(highCapacity)
      ensures old(card).kind.SdCard? ==> err != 0 && !now.clean
      ensures old(card).kind.MmcCard? && old(card).state.Idle? ==>
        err == if tape(old(pos) + 1).err != 0 then tape(old(pos) + 1).err else MmcPower(tape, old(pos) + 2, MMC_TURNS)
    {
      var ignored := SendGoIdle();
      var r;
      err, r := SendCmd(MmcSendOpCond(true));
      if err != 0 {
        return;
      }
      var timeout;
      err, r, timeout := MmcPowerLoop();
      if err != 0 {
        return;
      }
      if timeout <= 0 {
        return UNUSABLE_ERR;
      }
      version := MmcUnknown;
      OcrBits(r.resp.c0);
      highCapacity := And(r.resp.c0, 0x4000_0000) != 0;
      rca := 1;
    }

    /** The loop of mmc_send_op_cond. */
    method MmcPowerLoop() returns (err: int, r: Reply, timeout: int)
      requires Valid() && card.kind.MmcCard? && card.state.Idle?
      modifies `pos, `card, `log, `history, `now
      ensures Valid()
      ensures pos >= old(pos) && now.bare == old(now.bare)
      ensures card.kind.MmcCard?
      ensures err == 0 ==> now.power == Some((MmcSendOpCond(false), r))
      ensures err == 0 && timeout > 0 ==> card.state.Ready?
      ensures (if err == 0 && timeout <= 0 then UNUSABLE_ERR else err) == MmcPower(tape, old(pos), MMC_TURNS)
    {
      timeout := MMC_TURNS;
      while true
        invariant Valid() && pos >= old(pos) && now.bare == old(now.bare)
        invariant 0 <= timeout
        invariant card.kind.MmcCard? && card.state.Idle?
        invariant MmcPower(tape, pos, timeout) == MmcPower(tape, old(pos), MMC_TURNS)
        decreases timeout
      {
        err, r := SendCmd(MmcSendOpCond(false));
        if err != 0 {
          return;
        }
        OcrBits(r.resp.c0);
        if And(r.resp.c0, 0x8000_0000) != 0 {
          break;
        }
        timeout := timeout - 1;
        if timeout + 1 == 0 {
          break;
        }
      }
    }

    // ---------- from power-up to the transfer state ----------

    /** The driver knows what kind of card it has. */
    predicate Known(c: Card, v: Version) { c.kind.SdCard? <==> IsSd(v) }

    /** A card in the transfer state, at the address the driver uses. */
    predicate Addressed(c: Card)
      reads `rca
    {
      c.state.Tran? && c.rca == rca
    }

    /** Every command was taken, unless an ACMD51 was repeated bare. */
    ghost predicate Kept()
      reads `now
    {
      now.clean <==> !now.bare
    }

    /** CMD2 and CMD3: the card leaves the ready state and gets its address. */
    method AssignAddress() returns (err: int)
      requires Valid()
      modifies `pos, `card, `log, `history, `now, `rca
      ensures Valid()
      ensures pos >= old(pos) && now.bare == old(now.bare) && now.power == old(now.power)
      ensures card.kind == old(card).kind
      ensures !old(card).state.Ready? ==> err != 0 && !now.clean
      ensures err == 0 ==> card.state.Stby?
      ensures old(card).state.Ready? && Known(old(card), version) ==>
        now.clean == old(now.clean) && (err == 0 ==> rca == card.rca) && (Served(tape, old(pos)) ==> err == 0)
    {
      var r;
      err, r := SendCmd(AllSendCid);
      if err != 0 {
        return;
      }
      err, r := SendCmd(RelativeAddr(rca));
      if err != 0 {
        return;
      }
      if IsSd(version) {
        rca := r.resp.c0 / 0x1_0000;
      }
    }

    /** CMD9, then CMD13 whatever its result. */
    method ReadCsd() returns (err: int, c: Csd)
      requires Valid()
      modifies `pos, `card, `log, `history, `now
      ensures Valid()
      ensures pos >= old(pos) && now.bare == old(now.bare) && now.power == old(now.power)
      ensures Same(card, old(card))
      ensures old(card).state.Stby? && old(card).rca == rca ==>
        now.clean == old(now.clean) && (Served(tape, old(pos)) ==> err == 0)
      ensures var sent := now.Answer(SendCsd(rca)); sent.Some? && c == sent.value.resp
    {
      var r;
      err, r := SendCmd(SendCsd(rca));
      c := r.resp;
      var ignored := PollStatus(1000);
    }

    /** What mmc_startup takes from the CSD. */
    method StoreCsd(c: Csd)
      modifies `version, `csd, `readBlLen, `writeBlLen, `capacity
      ensures version == if old(version) == MmcUnknown then MmcVersion(c) else old(version)
      ensures csd == c && readBlLen == ReadBlLen(c) && capacity == Capacity(c, highCapacity)
      ensures writeBlLen == if IsSd(version) then ReadBlLen(c) else WriteBlLen(c)
    {
      csd := c;
      if version == MmcUnknown {
        SpecVersField(csd);
        var v := csd.c0 / 0x400_0000 % 0x10;
        version := if v == 1 then Mmc1_4 else if v == 2 then Mmc2_2 else if v == 3 then Mmc3
                   else if v == 4 then Mmc4 else Mmc1_2;
      }
      readBlLen := ReadBlLen(csd);
      writeBlLen := if IsSd(version) then readBlLen else WriteBlLen(csd);
      capacity := Capacity(csd, highCapacity);
    }

    /** The block lengths are those of the CSD the card at this address gave last. */
    ghost predicate CsdStored()
      reads `now, `rca, `csd, `readBlLen, `writeBlLen, `version
    {
      var sent := now.Answer(SendCsd(rca));
      && sent.Some? && csd == sent.value.resp
      && readBlLen == ReadBlLen(csd) && writeBlLen == (if IsSd(version) then ReadBlLen(csd) else WriteBlLen(csd))
    }

    /** The first half of mmc_startup: from power-up to the transfer state. */
    method Identify() returns (err: int)
      requires Valid()
      modifies `pos, `card, `log, `history, `now, `version, `rca, `csd, `readBlLen, `writeBlLen, `capacity
      ensures Valid()
      ensures pos >= old(pos) && now.bare == old(now.bare) && now.power == old(now.power)
      ensures card.kind == old(card).kind
      ensures err == 0 ==> card.state.Tran?
      ensures !old(card).state.Ready? ==> err != 0 && !now.clean
      ensures IsSd(version) <==> IsSd(old(version))
      ensures old(card).state.Ready? && Known(old(card), old(version)) ==>
        now.clean == old(now.clean) && (err == 0 ==> rca == card.rca) && (Served(tape, old(pos)) ==> err == 0)
      ensures err == 0 ==> CsdStored() && capacity == Capacity(csd, highCapacity) && now.firstExt.None?
      ensures err == 0 ==> version == if old(version) == MmcUnknown then MmcVersion(csd) else old(version)
    {
      err := AssignAddress();
      if err != 0 {
        return;
      }
      err := TakeCsd();
      if err != 0 {
        return;
      }
      err := Select();
    }

    /** CMD7. */
    method Select() returns (err: int)
      requires Valid()
      modifies `pos, `card, `log, `history, `now
      ensures Valid()
      ensures pos == old(pos) + 1 && now.bare == old(now.bare) && now.power == old(now.power)
      ensures card.kind == old(card).kind && card.rca == old(card).rca
      ensures err == 0 ==> card.state.Tran?
      ensures old(card).state.Stby? && old(card).rca == rca ==>
        now.clean == old(now.clean) && err == tape(old(pos)).err
      ensures SameAnswer(old(now), now, SendCsd(rca)) && now.firstExt.None?
    {
      var r;
      err, r := SendCmd(SelectCard(rca));
    }

    /** CMD9, and what the driver takes from the answer. */
    method TakeCsd() returns (err: int)
      requires Valid()
      modifies `pos, `card, `log, `history, `now, `version, `csd, `readBlLen, `writeBlLen, `capacity
      ensures Valid()
      ensures pos >= old(pos) && now.bare == old(now.bare) && now.power == old(now.power)
      ensures Same(card, old(card))
      ensures IsSd(version) <==> IsSd(old(version))
      ensures old(card).state.Stby? && old(card).rca == rca ==>
        now.clean == old(now.clean) && (Served(tape, old(pos)) ==> err == 0)
      ensures err == 0 ==> CsdStored() && capacity == Capacity(csd, highCapacity)
      ensures err == 0 ==> version == if old(version) == MmcUnknown then MmcVersion(csd) else old(version)
    {
      var c;
      err, c := ReadCsd();
      if err == 0 {
        StoreCsd(c);
      }
    }

    /** Block lengths and capacity are those of the CSD, and of the extended CSD where it counts. */
    ghost predicate Sized()
      reads `now, `rca, `csd, `readBlLen, `writeBlLen, `version, `capacity, `highCapacity
    {
      && CsdStored() && capacity == FoundCapacity(version, Capacity(csd, highCapacity), now.firstExt)
      && (version == Mmc4 ==> now.firstExt.Some?)
    }

    // ---------- speed, bus width and clock ----------

    /** CMD6 of MMC cards, then CMD13 whatever its result. */
    method SwitchMmc(index: nat, value: nat) returns (err: int)
      requires Valid()
      modifies `pos, `card, `log, `history, `now
      ensures Valid()
      ensures pos >= old(pos) && now.bare == old(now.bare) && now.power == old(now.power)
      ensures Same(card, old(card))
      ensures old(card).kind.MmcCard? && Addressed(old(card)) ==>
        now.clean == old(now.clean) && err == tape(old(pos)).err
      ensures SameAnswer(old(now), now, SendExtCsd) && SameAnswer(old(now), now, SendCsd(rca))
      ensures now.firstExt == old(now.firstExt)
      ensures now.extCsd ==
        if Switch(index, value) == Switch(TIMING, 1) then old(now).Answer(SendExtCsd) else old(now.extCsd)
    {
      var r;
      err, r := SendCmd(Switch(index, value));
      var ignored := PollStatus(1000);
    }

    /** CMD8 of MMC cards. */
    method ReadExtCsd() returns (err: int, r: Reply)
      requires Valid()
      modifies `pos, `card, `log, `history, `now
      ensures Valid()
      ensures pos >= old(pos) && now.bare == old(now.bare) && now.power == old(now.power)
      ensures Same(card, old(card))
      ensures old(card).kind.MmcCard? && Addressed(old(card)) ==>
        now.clean == old(now.clean) && (Served(tape, old(pos)) ==> err == 0)
      ensures now.Answer(SendExtCsd) == Some(r) && SameAnswer(old(now), now, SendCsd(rca))
      ensures now.extCsd == old(now.extCsd)
      ensures now.firstExt == if old(now).firstExt.Some? then old(now.firstExt) else Some(r)
      ensures old(card).kind.MmcCard? && Addressed(old(card)) ==> err == r.err
    {
      err, r := SendCmd(SendExtCsd);
    }

    /** mmc_change_freq: the capabilities are what the extended CSD offers. */
    method MmcChangeFreq() returns (err: int)
      requires Valid()
      modifies `pos, `card, `log, `history, `now, `cardCaps
      ensures Valid()
      ensures pos >= old(pos) && now.bare == old(now.bare) && now.power == old(now.power)
      ensures Same(card, old(card))
      ensures old(card).kind.MmcCard? && Addressed(old(card)) ==>
        now.clean == old(now.clean) && (Served(tape, old(pos)) ==> err == 0)
      ensures err == 0 ==> cardCaps == MmcOffer(version, now)
      ensures SameAnswer(old(now), now, SendCsd(rca))
      ensures old(now).firstExt.Some? ==> now.firstExt == old(now.firstExt)
    {
      cardCaps := {};
      if version != Mmc4 {
        return 0;
      }
      cardCaps := cardCaps + {Bit4};
      var first, second;
      err, first := ReadExtCsd();
      if err != 0 {
        return;
      }
      err := SwitchMmc(TIMING, 1);
      if err != 0 {
        return;
      }
      err, second := ReadExtCsd();
      if err != 0 {
        return;
      }
      CardType(first.data(196));
      if second.data(185) % 0x100 == 0 {
        return 0;
      }
      cardCaps := cardCaps + if And(And(first.data(196), 0xf), 2) != 0 then {HS, HS52} else {HS};
    }

    /** The SCR: CMD55, then ACMD51 until it succeeds or has failed four times. */
    method ReadScr() returns (err: int, r: Reply)
      requires Valid()
      modifies `pos, `card, `log, `history, `now
      ensures Valid()
      ensures pos >= old(pos) && now.power == old(now.power)
      ensures Same(card, old(card))
      ensures old(card).kind.SdCard? && Addressed(old(card)) ==>
        && (old(now.clean && !now.bare) ==> Kept())
        && (Served(tape, old(pos)) ==> err == 0 && now.clean == old(now.clean) && now.bare == old(now.bare))
      ensures err == 0 ==> now.Answer(AppSendScr) == Some(r)
      ensures SameAnswer(old(now), now, SendCsd(rca))
    {
      err, r := SendCmd(AppCmd(rca));
      if err == 0 {
        err, r := AskScr();
      }
    }

    /** ACMD51, up to four times. */
    method AskScr() returns (err: int, r: Reply)
      requires Valid() && card.app && now.last.Some? && now.last.value.0.AppCmd?
      modifies `pos, `card, `log, `history, `now
      ensures Valid()
      ensures old(pos) < pos <= old(pos) + 4 && now.power == old(now.power) && (err != 0 ==> pos == old(pos) + 4)
      ensures Same(card, old(card))
      ensures old(card).kind.SdCard? && Addressed(old(card)) ==>
        && (old(now.clean && !now.bare) ==> Kept())
        && (Served(tape, old(pos)) ==> err == 0 && now.clean == old(now.clean) && now.bare == old(now.bare))
      ensures err == 0 ==> now.Answer(AppSendScr) == Some(r)
      ensures SameAnswer(old(now), now, SendCsd(rca))
    {
      var timeout: int := 3;
      ghost var sd := card.kind.SdCard? && Addressed(card);
      while true
        invariant Valid() && pos == old(pos) + 3 - timeout && now.power == old(now.power)
        invariant 0 <= timeout <= 3
        invariant Same(card, old(card))
        invariant now.Allows(AppSendScr)
        invariant timeout == 3 ==> card.app && now.last.Some? && now.last.value.0.AppCmd?
        invariant sd && old(now.clean && !now.bare) ==> Kept() && (now.clean ==> card.app == !now.RepeatsSeen())
        invariant sd && Served(tape, old(pos)) ==>
          timeout == 3 && now.clean == old(now.clean) && now.bare == old(now.bare)
        invariant SameAnswer(old(now), now, SendCsd(rca))
        decreases timeout
      {
        err, r := SendCmd(AppSendScr);
        if err == 0 {
          break;
        }
        timeout := timeout - 1;
        if timeout + 1 == 0 {
          return;
        }
      }
    }

    /** The rest of sd_change_freq: CMD6 until the function is not busy, then CMD6 to switch. */
    method SwitchToHighSpeed() returns (err: int)
      requires Valid()
      modifies `pos, `card, `log, `history, `now, `cardCaps
      ensures Valid()
      ensures pos >= old(pos) && now.bare == old(now.bare) && now.power == old(now.power)
      ensures Same(card, old(card))
      ensures old(card).kind.SdCard? && Addressed(old(card)) ==>
        now.clean == old(now.clean) && (Served(tape, old(pos)) ==> err == 0)
      ensures err == 0 ==> cardCaps == old(cardCaps) + if SdFast(now) then {HS} else {}
      ensures err == 0 ==> now.last.Some? && now.last.value.0 == SwitchFunc(SdHasFast(now))
      ensures SameAnswer(old(now), now, AppSendScr) && SameAnswer(old(now), now, SendCsd(rca))
    {
      var r;
      err, r := CheckFunc();
      if err != 0 {
        return;
      }
      StatusFields(r.data);
      if r.data(3) / 0x2_0000 % 2 == 0 {
        return 0;
      }
      err, r := SendCmd(SwitchFunc(true));
      if err != 0 {
        return;
      }
      StatusFields(r.data);
      if r.data(4) / 0x100_0000 % 0x10 == 1 {
        cardCaps := cardCaps + {HS};
      }
    }

    /** CMD6 until the function is not busy, at most four times. */
    method CheckFunc() returns (err: int, r: Reply)
      requires Valid()
      modifies `pos, `card, `log, `history, `now
      ensures Valid()
      ensures pos >= old(pos) && now.bare == old(now.bare) && now.power == old(now.power)
      ensures Same(card, old(card))
      ensures old(card).kind.SdCard? && Addressed(old(card)) ==>
        now.clean == old(now.clean) && (Served(tape, old(pos)) ==> err == 0)
      ensures err == 0 ==> now.Answer(SwitchFunc(false)) == Some(r) && now.last == Some((SwitchFunc(false), r))
      ensures old(pos) < pos <= old(pos) + 4 && r == tape(pos - 1)
      ensures err == 0 ==> !Occupied(r) || pos == old(pos) + 4
      ensures forall i :: old(pos) <= i < pos - 1 ==> Occupied(tape(i))
      ensures SameAnswer(old(now), now, AppSendScr) && SameAnswer(old(now), now, SendCsd(rca))
    {
      var timeout: int := 4;
      err := 0;
      while true
        invariant Valid() && pos == old(pos) + 4 - timeout && now.bare == old(now.bare) && now.power == old(now.power)
        invariant 0 < timeout <= 4
        invariant forall i :: old(pos) <= i < pos ==> Occupied(tape(i))
        invariant Same(card, old(card))
        invariant old(card).kind.SdCard? && Addressed(old(card)) ==> now.clean == old(now.clean)
        invariant SameAnswer(old(now), now, AppSendScr) && SameAnswer(old(now), now, SendCsd(rca))
        decreases timeout
      {
        timeout := timeout - 1;
        err, r := SendCmd(SwitchFunc(false));
        if err != 0 {
          return;
        }
        StatusFields(r.data);
        if r.data(7) / 0x2_0000 % 2 == 0 || timeout == 0 {
          break;
        }
      }
    }

    /**
     sd_change_freq: the version and the capabilities are what the SCR and the answers to CMD6
     offer. ACMD51 is sent again, without its CMD55, up to three times when it fails.
     */
    method SdChangeFreq() returns (err: int)
      requires Valid()
      modifies `pos, `card, `log, `history, `now, `cardCaps, `version
      ensures Valid()
      ensures pos >= old(pos) && now.power == old(now.power)
      ensures Same(card, old(card))
      ensures old(card).kind.SdCard? && Addressed(old(card)) ==>
        && (old(now.clean && !now.bare) ==> Kept())
        && (Served(tape, old(pos)) ==> err == 0 && now.clean == old(now.clean) && now.bare == old(now.bare))
      ensures IsSd(old(version)) ==> IsSd(version)
      ensures err == 0 ==> cardCaps == SdOffer(now) && ByScr(version, now)
      ensures SameAnswer(old(now), now, SendCsd(rca))
    {
      cardCaps := {};
      var r;
      err, r := ReadScr();
      if err != 0 {
        return;
      }
      ScrFields(r.data);
      var spec := r.data(0) / 0x100_0000 % 0x10;
      version := if spec == 1 then Sd1_10 else if spec == 2 then Sd2 else Sd1_0;
      if r.data(0) / 0x4_0000 % 2 == 1 {
        cardCaps := cardCaps + {Bit4};
      }
      if version == Sd1_0 {
        return 0;
      }
      err := SwitchToHighSpeed();
    }

    /** The frequency in the host's range that stands for hz; the lower bound wins. */
    function Limited(hz: nat): (r: nat)
      ensures fMin <= hz <= fMax ==> r == hz
      ensures hz < fMin ==> r == fMin
      ensures hz > fMax ==> r == if fMin <= fMax then fMax else fMin
    {
      if hz > fMax && fMax >= fMin then fMax else if hz < fMin || hz > fMax then fMin else hz
    }

    method SetClock(hz: nat)
      modifies `clock
      ensures clock == Limited(hz)
    {
      clock := if hz > fMax then fMax else hz;
      clock := if clock < fMin then fMin else clock;
    }

    /** The modes both sides offer are in use: version, capabilities, bus width and clock. */
    ghost predicate Tuned()
      reads `cardCaps, `version, `now, `busWidth, `clock
    {
      && (IsSd(version) ==> ByScr(version, now))
      && cardCaps == Offer(version, now) * hostCaps
      && busWidth == (if Bit4 in cardCaps then 4 else if Bit8 in cardCaps && !IsSd(version) then 8 else 1)
      && clock == Limited(TopClock(version, cardCaps))
    }

    /** ACMD6 when both sides can use four data lines. */
    method SetWidthSd() returns (err: int)
      requires Valid()
      modifies `pos, `card, `log, `history, `now, `busWidth
      ensures Valid()
      ensures pos >= old(pos) && now.bare == old(now.bare) && now.power == old(now.power)
      ensures Same(card, old(card))
      ensures old(card).kind.SdCard? && Addressed(old(card)) ==>
        now.clean == old(now.clean) && (Served(tape, old(pos)) ==> err == 0)
      ensures err == 0 ==> busWidth == if Bit4 in cardCaps then 4 else old(busWidth)
      ensures err == 0 && Bit4 in cardCaps ==>
        now.last.Some? && now.last.value.0 == AppSetBusWidth
      ensures SameAnswer(old(now), now, AppSendScr)
      ensures SameAnswer(old(now), now, SwitchFunc(false)) && SameAnswer(old(now), now, SwitchFunc(true))
      ensures SameAnswer(old(now), now, SendCsd(rca))
    {
      err := 0;
      if Bit4 in cardCaps {
        err := AskWidth();
        if err == 0 {
          busWidth := 4;
        }
      }
    }

    /** CMD55 and ACMD6. */
    method AskWidth() returns (err: int)
      requires Valid()
      modifies `pos, `card, `log, `history, `now
      ensures Valid()
      ensures pos >= old(pos) && now.bare == old(now.bare) && now.power == old(now.power)
      ensures Same(card, old(card))
      ensures old(card).kind.SdCard? && Addressed(old(card)) ==>
        now.clean == old(now.clean) && (Served(tape, old(pos)) ==> err == 0)
      ensures err == 0 ==> now.last.Some? && now.last.value.0 == AppSetBusWidth
      ensures SameAnswer(old(now), now, AppSendScr)
      ensures SameAnswer(old(now), now, SwitchFunc(false)) && SameAnswer(old(now), now, SwitchFunc(true))
      ensures SameAnswer(old(now), now, SendCsd(rca))
    {
      var r;
      err, r := SendCmd(AppCmd(rca));
      if err == 0 {
        err, r := SendCmd(AppSetBusWidth);
      }
    }

    /** CMD6 of MMC cards for the widest bus both sides can use. */
    method SetWidthMmc() returns (err: int)
      requires Valid()
      modifies `pos, `card, `log, `history, `now, `busWidth
      ensures Valid()
      ensures pos >= old(pos) && now.bare == old(now.bare)
      ensures Same(card, old(card))
      ensures old(card).kind.MmcCard? && Addressed(old(card)) ==>
        now.clean == old(now.clean) && (Served(tape, old(pos)) ==> err == 0)
      ensures err == 0 ==> busWidth == if Bit4 in cardCaps then 4 else if Bit8 in cardCaps then 8 else old(busWidth)
      ensures SameAnswers(old(now), now)
    {
      err := 0;
      if Bit4 in cardCaps {
        err := SwitchMmc(WIDTH, 1);
        if err != 0 {
          return;
        }
        busWidth := 4;
      } else if Bit8 in cardCaps {
        err := SwitchMmc(WIDTH, 2);
        if err != 0 {
          return;
        }
        busWidth := 8;
      }
    }

    /** The capabilities both sides have, from what the card offers. */
    method FindModes() returns (err: int)
      requires Valid()
      modifies `pos, `card, `log, `history, `now, `cardCaps, `version
      ensures Valid()
      ensures pos >= old(pos) && now.power == old(now.power)
      ensures Same(card, old(card)) && (IsSd(version) <==> IsSd(old(version)))
      ensures Known(old(card), old(version)) && Addressed(old(card)) ==>
        && (old(now.clean && !now.bare) ==> Kept())
        && (Served(tape, old(pos)) ==> err == 0 && now.clean == old(now.clean) && now.bare == old(now.bare))
      ensures err == 0 ==> cardCaps == Offer(version, now) * hostCaps && (IsSd(version) ==> ByScr(version, now))
      ensures err == 0 && old(Sized()) ==> Sized()
      ensures !IsSd(old(version)) ==> version == old(version)
    {
      if IsSd(version) {
        err := SdChangeFreq();
      } else {
        err := MmcChangeFreq();
      }
      if err == 0 {
        cardCaps := cardCaps * hostCaps;
      }
    }

    /** The widest bus both sides can use. */
    method SetWidth() returns (err: int)
      requires Valid()
      modifies `pos, `card, `log, `history, `now, `busWidth
      ensures Valid()
      ensures pos >= old(pos) && now.bare == old(now.bare) && now.power == old(now.power)
      ensures Same(card, old(card))
      ensures Known(old(card), version) && Addressed(old(card)) ==>
        now.clean == old(now.clean) && (Served(tape, old(pos)) ==> err == 0)
      ensures err == 0 ==>
        busWidth == if Bit4 in cardCaps then 4 else if Bit8 in cardCaps && !IsSd(version) then 8 else old(busWidth)
      ensures Offer(version, now) == Offer(version, old(now))
      ensures IsSd(version) ==> SameAnswer(old(now), now, AppSendScr)
      ensures old(Sized()) ==> Sized()
    {
      if IsSd(version) {
        ghost var before := now;
        err := SetWidthSd();
        SameOffer(before, now);
      } else {
        err := SetWidthMmc();
      }
    }

    /** The end of mmc_startup: speed, bus width and clock, all in the transfer state. */
    method Configure() returns (err: int)
      requires Valid()
      modifies `pos, `card, `log, `history, `now, `cardCaps, `version, `busWidth, `clock
      ensures Valid()
      ensures pos >= old(pos) && now.power == old(now.power)
      ensures Same(card, old(card)) && (IsSd(version) <==> IsSd(old(version)))
      ensures Known(old(card), old(version)) && Addressed(old(card)) ==>
        && (old(now.clean && !now.bare) ==> Kept())
        && (Served(tape, old(pos)) ==> err == 0)
      ensures err == 0 && old(busWidth) == 1 ==> Tuned()
      ensures !IsSd(old(version)) ==> version == old(version)
      ensures err == 0 && old(Sized()) ==> Sized()
    {
      err := FindModes();
      if err == 0 {
        err := SetWidth();
      }
      if err == 0 {
        SetBestClock();
      }
    }

    /** The fastest clock for the modes in use. */
    method SetBestClock()
      modifies `clock
      ensures clock == Limited(TopClock(version, cardCaps))
    {
      if IsSd(version) {
        if HS in cardCaps {
          SetClock(50_000_000);
        } else {
          SetClock(25_000_000);
        }
      } else if HS in cardCaps {
        if HS52 in cardCaps {
          SetClock(52_000_000);
        } else {
          SetClock(26_000_000);
        }
      } else {
        SetClock(20_000_000);
      }
    }

    // ---------- the whole ----------

    /** The capacity of a large MMC card, from its extended CSD; a failure to read it is ignored. */
    method FindCapacity()
      requires Valid()
      modifies `pos, `card, `log, `history, `now, `capacity
      ensures Valid()
      ensures pos >= old(pos) && now.bare == old(now.bare) && now.power == old(now.power)
      ensures Same(card, old(card))
      ensures !Known(old(card), version) || (Addressed(old(card)) ==> now.clean == old(now.clean))
      ensures IsSd(version) ==> now == old(now)
      ensures old(CsdStored()) && old(capacity) == Capacity(csd, highCapacity) && old(now).firstExt.None? &&
              (IsSd(version) || (card.kind.MmcCard? && Addressed(old(card)))) ==>
        Sized()
    {
      if version == Mmc4 {
        var err, r := ReadExtCsd();
        if err == 0 && r.data(192) % 0x100 >= 2 && ExtCapacity(r.data) / 0x10_0000 > 2 * 1024 {
          capacity := ExtCapacity(r.data);
        }
      }
    }

    /** Block lengths, capacity and block count are those of the CSD, and of the extended CSD where it counts. */
    ghost predicate Geometry()
      reads `now, `rca, `csd, `readBlLen, `writeBlLen, `version, `capacity, `highCapacity, `lba
    {
      Sized() && lba == Shifted(capacity)
    }

    /**
     In the transfer state, with the best modes and the geometry of the CSD; what an SD card the
     driver takes for an MMC card is sized by is left open.
     */
    ghost predicate Started()
      reads `card, `cardCaps, `busWidth, `clock, `now, `rca, `csd, `readBlLen, `writeBlLen, `version, `capacity,
            `highCapacity, `lba
    {
      card.state.Tran? && Tuned() && (IsSd(version) || card.kind.MmcCard? ==> Geometry())
    }

    /** mmc_startup. */
    method Startup() returns (err: int)
      requires Valid()
      modifies `pos, `card, `log, `history, `now, `cardCaps, `version, `busWidth, `clock, `rca, `csd,
               `readBlLen, `writeBlLen, `capacity, `lba
      ensures Valid()
      ensures card.kind == old(card).kind && now.power == old(now.power)
      ensures err == 0 && old(busWidth) == 1 ==> Started()
      ensures !old(card).state.Ready? ==> err != 0 && !now.clean
      ensures old(card).state.Ready? && Known(old(card), old(version)) ==>
        && (old(now.clean && !now.bare) ==> Kept())
        && (Served(tape, old(pos)) ==> err == 0)
      ensures err == 0 ==> (IsSd(version) <==> IsSd(old(version)))
      ensures err == 0 && old(version) == MmcUnknown ==> version == MmcVersion(csd)
    {
      err := Identify();
      if err == 0 {
        err := Finish();
      }
    }

    /** The second half of mmc_startup, in the transfer state. */
    method Finish() returns (err: int)
      requires Valid() && card.state.Tran?
      modifies `pos, `card, `log, `history, `now, `cardCaps, `version, `busWidth, `clock, `capacity, `lba
      ensures Valid() && now.power == old(now.power)
      ensures Same(card, old(card)) && (IsSd(version) <==> IsSd(old(version)))
      ensures Known(old(card), old(version)) && Addressed(old(card)) ==>
        (old(now.clean && !now.bare) ==> Kept()) && (Served(tape, old(pos)) ==> err == 0)
      ensures err == 0 && old(busWidth) == 1 ==> Tuned()
      ensures !IsSd(old(version)) ==> version == old(version)
      ensures err == 0 && old(CsdStored()) && old(capacity) == Capacity(csd, highCapacity) && old(now).firstExt.None? &&
              (IsSd(version) || (card.kind.MmcCard? && Addressed(old(card)))) ==>
        Geometry()
    {
      FindCapacity();
      err := Configure();
      if err != 0 {
        return;
      }
      lba := Shifted(capacity);
    }

    /** A card marked as initialised is in the transfer state. */
    predicate Settled()
      reads `hasInit, `card
    {
      hasInit ==> card.state.Tran?
    }

    /** The SD power-up succeeds, or leaves the card powered up all the same and known to be an SD card. */
    function SdFound(p: nat, v: Version): bool {
      var power := SdPower(tape, p + 2, SD_TURNS);
      || power == 0
      || (power != TIMEOUT && SdPowered(tape, p + 2, SD_TURNS) && IsSd(ProbedVersion(v, tape(p + 1))))
    }

    /** No card is left to start up: the SD power-up timed out, or left it without power. */
    function SdLost(p: nat): bool {
      SdPower(tape, p + 2, SD_TURNS) == TIMEOUT || !SdPowered(tape, p + 2, SD_TURNS)
    }

    /** The MMC power-up is reached, through a CMD55 that times out, and succeeds. */
    function MmcFound(p: nat): bool {
      tape(p + 2).err == TIMEOUT && tape(p + 4).err == 0 && MmcPower(tape, p + 5, MMC_TURNS) == 0
    }

    /** CMD8, whose result is ignored, and sd_send_op_cond. */
    method TrySd() returns (err: int)
      requires Valid()
      modifies `pos, `card, `log, `history, `now, `version, `rca, `highCapacity
      ensures Valid()
      ensures pos >= old(pos) + 2 && now.bare == old(now.bare) && card.kind == old(card).kind
      ensures old(card).kind.SdCard? && Fresh(old(card)) ==>
        && now.clean == old(now.clean) && err == SdPower(tape, old(pos) + 1, SD_TURNS)
        && (if SdPowered(tape, old(pos) + 1, SD_TURNS) then card.state.Ready? else card.state.Idle?)
        && (err == 0 ==> card.state.Ready? && IsSd(version) && FlagSet(AppSendOpCond))
        && (err != 0 ==> version == ProbedVersion(old(version), tape(old(pos))) && highCapacity == old(highCapacity))
      ensures old(card).kind.MmcCard? ==>
        Same(card, old(card)) && pos == old(pos) + 2 && err == Refused(tape(old(pos) + 1))
    {
      var ignored := ProbeIfCond();
      err := SdSendOpCond();
    }

    /** The part of mmc_init before mmc_startup; stop tells that mmc_init gives up in it. */
    method PowerUp() returns (stop: bool, err: int)
      requires Valid()
      modifies `pos, `card, `log, `history, `now, `version, `rca, `highCapacity
      ensures Valid()
      ensures now.bare == old(now.bare) && card.kind == old(card).kind
      ensures stop ==> err != 0
      ensures tape(old(pos)).err != 0 ==> stop && now.clean == old(now.clean)
      ensures tape(old(pos)).err == 0 ==> pos >= old(pos) + 3
      ensures old(card).kind.SdCard? && tape(old(pos)).err == 0 && !stop ==>
        if SdPower(tape, old(pos) + 2, SD_TURNS) == 0 then FlagSet(AppSendOpCond) else highCapacity == old(highCapacity)
      ensures old(card).kind.SdCard? && tape(old(pos)).err == 0 ==>
        && (SdLost(old(pos)) ==> if stop then !now.clean else !card.state.Ready?)
        && (SdFound(old(pos), old(version)) ==>
              !stop && now.clean == old(now.clean) && card.state.Ready? && IsSd(version))
      ensures old(card).kind.MmcCard? && tape(old(pos)).err == 0 ==>
        && (MmcFound(old(pos)) <==> !stop && card.state.Ready?)
        && (MmcFound(old(pos)) ==> version == MmcUnknown && FlagSet(MmcSendOpCond(false)))
    {
      err := SendGoIdle();
      if err != 0 {
        return true, err;
      }
      err := TrySd();
      if err == TIMEOUT {
        err := MmcSendOpCondLoop();
        if err != 0 {
          return true, UNUSABLE_ERR;
        }
      }
      stop := false;
    }

    /** mmc_init from the reset on, on a card that is not initialised yet. */
    method BringUp() returns (err: int)
      requires Valid() && busWidth == 1 && !hasInit
      modifies `pos, `card, `log, `history, `now, `cardCaps, `version, `busWidth, `clock, `rca, `csd,
               `readBlLen, `writeBlLen, `capacity, `lba, `highCapacity, `hasInit
      ensures Valid() && card.kind == old(card).kind
      ensures hasInit <==> err == 0
      ensures hasInit ==> Started()
      ensures tape(old(pos)).err != 0 ==> !hasInit && now.clean == old(now.clean)
      ensures card.kind.SdCard? && tape(old(pos)).err == 0 ==>
        && (SdLost(old(pos)) ==> !hasInit && !now.clean)
        && (SdFound(old(pos), old(version)) ==>
              && (old(now.clean && !now.bare) ==> Kept())
              && (hasInit ==> IsSd(version))
              && (Served(tape, old(pos) + 2) ==> hasInit))
        && (hasInit ==> if SdPower(tape, old(pos) + 2, SD_TURNS) == 0 then FlagSet(AppSendOpCond)
                        else highCapacity == old(highCapacity))
      ensures card.kind.MmcCard? && tape(old(pos)).err == 0 ==>
        && (hasInit ==> MmcFound(old(pos)) && FlagSet(MmcSendOpCond(false)) && version == MmcVersion(csd))
        && (MmcFound(old(pos)) && Served(tape, old(pos) + 3) ==> hasInit)
    {
      var stop;
      stop, err := PowerUp();
      if !stop {
        err := Startup();
        hasInit := err == 0;
      }
    }

    /**
     mmc_init, on a slot whose driver fields are already set up. Its first command meets reply
     `pos`. Legality is that of the whole log, and so is the repeated ACMD51 that breaks it.
     */
    method Init() returns (err: int)
      requires Valid() && Settled()
      modifies `pos, `card, `log, `history, `now, `cardCaps, `version, `busWidth, `clock, `rca, `csd,
               `readBlLen, `writeBlLen, `capacity, `lba, `highCapacity, `hasInit
      ensures Valid() && Settled()
      ensures card.kind == old(card).kind
      ensures hasInit <==> err == 0
      // nothing is sent to a card already initialised
      ensures old(hasInit) ==> hasInit && log == old(log) && lba == old(lba)
      // otherwise the modes both sides offer are in use, and the geometry of an SD card is that of its CSD
      ensures !old(hasInit) && hasInit ==> Started()
      // a failed reset ends it
      ensures !old(hasInit) && tape(old(pos)).err != 0 ==> !hasInit && Legal(start, log) == Legal(start, old(log))
      // an SD card
      ensures !old(hasInit) && card.kind.SdCard? && tape(old(pos)).err == 0 ==>
        && (SdLost(old(pos)) ==> !hasInit && !Legal(start, log))
        && (SdFound(old(pos), old(version)) ==>
              && (Legal(start, old(log)) && !Bare(old(log)) ==> (Legal(start, log) <==> !Bare(log)))
              && (hasInit ==> IsSd(version))
              && (Served(tape, old(pos) + 2) ==> hasInit))
        && (hasInit ==> if SdPower(tape, old(pos) + 2, SD_TURNS) == 0 then FlagSet(AppSendOpCond)
                        else highCapacity == old(highCapacity))
      // an MMC card
      ensures !old(hasInit) && card.kind.MmcCard? && tape(old(pos)).err == 0 ==>
        && (hasInit ==> MmcFound(old(pos)) && FlagSet(MmcSendOpCond(false)) && version == MmcVersion(csd))
        && (MmcFound(old(pos)) && Served(tape, old(pos) + 3) ==> hasInit)
    {
      if hasInit {
        return 0;
      }
      Meaning();
      busWidth := 1;
      SetClock(1);
      err := BringUp();
      Meaning();
    }

    /** mmc_register: the chunk limit of the block stack is never zero. */
    method Register() returns (err: int)
      requires Valid() && Settled()
      modifies this
      ensures Valid() && Settled()
      ensures bMax > 0 && (old(bMax) > 0 ==> bMax == old(bMax))
      ensures err == 0 <==> hasInit
    {
      if bMax == 0 {
        bMax := 65535;
      }
      err := Init();
    }

    // ---------- the log ----------

    /** The record says of the log what the definitions over the log say. */
    lemma Meaning()
      requires Valid()
      ensures card == Replayed(start, log) && now.clean == Legal(start, log) && now.bare == Bare(log) && Introduced(log)
    {
      RecordMeans(start, history, log, now);
    }

    /**
     An SD card in use: version, bus width and clock by the last SCR it sent, and by whether its
     answers to CMD6 offer and confirm high speed.
     */
    lemma SdModes() returns (scr: nat)
      requires Valid() && Started() && IsSd(version)
      ensures scr < |log| && log[scr].0 == AppSendScr && forall j :: scr < j < |log| ==> log[j].0 != AppSendScr
      ensures var spec, lines := Field(Number(log[scr].1.data, 2), 59, 56), Field(Number(log[scr].1.data, 2), 50, 50);
        var fast := HS in hostCaps && (spec == 1 || spec == 2) && SdFast(now);
        && (version == Sd2 <==> spec == 2) && (version == Sd1_10 <==> spec == 1)
        && (version == Sd1_0 <==> spec != 1 && spec != 2)
        && (HS in cardCaps <==> fast) && clock == Limited(if fast then 50_000_000 else 25_000_000)
        && busWidth == (if Bit4 in hostCaps && lines == 1 then 4 else 1)
    {
      scr := LastAnswer(AppSendScr);
    }

    /** An answer the driver goes by is the reply to the last sending of the command. */
    lemma LastAnswer(cmd: Command) returns (i: nat)
      requires Valid() && cmd in now.answers
      ensures i < |log| && log[i] == (cmd, now.answers[cmd]) && forall j :: i < j < |log| ==> log[j].0 != cmd
    {
      i := AnswerIsLast(start, history, log, now, cmd);
    }

    /** The answer the driver takes the capacity mode from is the reply to the last power-up command. */
    lemma LastPower() returns (i: nat)
      requires Valid() && now.power.Some?
      ensures i < |log| && log[i] == now.power.value && Powers(log[i].0)
      ensures forall j :: i < j < |log| ==> !Powers(log[j].0)
    {
      i := PowerIsLast(start, history, log, now);
    }

    /** The extended CSD it takes a capacity from is the first it asked for since CMD7. */
    lemma FirstExt() returns (k: int, i: nat)
      requires Valid() && now.firstExt.Some?
      ensures -1 <= k < i < |log| && (k >= 0 ==> log[k].0.SelectCard?) && log[i] == (SendExtCsd, now.firstExt.value)
      ensures Unsized(log[..i], k + 1) && forall j :: i < j < |log| ==> !log[j].0.SelectCard?
    {
      k, i := ExtIsFirst(start, history, log, now);
    }

    /** The identification commands, in order. */
    ghost predicate InOrder()
      reads `log
    {
      exists power: nat, cid: nat, addr: nat, select: nat :: power < cid < addr < select < |log| &&
        Enters(log[power].0, Ready) && log[cid].0.AllSendCid? && log[addr].0.RelativeAddr? && log[select].0.SelectCard?
    }

    /** Whatever the driver did to a fresh card, an initialised one was sent its identification commands in order. */
    lemma InitialisedInOrder()
      requires Valid() && Settled() && hasInit && start.state.Idle?
      ensures InOrder()
    {
      Meaning();
      var power, cid, addr, select := Identified(start, log);
    }

    /**
     Without a repeated ACMD51 no ACMD51 is bare, and every application command the driver sent
     directly follows a CMD55. So an SD card whose power-up succeeded took every command.
     */
    lemma WithoutRetry()
      requires Valid() && NoRetry(log)
      ensures !Bare(log)
      ensures forall i :: 0 < i < |log| && IsAcmd(log[i].0) ==> log[i - 1].0.AppCmd?
    {
      Meaning();
      forall i | 0 < i < |log| && IsAcmd(log[i].0)
        ensures log[i - 1].0.AppCmd?
      {
        assert IntroducedAt(log, i);
      }
    }

    /** Where every command was taken, nothing the card saw came between an application command and its CMD55. */
    lemma CleanIntroduced(i: nat) returns (k: nat)
      requires Valid() && Legal(start, log) && !start.app && i < |log| && IsAcmd(log[i].0)
      ensures k < i && log[k].0.AppCmd? && forall j :: k < j < i ==> Unseen(log[j].1)
    {
      Meaning();
      k := AcmdAfterCmd55(start, log, i);
    }
  }
}
