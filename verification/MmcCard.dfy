/**
 An SD or MMC card as the driver's commands meet it: the state diagrams of sections 4.2 and 4.8
 of the SD Physical Layer Simplified Specification (and their MMC counterparts), and runs of
 commands against it.
 */
module MmcCard {
  import opened Bits
  import opened Csd

  // ---------- the card ----------

  datatype Kind = SdCard | MmcCard

  datatype State = Idle | Ready | Ident | Stby | Tran

  /** app: the last command the card took was CMD55, so it expects an application command. */
  datatype Card = Card(kind: Kind, state: State, app: bool, rca: Word)

  /** The commands mmc.c sends, by the names of mmc.h; rca is the address in the argument. */
  datatype Command =
    | GoIdle                   // CMD0
    | MmcSendOpCond(query: bool)  // CMD1; with a zero argument it only asks for the voltage range
    | AllSendCid               // CMD2
    | RelativeAddr(rca: Word)  // CMD3: an SD card publishes an address, an MMC card takes one
    | SwitchFunc(change: bool)    // CMD6 of SD cards: check, or switch
    | Switch(index: nat, value: nat)  // CMD6 of MMC cards: a byte of the extended CSD
    | SelectCard(rca: Word)    // CMD7
    | SendIfCond               // CMD8 of SD cards
    | SendExtCsd               // CMD8 of MMC cards
    | SendCsd(rca: Word)       // CMD9
    | SendStatus(rca: Word)    // CMD13
    | AppCmd(rca: Word)        // CMD55
    | AppSetBusWidth           // ACMD6
    | AppSendOpCond            // ACMD41
    | AppSendScr               // ACMD51

  /** What the environment does with one command: the driver's result, whether the card saw it, the answer. */
  datatype Reply = Reply(err: int, seen: bool, resp: Csd, data: nat -> Word)

  /** The commands a card takes in its state. */
  predicate Accepts(c: Card, cmd: Command) {
    match cmd
    case GoIdle => true
    case AllSendCid => c.state.Ready?
    case SendCsd(a) => c.state.Stby? && a == c.rca
    case SendStatus(a) => (c.state.Stby? || c.state.Tran?) && a == c.rca
    case SelectCard(a) => c.state.Stby? && a == c.rca
    // SD cards
    case SendIfCond => c.kind.SdCard? && c.state.Idle?
    case AppCmd(a) => c.kind.SdCard? && (c.state.Idle? || c.state.Stby? || c.state.Tran?) && a == c.rca
    case AppSendOpCond => c.kind.SdCard? && c.app && c.state.Idle?
    case AppSendScr => c.kind.SdCard? && c.app && c.state.Tran?
    case AppSetBusWidth => c.kind.SdCard? && c.app && c.state.Tran?
    case SwitchFunc(_) => c.kind.SdCard? && c.state.Tran?
    // MMC cards
    case MmcSendOpCond(_) => c.kind.MmcCard? && c.state.Idle?
    case SendExtCsd => c.kind.MmcCard? && c.state.Tran?
    case Switch(_, _) => c.kind.MmcCard? && c.state.Tran?
    // both, with different meanings
    case RelativeAddr(_) => c.state.Ident? || (c.kind.SdCard? && c.state.Stby?)
  }

  /** Bit 31 of the operating-conditions answer: power-up finished. */
  predicate Busy(r: Word) { r >= 0x8000_0000 }

  /** The card after a command it takes, given the answer it sends. */
  function After(c: Card, cmd: Command, resp: Word): Card {
    match cmd
    case GoIdle => Card(c.kind, Idle, false, 0)
    case AppCmd(_) => c.(app := true)
    case AppSendOpCond => c.(app := false, state := if Busy(resp) then Ready else Idle)
    case MmcSendOpCond(query) => c.(app := false, state := if Busy(resp) && !query then Ready else Idle)
    case AllSendCid => c.(app := false, state := Ident)
    case RelativeAddr(a) => c.(app := false, state := Stby, rca := if c.kind.SdCard? then resp / 0x1_0000 else a)
    case SelectCard(_) => c.(app := false, state := Tran)
    case _ => c.(app := false)
  }

  /**
   One command: a card that does not take it ignores it and does not answer, which the driver
   reports as a failure; a failure may also hide a command the card did take, or never saw.
   */
  function Deliver(c: Card, cmd: Command, r: Reply): (Card, int) {
    if Accepts(c, cmd) then
      (if r.err == 0 || r.seen then After(c, cmd, r.resp.c0) else c, r.err)
    else
      (if r.seen then c.(app := false) else c, if r.err == 0 then -1 else r.err)
  }

  /** Nothing but the expectation of an application command may differ. */
  predicate Same(c: Card, d: Card) { c.kind == d.kind && c.state == d.state && c.rca == d.rca }

  // ---------- runs ----------

  /** The card after a sequence of commands. */
  function Replayed(c: Card, log: seq<(Command, Reply)>): Card {
    if log == [] then c else
      var last := |log| - 1;
      Deliver(Replayed(c, log[..last]), log[last].0, log[last].1).0
  }

  /** Every command reached the card in a state that takes it. */
  predicate Legal(c: Card, log: seq<(Command, Reply)>) {
    log == [] ||
    var last := |log| - 1;
    Legal(c, log[..last]) && Accepts(Replayed(c, log[..last]), log[last].0)
  }

  predicate IsAcmd(cmd: Command) { cmd.AppSetBusWidth? || cmd.AppSendOpCond? || cmd.AppSendScr? }

  /** What may directly precede an application command: CMD55, or the same ACMD51 when it is repeated. */
  predicate Introduces(before: Command, acmd: Command) {
    before.AppCmd? || (before.AppSendScr? && acmd.AppSendScr?)
  }

  predicate IntroducedAt(log: seq<(Command, Reply)>, i: nat)
    requires i < |log|
  {
    IsAcmd(log[i].0) ==> i > 0 && Introduces(log[i - 1].0, log[i].0)
  }

  predicate Introduced(log: seq<(Command, Reply)>) {
    forall i :: 0 <= i < |log| ==> IntroducedAt(log, i)
  }

  /** ACMD51 sent again, without CMD55, to a card that has seen the one before it. */
  predicate BareAt(log: seq<(Command, Reply)>, i: nat)
    requires i < |log|
  {
    i > 0 && log[i].0.AppSendScr? && log[i - 1].0.AppSendScr? && log[i - 1].1.seen
  }

  predicate Bare(log: seq<(Command, Reply)>) {
    exists i :: 0 <= i < |log| && BareAt(log, i)
  }

  // ---------- runs, record by record ----------

  datatype Option<T> = None | Some(value: T)

  /** The bytes of the extended CSD that set the bus timing and the bus width. */
  const TIMING: nat := 185
  const WIDTH: nat := 183

  /**
   What a run has come to: the card, whether it took every command, whether an ACMD51 was bare,
   the last command, the last reply to every command, the extended CSD given last before the
   timing was switched, the first one given since CMD7, and the last power-up command.
   */
  datatype Record = Record(card: Card, clean: bool, bare: bool, last: Option<(Command, Reply)>,
                           answers: map<Command, Reply>, extCsd: Option<Reply>, firstExt: Option<Reply>,
                           power: Option<(Command, Reply)>)
  {
    function Answer(cmd: Command): Option<Reply> { if cmd in answers then Some(answers[cmd]) else None }

    /** A further ACMD51 would repeat one the card has seen. */
    predicate RepeatsSeen() { last.Some? && last.value.0.AppSendScr? && last.value.1.seen }

    /** The application command may be sent: CMD55 was last, or the same ACMD51. */
    predicate Allows(cmd: Command) { IsAcmd(cmd) ==> last.Some? && Introduces(last.value.0, cmd) }
  }

  function Blank(c: Card): Record { Record(c, true, false, None, map[], None, None, None) }

  /** The commands that power a card up, and whose answer says whether it addresses by blocks. */
  predicate Powers(cmd: Command) { cmd.AppSendOpCond? || (cmd.MmcSendOpCond? && !cmd.query) }

  /** One command more. */
  function Advance(h: Record, cmd: Command, r: Reply): Record {
    Record(Deliver(h.card, cmd, r).0, h.clean && Accepts(h.card, cmd), h.bare || (cmd.AppSendScr? && h.RepeatsSeen()),
           Some((cmd, r)), h.answers[cmd := r], if cmd == Switch(TIMING, 1) then h.Answer(SendExtCsd) else h.extCsd,
           if cmd.SelectCard? then None else if cmd.SendExtCsd? && h.firstExt.None? then Some(r) else h.firstExt,
           if Powers(cmd) then Some((cmd, r)) else h.power)
  }

  ghost predicate StepAt(history: seq<Record>, log: seq<(Command, Reply)>, i: nat)
    requires i < |log| && i + 1 < |history|
  {
    history[i + 1] == Advance(history[i], log[i].0, log[i].1) && history[i].Allows(log[i].0)
  }

  /** history[i] is the record before command i, from a card c, and the last one is h. */
  ghost predicate Records(c: Card, history: seq<Record>, log: seq<(Command, Reply)>, h: Record) {
    && |history| == |log| + 1 && history[0] == Blank(c) && history[|log|] == h
    && forall i :: 0 <= i < |log| ==> StepAt(history, log, i)
  }

  lemma RecordsNext(c: Card, history: seq<Record>, log: seq<(Command, Reply)>, h: Record, cmd: Command, r: Reply)
    requires Records(c, history, log, h) && h.Allows(cmd)
    ensures Records(c, history + [Advance(h, cmd, r)], log + [(cmd, r)], Advance(h, cmd, r))
  {
    var more, longer := history + [Advance(h, cmd, r)], log + [(cmd, r)];
    forall i | 0 <= i < |longer|
      ensures StepAt(more, longer, i)
    {
      if i < |log| {
        assert StepAt(history, log, i);
      }
    }
  }

  lemma RecordsBefore(c: Card, history: seq<Record>, log: seq<(Command, Reply)>, h: Record)
    requires Records(c, history, log, h) && log != []
    ensures var n := |log| - 1; Records(c, history[..n + 1], log[..n], history[n])
  {
    var n := |log| - 1;
    var before, short := history[..n + 1], log[..n];
    forall i | 0 <= i < n
      ensures StepAt(before, short, i)
    {
      assert StepAt(history, log, i);
    }
  }

  /** A record says of its log what the definitions over the log say. */
  lemma {:induction false} RecordMeans(c: Card, history: seq<Record>, log: seq<(Command, Reply)>, h: Record)
    requires Records(c, history, log, h)
    ensures h.card == Replayed(c, log) && h.clean == Legal(c, log) && h.bare == Bare(log) && Introduced(log)
    ensures h.last == if log == [] then None else Some(log[|log| - 1])
    decreases |log|
  {
    if log != [] {
      var n := |log| - 1;
      var prior, cmd, r := log[..n], log[n].0, log[n].1;
      RecordsBefore(c, history, log, h);
      RecordMeans(c, history[..n + 1], prior, history[n]);
      assert StepAt(history, log, n);
      assert log == prior + [(cmd, r)];
      LogNext(prior, cmd, r);
    }
  }

  /** The answer a record keeps is the reply to the last sending of the command. */
  lemma {:induction false} AnswerIsLast(c: Card, history: seq<Record>, log: seq<(Command, Reply)>, h: Record,
                                        cmd: Command)
    returns (i: nat)
    requires Records(c, history, log, h) && cmd in h.answers
    ensures i < |log| && log[i].0 == cmd && log[i].1 == h.answers[cmd]
    ensures forall j :: i < j < |log| ==> log[j].0 != cmd
    decreases |log|
  {
    var n := |log| - 1;
    assert log != [];
    assert StepAt(history, log, n);
    i := n;
    if log[n].0 != cmd {
      RecordsBefore(c, history, log, h);
      i := AnswerIsLast(c, history[..n + 1], log[..n], history[n], cmd);
    }
  }

  /** The power-up command a record keeps is the last in the log. */
  lemma {:induction false} PowerIsLast(c: Card, history: seq<Record>, log: seq<(Command, Reply)>, h: Record)
    returns (i: nat)
    requires Records(c, history, log, h) && h.power.Some?
    ensures i < |log| && log[i] == h.power.value && Powers(log[i].0)
    ensures forall j :: i < j < |log| ==> !Powers(log[j].0)
    decreases |log|
  {
    var n := |log| - 1;
    assert log != [];
    assert StepAt(history, log, n);
    i := n;
    if !Powers(log[n].0) {
      RecordsBefore(c, history, log, h);
      i := PowerIsLast(c, history[..n + 1], log[..n], history[n]);
    }
  }

  /** Neither CMD7 nor a request for the extended CSD from command `from` on. */
  predicate Unsized(log: seq<(Command, Reply)>, from: int) {
    forall j :: 0 <= j < |log| && from <= j ==> !log[j].0.SelectCard? && !log[j].0.SendExtCsd?
  }

  /** Without one, nothing asked for it since CMD7. */
  lemma {:induction false} NoExtYet(c: Card, history: seq<Record>, log: seq<(Command, Reply)>, h: Record)
    returns (k: int)
    requires Records(c, history, log, h) && h.firstExt.None?
    ensures -1 <= k < |log| && (k >= 0 ==> log[k].0.SelectCard?) && Unsized(log, k + 1)
    decreases |log|
  {
    k := |log| - 1;
    if log != [] && !log[k].0.SelectCard? {
      var n := |log| - 1;
      assert StepAt(history, log, n);
      RecordsBefore(c, history, log, h);
      k := NoExtYet(c, history[..n + 1], log[..n], history[n]);
    }
  }

  /** The extended CSD a record keeps is the first that was asked for since CMD7. */
  lemma {:induction false} ExtIsFirst(c: Card, history: seq<Record>, log: seq<(Command, Reply)>, h: Record)
    returns (k: int, i: nat)
    requires Records(c, history, log, h) && h.firstExt.Some?
    ensures -1 <= k < i < |log| && (k >= 0 ==> log[k].0.SelectCard?) && log[i] == (SendExtCsd, h.firstExt.value)
    ensures Unsized(log[..i], k + 1) && forall j :: i < j < |log| ==> !log[j].0.SelectCard?
    decreases |log|
  {
    var n := |log| - 1;
    assert log != [];
    assert StepAt(history, log, n);
    RecordsBefore(c, history, log, h);
    i := n;
    if history[n].firstExt.None? {
      k := NoExtYet(c, history[..n + 1], log[..n], history[n]);
    } else {
      k, i := ExtIsFirst(c, history[..n + 1], log[..n], history[n]);
      assert log[..n][..i] == log[..i];
    }
  }

  /** The log ends with an ACMD51 the card has seen. */
  predicate EndsSeen(log: seq<(Command, Reply)>) {
    log != [] && log[|log| - 1].0.AppSendScr? && log[|log| - 1].1.seen
  }

  /** One command more, seen by the definitions over the log. */
  lemma LogNext(log: seq<(Command, Reply)>, cmd: Command, r: Reply)
    requires IsAcmd(cmd) ==> log != [] && Introduces(log[|log| - 1].0, cmd)
    ensures var next := log + [(cmd, r)];
      && (Introduced(log) ==> Introduced(next))
      && (Bare(next) <==> Bare(log) || (cmd.AppSendScr? && EndsSeen(log)))
  {
    var next := log + [(cmd, r)];
    assert forall i :: 0 <= i < |log| ==> IntroducedAt(next, i) == IntroducedAt(log, i);
    assert forall i :: 0 <= i < |log| ==> BareAt(next, i) == BareAt(log, i);
    assert IntroducedAt(next, |log|);
    assert BareAt(next, |log|) == (cmd.AppSendScr? && EndsSeen(log));
    if Bare(log) {
      var i :| 0 <= i < |log| && BareAt(log, i);
      assert BareAt(next, i);
    }
  }

  /** No ACMD51 directly follows another. */
  predicate NoRetry(log: seq<(Command, Reply)>) {
    forall i :: 0 < i < |log| ==> !(log[i].0.AppSendScr? && log[i - 1].0.AppSendScr?)
  }

  predicate Unseen(r: Reply) { r.err != 0 && !r.seen }

  /** A card expects an application command only when CMD55 is the last command that reached it. */
  lemma {:induction false} ExpectsAfterCmd55(c: Card, log: seq<(Command, Reply)>) returns (k: nat)
    requires !c.app && Replayed(c, log).app && Legal(c, log)
    ensures k < |log| && log[k].0.AppCmd?
    ensures forall j :: k < j < |log| ==> Unseen(log[j].1)
    decreases |log|
  {
    k := |log| - 1;
    if !log[k].0.AppCmd? || Unseen(log[k].1) {
      k := ExpectsAfterCmd55(c, log[..k]);
    }
  }

  /** On a legal run every application command comes after a CMD55, with nothing the card saw between them. */
  lemma {:induction false} AcmdAfterCmd55(c: Card, log: seq<(Command, Reply)>, i: nat) returns (k: nat)
    requires !c.app && Legal(c, log) && i < |log| && IsAcmd(log[i].0)
    ensures k < i && log[k].0.AppCmd?
    ensures forall j :: k < j < i ==> Unseen(log[j].1)
    decreases |log|
  {
    var last := |log| - 1;
    if i == last {
      k := ExpectsAfterCmd55(c, log[..last]);
    } else {
      k := AcmdAfterCmd55(c, log[..last], i);
    }
  }

  function Rank(s: State): nat {
    match s
    case Idle => 0
    case Ready => 1
    case Ident => 2
    case Stby => 3
    case Tran => 4
  }

  /** The commands that take a card from one state to the next. */
  predicate Enters(cmd: Command, s: State) {
    match s
    case Idle => cmd.GoIdle?
    case Ready => Powers(cmd)
    case Ident => cmd.AllSendCid?
    case Stby => cmd.RelativeAddr?
    case Tran => cmd.SelectCard?
  }

  /** Whatever a host sends, a state is entered by its own command, from the state before it. */
  lemma {:induction false} Entered(c: Card, log: seq<(Command, Reply)>) returns (k: nat)
    requires c.state.Idle? && !Replayed(c, log).state.Idle?
    ensures k < |log| && Enters(log[k].0, Replayed(c, log).state)
    ensures Rank(Replayed(c, log[..k]).state) + 1 == Rank(Replayed(c, log).state)
    decreases |log|
  {
    k := |log| - 1;
    if Replayed(c, log[..k]).state == Replayed(c, log).state {
      var n := k;
      k := Entered(c, log[..n]);
      assert log[..n][..k] == log[..k];
    }
  }

  /** A card in the transfer state was sent its identification commands, in this order. */
  lemma Identified(c: Card, log: seq<(Command, Reply)>) returns (power: nat, cid: nat, rca: nat, select: nat)
    requires c.state.Idle? && Replayed(c, log).state.Tran?
    ensures power < cid < rca < select < |log|
    ensures Enters(log[power].0, Ready) && log[cid].0.AllSendCid? && log[rca].0.RelativeAddr? &&
      log[select].0.SelectCard?
  {
    select := Entered(c, log);
    rca := Entered(c, log[..select]);
    assert log[..select][..rca] == log[..rca];
    cid := Entered(c, log[..rca]);
    assert log[..rca][..cid] == log[..cid];
    power := Entered(c, log[..cid]);
  }
}
