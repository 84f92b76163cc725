/** States, timers, messages and the timing discipline of the X-MAC layer (AnyMacXmacLayer.h). */
module XmacStates {

  datatype State =
    | INIT | SLEEP | CCA | SEND_PREAMBLE | WAIT_DATA | SEND_DATA | WAIT_TX_DATA_OVER | WAIT_ACK | SEND_ACK | WAIT_ACK_TX
    | SEND_ACK2 | WAIT_ACK2_TX | SEND_PREAMBLE_TX_END | WAIT_ACK2 | SEND_DATA2 | CCA2 | CCA_LOST

  /** The messages the layer schedules for itself. */
  datatype Timer =
    | StartXmac | Wakeup | CcaTimeout | Cca2Timeout | StopPreambles | AckTimeout | DataTimeout
    | SendPreamble | PreambleTxOver | ResendData | DataTxOver | SendAck | AckTxOver | SendAck2 | Ack2TxOver

  datatype Address = Broadcast | Unspecified | Station(id: nat)

  type Unicast = a: Address | a.Station? witness Station(0)

  datatype Kind = Preamble | Data | Ack | Ack2 | Other

  /** A frame; `targets` are the stations a preamble is meant for, `count` its number in its sender's series. */
  datatype Packet = Packet(kind: Kind, src: Address, dest: Address, targets: seq<Address>, count: int)

  /**
   * `late` says whether, when the frame arrives, the data timeout is still farther
   * away than the delay drawn for an answer.
   */
  datatype Message = Fires(timer: Timer) | Arrives(packet: Packet, late: bool)

  // ----- which timers run in which state -----

  predicate Assessing(st: State) { st == CCA || st == CCA_LOST }
  predicate Strobing(st: State) { st == SEND_PREAMBLE || st == SEND_PREAMBLE_TX_END || st == WAIT_ACK2 }
  predicate AwaitingAck(st: State) { st == SEND_PREAMBLE_TX_END || st == WAIT_ACK2 || st == WAIT_ACK }

  /**
   * No state that sleeps, listens or waits is without its timer, and no timer runs
   * in a state that does not expect it.
   */
  predicate TimersFit(st: State, sched: set<Timer>) {
    && (Wakeup in sched <==> st == SLEEP)
    && (CcaTimeout in sched <==> Assessing(st))
    && (Cca2Timeout in sched <==> st == CCA2)
    && (StopPreambles in sched <==> Strobing(st))
    && (AckTimeout in sched <==> AwaitingAck(st))
    && (st == WAIT_DATA ==> DataTimeout in sched)
    && (DataTimeout in sched ==> st == WAIT_DATA || st == CCA2)
    && (StartXmac in sched <==> st == INIT)
  }

  /** Changing the schedule along with the state, one message at a time. */
  lemma Rescheduled(sched: set<Timer>)
    ensures TimersFit(WAIT_DATA, sched) ==> TimersFit(SLEEP, sched - {DataTimeout} + {Wakeup}) && Wakeup !in sched
    ensures TimersFit(WAIT_DATA, sched) ==> TimersFit(SEND_ACK, sched - {DataTimeout})
    ensures TimersFit(WAIT_DATA, sched) ==> TimersFit(CCA, sched - {DataTimeout} + {CcaTimeout}) && CcaTimeout !in sched
    ensures TimersFit(WAIT_ACK, sched) ==> TimersFit(SLEEP, sched - {AckTimeout} + {Wakeup}) && Wakeup !in sched
  {
  }

  lemma RescheduledMore(st: State, sched: set<Timer>)
    requires TimersHold(st, sched)
    ensures Assessing(st) ==> DataTimeout !in sched && TimersFit(WAIT_DATA, sched - {CcaTimeout} + {DataTimeout})
    ensures Assessing(st) ==> Cca2Timeout !in sched && TimersFit(CCA2, sched + {Cca2Timeout} - {CcaTimeout})
    ensures st == WAIT_TX_DATA_OVER ==> AckTimeout !in sched && TimersFit(WAIT_ACK, sched + {AckTimeout})
    ensures st == WAIT_TX_DATA_OVER || st == WAIT_ACK_TX ==> Wakeup !in sched && TimersFit(SLEEP, sched + {Wakeup})
    ensures st == SEND_ACK ==> TimersFit(WAIT_ACK_TX, sched)
    ensures st == CCA ==> TimersFit(CCA_LOST, sched)
    ensures st == SEND_DATA || st == SEND_DATA2 ==> TimersFit(WAIT_TX_DATA_OVER, sched)
    ensures st == SEND_PREAMBLE ==> AckTimeout !in sched && TimersFit(SEND_PREAMBLE_TX_END, sched + {AckTimeout})
  {
  }

  /** The attempt to be acknowledged is over. */
  lemma Unanswered(sched: set<Timer>)
    requires TimersFit(WAIT_ACK, sched + {AckTimeout}) && AckTimeout !in sched
    ensures StopPreambles !in sched && TimersFit(SEND_PREAMBLE, sched + {StopPreambles})
    ensures Wakeup !in sched && TimersFit(SLEEP, sched + {Wakeup})
  {
  }

  /** A message that guards nothing may enter or leave the schedule. */
  lemma Unguarded(st: State, sched: set<Timer>, t: Timer)
    requires !Guard(t)
    ensures TimersFit(st, sched + {t}) <==> TimersFit(st, sched)
    ensures Adrift(st, sched + {t}) <==> Adrift(st, sched)
  {
    assert sched + {t} + {CcaTimeout} == sched + {CcaTimeout} + {t};
  }

  /** The own series of preambles is over, with a packet to send. */
  lemma Stopped(sched: set<Timer>)
    requires TimersFit(SEND_PREAMBLE, sched + {StopPreambles}) && StopPreambles !in sched
    ensures TimersFit(SEND_DATA, sched)
  {
  }

  /** Giving up the own series of preambles. */
  lemma GivenUp(sched: set<Timer>)
    requires TimersFit(WAIT_ACK2, sched)
    ensures var rest := sched - {AckTimeout} - {StopPreambles};
            && Adrift(CCA_LOST, rest) && !TimersFit(CCA_LOST, rest) && TimersFit(SEND_ACK2, rest - {DataTimeout})
              && TimersFit(SEND_DATA2, rest)
            && DataTimeout !in rest - {CcaTimeout} && TimersFit(WAIT_DATA, rest - {CcaTimeout} + {DataTimeout})
  {
  }

  /**
   * Listening for the end of somebody else's exchange, without the timer that would
   * end it; no other guard runs either.
   */
  predicate Adrift(st: State, sched: set<Timer>) {
    st == CCA_LOST && CcaTimeout !in sched && TimersFit(CCA_LOST, sched + {CcaTimeout})
  }

  predicate TimersHold(st: State, sched: set<Timer>) { TimersFit(st, sched) || Adrift(st, sched) }

  lemma InStepOrAdrift(st: State, sched: set<Timer>)
    ensures !(TimersFit(st, sched) && Adrift(st, sched))
  {
  }

  /** What a station adrift can be brought back by: a data frame, or a preamble that names it. */
  predicate Rescues(msg: Message, address: Address) {
    msg.Arrives? && (msg.packet.kind == Data || (msg.packet.kind == Preamble && address in msg.packet.targets))
  }

  /**
   * The one case that sets a station adrift: a newer preamble addressed to one
   * other station, while waiting for an answer to one's own.
   */
  predicate Strays(st: State, msg: Message, address: Address, count: int) {
    && st == WAIT_ACK2 && msg.Arrives? && msg.packet.kind == Preamble && count < msg.packet.count
    && msg.packet.dest != Broadcast && msg.packet.dest != address
  }

  /** Whether the timer firing in the state ends the run; for the two that guard a preamble, while it is on the air. */
  predicate Premature(st: State, t: Timer) {
    st == SEND_PREAMBLE_TX_END && (t == StopPreambles || t == AckTimeout)
  }

  predicate Guard(t: Timer) {
    || t == Wakeup || t == CcaTimeout || t == Cca2Timeout || t == StopPreambles || t == AckTimeout || t == DataTimeout
    || t == StartXmac
  }

  // ----- the packet being sent -----

  /** States in which a packet of the queue is being sent. */
  predicate Sending(st: State) { Strobing(st) || st == SEND_DATA || st == SEND_DATA2 || Sent(st) }

  /** States in which its data frame is out. */
  predicate Sent(st: State) { st == WAIT_TX_DATA_OVER || st == WAIT_ACK }

  /** States in which a data frame is acknowledged or a preamble answered. */
  predicate Replying(st: State) { st == SEND_ACK || st == WAIT_ACK_TX || st == SEND_ACK2 || st == WAIT_ACK2_TX }

  /** States in which no answer to a preamble is due. */
  predicate Unasked(st: State) { Assessing(st) || Sending(st) }

  /** Why the packet at the front may leave the queue. */
  predicate Finished(st: State, msg: Message, front: Packet, useMacAcks: bool, spent: bool) {
    || (st == WAIT_TX_DATA_OVER && msg == Fires(DataTxOver) && (!useMacAcks || front.dest == Broadcast))
    || (st == WAIT_ACK && msg == Fires(AckTimeout) && spent)
    || (st == WAIT_ACK && msg.Arrives? && msg.packet.kind == Ack && msg.packet.src == front.dest)
  }

  /** The messages a state knows what to do with; any other ends the run. */
  predicate Expected(st: State, msg: Message) {
    match msg
    case Fires(t) =>
      (match st
       case INIT => t == StartXmac
       case SLEEP => t == Wakeup
       case CCA => t == CcaTimeout
       case CCA_LOST => t == CcaTimeout
       case CCA2 => t == Cca2Timeout || t == DataTimeout
       case SEND_PREAMBLE => t == SendPreamble || t == StopPreambles
       case SEND_PREAMBLE_TX_END => t == PreambleTxOver
       case WAIT_ACK2 => t == AckTimeout || t == StopPreambles
       case SEND_DATA => t == SendPreamble || t == ResendData
       case SEND_DATA2 => t == SendPreamble || t == ResendData
       case WAIT_TX_DATA_OVER => t == DataTxOver
       case WAIT_ACK => t == AckTimeout
       case WAIT_DATA => t == DataTimeout
       case SEND_ACK => t == SendAck
       case WAIT_ACK_TX => t == AckTxOver
       case SEND_ACK2 => t == SendAck2
       case WAIT_ACK2_TX => t == Ack2TxOver)
    case Arrives(p, _) =>
      p.kind != Other && (Assessing(st) || st == CCA2 || st == WAIT_DATA || st == WAIT_ACK || st == WAIT_ACK2)
  }

  /** For each message, the states that know what to do with it. */
  lemma ExpectedExactly(st: State, msg: Message)
    ensures msg.Arrives? ==>
              (Expected(st, msg) <==>
               msg.packet.kind != Other && st in {CCA, CCA_LOST, CCA2, WAIT_DATA, WAIT_ACK, WAIT_ACK2})
    ensures msg.Fires? ==>
              (Expected(st, msg) <==>
               match msg.timer
               case StartXmac => st == INIT
               case Wakeup => st == SLEEP
               case CcaTimeout => st == CCA || st == CCA_LOST
               case Cca2Timeout => st == CCA2
               case StopPreambles => st == SEND_PREAMBLE || st == WAIT_ACK2
               case AckTimeout => st == WAIT_ACK2 || st == WAIT_ACK
               case DataTimeout => st == WAIT_DATA || st == CCA2
               case SendPreamble => st == SEND_PREAMBLE || st == SEND_DATA || st == SEND_DATA2
               case PreambleTxOver => st == SEND_PREAMBLE_TX_END
               case ResendData => st == SEND_DATA || st == SEND_DATA2
               case DataTxOver => st == WAIT_TX_DATA_OVER
               case SendAck => st == SEND_ACK
               case AckTxOver => st == WAIT_ACK_TX
               case SendAck2 => st == SEND_ACK2
               case Ack2TxOver => st == WAIT_ACK2_TX)
  {
  }

  /**
   * The seven guarding timers are expected whenever they can be due, but for the two
   * that guard a preamble while it is on the air.
   */
  lemma GuardsExpected(st: State, sched: set<Timer>, t: Timer)
    requires TimersHold(st, sched) && t in sched && Guard(t)
    ensures Expected(st, Fires(t)) <==> !Premature(st, t)
  {
  }
}
