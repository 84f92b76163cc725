/** The X-MAC layer of AnyMacXmacLayer.cc, one method call an event; the times between events are left open. */
module XmacLayer {
  import opened XmacStates

  class AnyMacXmacLayer {
    const address: Unicast
    const queueLength: int
    const useMacAcks: bool
    const xmac: bool
    const maxTxAttempts: int

    var macState: State
    var prevMacState: State
    /** The layer's own messages that are scheduled. */
    var sched: set<Timer>
    /** Frames handed on from one state to the next, to be handled again at once. */
    var again: seq<Packet>
    var macQueue: seq<Packet>
    var pendingPreambles: set<Address>
    var lastDataPktSrcAddr: Address
    var lastDataPktDestAddr: Address
    var destAddressNext: Address
    var destDestAddrAck2: Address
    var txAttempts: int
    var preambleCont: nat
    /** Frames sent down to the radio, and up to the network layer. */
    var sentDown: seq<Packet>
    var sentUp: seq<Packet>
    var nbTxDataPackets: nat
    var nbTxPreambles: nat
    var nbTxAcks: nat
    var nbRxDataPackets: nat
    var nbRxPreambles: nat
    var nbMissedAcks: nat
    var nbRecvdAcks: nat
    var nbDroppedDataPackets: nat

    /**
     * All packets ever accepted, those that have left the queue, and for each data
     * frame sent which packet it carried.
     */
    ghost var accepted: seq<Packet>
    ghost var removed: seq<Packet>
    ghost var transmissions: seq<nat>
    /** The sender of the preamble this station is about to answer. */
    ghost var caller: Address

    // ----- what holds in every run -----

    /** First in, first out, never longer than allowed; nothing leaves that was not sent, and only the front is sent. */
    ghost predicate QueueFits()
      reads this`accepted, this`removed, this`macQueue, this`transmissions, this`nbTxDataPackets
    {
      && accepted == removed + macQueue
      && (|macQueue| == 0 || |macQueue| <= queueLength)
      && (forall i :: 0 <= i < |removed| ==> i in transmissions)
      && (forall t :: t in transmissions ==> t <= |removed| && t < |accepted|)
      && nbTxDataPackets == |transmissions|
    }

    /**
     * While a packet is being sent it is the front of the queue; once its data
     * frame is out, it was sent and its destination is known.
     */
    ghost predicate FrontFits()
      reads this`macState, this`macQueue, this`lastDataPktDestAddr, this`removed, this`transmissions
    {
      && (Sending(macState) ==> macQueue != [])
      && (Sent(macState) ==> macQueue != [] && lastDataPktDestAddr == macQueue[0].dest && |removed| in transmissions)
      && (macState == WAIT_ACK ==> lastDataPktDestAddr != Broadcast)
    }

    /** An acknowledgement about to be sent is for the frame delivered last, which was meant for this station. */
    ghost predicate AckFits()
      reads this`macState, this`sentUp, this`lastDataPktSrcAddr
    {
      macState == SEND_ACK ==>
        sentUp != [] && sentUp[|sentUp| - 1].dest == address && sentUp[|sentUp| - 1].src == lastDataPktSrcAddr
    }

    /** Whom an answer goes to: the caller if this station competed for answering, nobody in particular otherwise. */
    ghost predicate AnswerFits()
      reads this`macState, this`prevMacState, this`destDestAddrAck2, this`caller
    {
      && (Unasked(macState) ==> destDestAddrAck2 == Unspecified)
      && (macState == CCA2 ==> destDestAddrAck2 == caller)
      && (macState == SEND_ACK2 ==>
           && (prevMacState == CCA2 || (prevMacState == CCA && xmac) || prevMacState == WAIT_ACK2)
           && destDestAddrAck2 == if prevMacState == CCA2 then caller else Unspecified)
    }

    /** What holds in every run, for every frame and every order of events. */
    ghost predicate Valid()
      reads this
    {
      QueueFits() && FrontFits() && AckFits() && AnswerFits() && TimersHold(macState, sched)
    }

    /** The same with the timers in step, that is not adrift. */
    ghost predicate InStep()
      reads this
    {
      QueueFits() && FrontFits() && AckFits() && AnswerFits() && TimersFit(macState, sched)
    }

    /** Adrift before a frame that changes nothing about it. */
    ghost predicate StaysAdrift(msg: Message)
      reads this`macState, this`sched
    {
      msg.Arrives? && Adrift(macState, sched) && !Rescues(msg, address)
    }

    ghost function Control(): (State, State, Address, int)
      reads this`macState, this`prevMacState, this`destDestAddrAck2, this`txAttempts
    {
      (macState, prevMacState, destDestAddrAck2, txAttempts)
    }

    /**
     * The state after an expected message, and with it the state before, the
     * station to answer and the count of attempts.
     */
    ghost function Next(msg: Message): (State, State, Address, int)
      reads this`macState, this`prevMacState, this`destDestAddrAck2, this`txAttempts, this`macQueue,
            this`lastDataPktDestAddr, this`pendingPreambles, this`preambleCont
    {
      var here := Control();
      match macState
      case INIT => Move(SLEEP)
      case SLEEP => (CCA, SLEEP, Unspecified, txAttempts)
      case CCA =>
        if msg.Fires? then Move(if macQueue == [] then SLEEP else if prevMacState != WAIT_DATA then SEND_PREAMBLE
          else CCA)
        else
          (match msg.packet.kind
           case Preamble =>
             if xmac then Move(if InList(msg.packet) then SEND_ACK2 else SLEEP)
             else if InList(msg.packet) then (CCA2, CCA, msg.packet.src, txAttempts)
             else Move(CCA_LOST)
           case Data => Move(WAIT_DATA)
           case Ack => here
           case _ => Move(CCA_LOST))
      case CCA_LOST =>
        if msg.Fires? then Move(SLEEP)
        else if msg.packet.kind == Preamble && InList(msg.packet) then (CCA2, CCA_LOST, msg.packet.src, txAttempts)
        else if msg.packet.kind == Data then Move(WAIT_DATA)
        else here
      case CCA2 =>
        if msg.Fires? then Move(if msg.timer == Cca2Timeout then SEND_ACK2 else SLEEP)
        else if msg.packet.kind == Ack2 && msg.packet.dest == destDestAddrAck2 then Move(SLEEP)
        else if msg.packet.kind == Data then Move(WAIT_DATA)
        else here
      case SEND_PREAMBLE => if msg == Fires(SendPreamble) then Move(SEND_PREAMBLE_TX_END)
        else (SEND_DATA, SEND_PREAMBLE, destDestAddrAck2, 1)
      case SEND_PREAMBLE_TX_END => Move(WAIT_ACK2)
      case WAIT_ACK2 =>
        if msg.Fires? then (if msg.timer == AckTimeout then Move(SEND_PREAMBLE)
          else (SEND_DATA, WAIT_ACK2, destDestAddrAck2, 1))
        else if msg.packet.kind == Preamble && preambleCont < msg.packet.count then
          Move(if msg.packet.dest == Broadcast then WAIT_DATA else if msg.packet.dest == address then SEND_ACK2
            else CCA_LOST)
        else if msg.packet.kind == Ack2 && msg.packet.dest == address then Move(SEND_DATA2)
        else here
      case SEND_DATA => Move(WAIT_TX_DATA_OVER)
      case SEND_DATA2 => Move(WAIT_TX_DATA_OVER)
      case WAIT_TX_DATA_OVER => Move(if useMacAcks && lastDataPktDestAddr != Broadcast then WAIT_ACK else SLEEP)
      case WAIT_ACK =>
        if msg.Fires? then (if txAttempts < maxTxAttempts
          then (SEND_PREAMBLE, WAIT_ACK, destDestAddrAck2, txAttempts + 1) else Move(SLEEP))
        else if msg.packet.kind == Ack && msg.packet.src == lastDataPktDestAddr then Move(SLEEP)
        else here
      case WAIT_DATA =>
        if msg.Fires? then Move(SLEEP)
        else if msg.packet.kind == Preamble && InList(msg.packet) && msg.late
          then (CCA2, WAIT_DATA, msg.packet.src, txAttempts)
        else if msg.packet.kind == Data then
          (if useMacAcks && msg.packet.dest == address then Move(SEND_ACK)
           else if msg.packet.dest != Broadcast && pendingPreambles - {msg.packet.src} == {} then Move(SLEEP)
           else (CCA, WAIT_DATA, Unspecified, txAttempts))
        else here
      case SEND_ACK => Move(WAIT_ACK_TX)
      case WAIT_ACK_TX => Move(SLEEP)
      case SEND_ACK2 => Move(WAIT_ACK2_TX)
      case WAIT_ACK2_TX => Move(WAIT_DATA)
    }

    ghost function Move(next: State): (State, State, Address, int)
      reads this`macState, this`destDestAddrAck2, this`txAttempts
    {
      (next, macState, destDestAddrAck2, txAttempts)
    }

    /** The frames that go down when the message is handled. */
    ghost function Down(msg: Message): seq<Packet>
      reads this`macState, this`macQueue, this`preambleCont, this`lastDataPktSrcAddr, this`destDestAddrAck2
    {
      if msg.Arrives? then []
      else
        match macState
        case SEND_PREAMBLE => if msg.timer == SendPreamble && macQueue != []
          then [Packet(Preamble, address, Broadcast, macQueue[0].targets, preambleCont)] else []
        case SEND_DATA => if macQueue != [] then [macQueue[0].(kind := Data)] else []
        case SEND_DATA2 => if macQueue != [] then [macQueue[0].(kind := Data)] else []
        case SEND_ACK => [Packet(Ack, address, lastDataPktSrcAddr, [], 0)]
        case SEND_ACK2 => [Packet(Ack2, address, destDestAddrAck2, [], 0)]
        case _ => []
    }

    /** The frames that go up: data for this station or for all, while waiting for data. */
    ghost function Up(msg: Message): seq<Packet>
      reads this`macState
    {
      if macState == WAIT_DATA && msg.Arrives? && msg.packet.kind == Data
        && (msg.packet.dest == address || msg.packet.dest == Broadcast) then [msg.packet] else []
    }

    /** The frames kept for handling again: data that came while still assessing the channel. */
    ghost function Repeated(msg: Message): seq<Packet>
      reads this`macState
    {
      if (Assessing(macState) || macState == CCA2) && msg.Arrives? && msg.packet.kind == Data then [msg.packet] else []
    }

    ghost predicate Moved(down: seq<Packet>, up: seq<Packet>, kept: seq<Packet>, sent: seq<Packet>,
        delivered: seq<Packet>, repeated: seq<Packet>)
      reads this`sentDown, this`sentUp, this`again
    {
      && sentDown == (if sent == [] then down else down + sent)
      && sentUp == (if delivered == [] then up else up + delivered)
      && again == (if repeated == [] then kept else kept + repeated)
    }

    constructor (address: Unicast, queueLength: int, useMacAcks: bool, xmac: bool, maxTxAttempts: int)
      ensures Valid() && InStep() && macState == INIT && sched == {StartXmac} && again == [] && macQueue == []
      ensures accepted == [] && removed == []
    {
      this.address, this.queueLength, this.useMacAcks, this.xmac, this.maxTxAttempts := address, queueLength,
        useMacAcks, xmac, maxTxAttempts;
      macState, prevMacState, sched, again, macQueue, pendingPreambles := INIT, INIT, {StartXmac}, [], [], {};
      lastDataPktSrcAddr, lastDataPktDestAddr, destAddressNext, destDestAddrAck2 := Broadcast, Broadcast, Unspecified,
        Unspecified;
      txAttempts, preambleCont, sentDown, sentUp := 0, 0, [], [];
      nbTxDataPackets, nbTxPreambles, nbTxAcks, nbRxDataPackets, nbRxPreambles := 0, 0, 0, 0, 0;
      nbMissedAcks, nbRecvdAcks, nbDroppedDataPackets := 0, 0, 0;
      accepted, removed, transmissions, caller := [], [], [], Unspecified;
    }

    // ----- small steps -----

    /** scheduleAt: a message cannot be scheduled while it is. */
    method Schedule(t: Timer)
      requires t !in sched
      modifies this`sched
      ensures sched == old(sched) + {t}
    {
      sched := sched + {t};
    }

    method Cancel(t: Timer)
      modifies this`sched
      ensures sched == old(sched) - {t}
    {
      sched := sched - {t};
    }

    method Become(st: State)
      modifies this`macState, this`prevMacState
      ensures macState == st && prevMacState == old(macState)
    {
      macState, prevMacState := st, macState;
    }

    function InList(p: Packet): bool { address in p.targets }

    /** The front of the queue leaves it. */
    method PopFront()
      requires QueueFits() && macQueue != [] && |removed| in transmissions
      modifies this`macQueue, this`preambleCont, this`removed
      ensures QueueFits() && accepted == old(accepted)
      ensures macQueue == old(macQueue)[1..] && removed == old(removed) + [old(macQueue)[0]] && preambleCont == 0
    {
      removed := removed + [macQueue[0]];
      macQueue := macQueue[1..];
      preambleCont := 0;
    }

    /** A copy of the front of the queue goes down as a data frame. */
    method SendDataPacket()
      requires macQueue != []
      requires QueueFits()
      modifies this`nbTxDataPackets, this`lastDataPktDestAddr, this`sentDown, this`transmissions
      ensures QueueFits() && lastDataPktDestAddr == macQueue[0].dest
              && transmissions == old(transmissions) + [|removed|]
      ensures sentDown == old(sentDown) + [macQueue[0].(kind := Data)] && nbTxDataPackets == old(nbTxDataPackets) + 1
    {
      nbTxDataPackets := nbTxDataPackets + 1;
      lastDataPktDestAddr := macQueue[0].dest;
      sentDown := sentDown + [macQueue[0].(kind := Data)];
      transmissions := transmissions + [|removed|];
    }

    // ----- events -----

    /** The state before a message: its timer, if it is one, has just left the schedule. */
    ghost predicate Due(msg: Message)
      reads this
    {
      && QueueFits() && FrontFits() && AckFits() && AnswerFits()
      && match msg
         case Fires(t) => t !in sched && TimersHold(macState, sched + {t})
         case Arrives(_, _) => TimersHold(macState, sched)
    }

    method WhenInit(msg: Message) returns (ok: bool)
      requires macState == INIT && Due(msg)
      modifies this`macState, this`prevMacState, this`sched
      ensures ok ==> InStep()
      ensures (ok <==> Expected(old(macState), msg)) && (ok ==> Control() == old(Next(msg)))
    {
      hide QueueFits;
      ok := true;
      if msg == Fires(StartXmac) {
        Become(SLEEP);
        Schedule(Wakeup);
        return;
      }
      ok := false;
    }

    /** The queue and what is known of its packets. */
    ghost function Ghosts(): (seq<Packet>, seq<Packet>, seq<Packet>, seq<nat>)
      reads this
    {
      (macQueue, accepted, removed, transmissions)
    }

    ghost predicate Kept(was: (seq<Packet>, seq<Packet>, seq<Packet>, seq<nat>))
      reads this
    {
      Ghosts() == was
    }

    method WhenSleep(msg: Message) returns (ok: bool)
      requires macState == SLEEP && Due(msg)
      modifies this`macState, this`prevMacState, this`sched, this`pendingPreambles, this`destAddressNext,
               this`destDestAddrAck2
      ensures ok ==> InStep() && pendingPreambles == {} && destAddressNext == Unspecified
      ensures (ok <==> Expected(old(macState), msg)) && (ok ==> Control() == old(Next(msg)))
    {
      hide QueueFits, FrontFits, AckFits, AnswerFits;
      ok := true;
      if msg == Fires(Wakeup) {
        Schedule(CcaTimeout);
        Become(CCA);
        pendingPreambles := {};
        destAddressNext, destDestAddrAck2 := Unspecified, Unspecified;
        Idle();
        return;
      }
      ok := false;
    }

    method WhenCca(msg: Message) returns (ok: bool)
      requires macState == CCA && Due(msg)
      modifies this`macState, this`prevMacState, this`sched, this`nbRxPreambles, this`nbRxDataPackets,
               this`destDestAddrAck2, this`caller, this`again
      ensures ok ==> again == if old(Repeated(msg)) == [] then old(again) else old(again) + old(Repeated(msg))
      ensures ok ==> InStep()
      ensures ok ==> CallerNoted(old(macState), old(caller), msg)
      ensures (ok <==> Expected(old(macState), msg)) && (ok ==> Control() == old(Next(msg)))
    {
      hide QueueFits, FrontFits, AckFits, AnswerFits;
      ok := true;
      if msg == Fires(CcaTimeout) {
        CcaTimedOut();
        return;
      }
      if msg.Arrives? {
        var p := msg.packet;
        match p.kind {
          case Preamble =>
            CcaPreamble(p);
            return;
          case Data =>
            DataAtOnce(p);
            return;
          case Ack =>
            return;
          case Ack2 =>
            Lose();
            return;
          case Other =>
        }
      }
      ok := false;
    }

    method CcaTimedOut()
      requires macState == CCA && Due(Fires(CcaTimeout))
      modifies this`macState, this`prevMacState, this`sched
      ensures InStep() && prevMacState == CCA
      ensures macState == if macQueue == [] then SLEEP else if old(prevMacState) != WAIT_DATA then SEND_PREAMBLE
              else CCA
    {
      hide QueueFits, AnswerFits;
      Uncalled();
      if macQueue == [] {
        Schedule(Wakeup);
        Become(SLEEP);
      } else if prevMacState != WAIT_DATA {
        Become(SEND_PREAMBLE);
        Schedule(StopPreambles);
      } else {
        prevMacState := CCA;
        Schedule(CcaTimeout);
      }
      Idle();
    }

    method CcaPreamble(p: Packet)
      requires macState == CCA && InStep()
      modifies this`macState, this`prevMacState, this`sched, this`nbRxPreambles, this`destDestAddrAck2, this`caller
      ensures InStep() && caller == (if InList(p) then p.src else old(caller)) && prevMacState == CCA
              && destDestAddrAck2 == if macState == CCA2 then p.src else old(destDestAddrAck2)
      ensures macState == if xmac then (if InList(p) then SEND_ACK2 else SLEEP) else if InList(p) then CCA2
              else CCA_LOST
    {
      hide QueueFits, FrontFits, TimersFit;
      nbRxPreambles := nbRxPreambles + 1;
      if xmac { AnswerOrSleep(p); } else { CompeteOrListen(p); }
    }

    method AnswerOrSleep(p: Packet)
      requires xmac && macState == CCA && InStep()
      modifies this`macState, this`prevMacState, this`sched, this`caller
      ensures InStep() && caller == (if InList(p) then p.src else old(caller)) && prevMacState == CCA
      ensures macState == if InList(p) then SEND_ACK2 else SLEEP
    {
      hide QueueFits;
      Cancel(CcaTimeout);
      if InList(p) {
        Become(SEND_ACK2);
        caller := p.src;
      } else {
        Schedule(Wakeup);
        Become(SLEEP);
      }
    }

    /** A station meant by a preamble competes for answering it, another one listens on. */
    method CompeteOrListen(p: Packet)
      requires Assessing(macState) && Valid()
      modifies this`macState, this`prevMacState, this`sched, this`destDestAddrAck2, this`caller
      ensures Valid() && (Adrift(macState, sched) <==> old(Adrift(macState, sched)) && !InList(p))
      ensures macState == if InList(p) then CCA2 else CCA_LOST
      ensures destDestAddrAck2 == if InList(p) then p.src else old(destDestAddrAck2)
      ensures caller == if InList(p) then p.src else old(caller)
      ensures prevMacState == if macState != old(macState) then old(macState) else old(prevMacState)
    {
      hide QueueFits, FrontFits, AckFits, AnswerFits, TimersFit;
      if InList(p) {
        Compete(p);
      } else if macState == CCA {
        Lose();
      }
    }

    method Compete(p: Packet)
      requires Assessing(macState) && Valid()
      modifies this`macState, this`prevMacState, this`sched, this`destDestAddrAck2, this`caller
      ensures InStep() && macState == CCA2 && prevMacState == old(macState) && destDestAddrAck2 == p.src == caller
    {
      hide QueueFits, FrontFits, AckFits, AnswerFits, TimersFit;
      RescheduledMore(macState, sched);
      Become(CCA2);
      Schedule(Cca2Timeout);
      destDestAddrAck2 := p.src;
      caller := p.src;
      Cancel(CcaTimeout);
      Idle();
    }

    /** The exchange that begins is not for this station. */
    method Lose()
      requires macState == CCA && InStep()
      modifies this`macState, this`prevMacState
      ensures InStep() && macState == CCA_LOST && prevMacState == CCA && !Adrift(macState, sched)
    {
      hide QueueFits, FrontFits, AckFits, AnswerFits, TimersFit;
      Uncalled();
      RescheduledMore(macState, sched);
      Become(CCA_LOST);
      InStepOrAdrift(CCA_LOST, sched);
      Idle();
    }

    /** A data frame without the preamble before it: it is kept and handled again, while waiting for data. */
    method DataAtOnce(p: Packet)
      requires Assessing(macState) && Valid()
      modifies this`macState, this`prevMacState, this`sched, this`nbRxDataPackets, this`again
      ensures InStep() && macState == WAIT_DATA && prevMacState == old(macState) && again == old(again) + [p]
    {
      hide QueueFits, FrontFits, AckFits, TimersFit, AnswerFits;
      RescheduledMore(macState, sched);
      nbRxDataPackets := nbRxDataPackets + 1;
      Become(WAIT_DATA);
      Cancel(CcaTimeout);
      Schedule(DataTimeout);
      again := again + [p];
      Idle();
    }

    method WhenCcaLost(msg: Message) returns (ok: bool)
      requires macState == CCA_LOST && Due(msg)
      modifies this`macState, this`prevMacState, this`sched, this`nbRxPreambles, this`nbRxDataPackets,
               this`destDestAddrAck2, this`caller, this`again
      ensures ok ==> again == if old(Repeated(msg)) == [] then old(again) else old(again) + old(Repeated(msg))
      ensures ok ==> Valid() && (Adrift(macState, sched) <==> old(StaysAdrift(msg)))
      ensures ok ==> CallerNoted(old(macState), old(caller), msg)
      ensures (ok <==> Expected(old(macState), msg)) && (ok ==> Control() == old(Next(msg)))
    {
      hide QueueFits, FrontFits, AckFits, AnswerFits;
      ok := true;
      if msg == Fires(CcaTimeout) {
        Schedule(Wakeup);
        Become(SLEEP);
        Idle();
        return;
      }
      if msg.Arrives? {
        var p := msg.packet;
        match p.kind {
          case Preamble =>
            CcaLostPreamble(p);
            return;
          case Data =>
            DataAtOnce(p);
            return;
          case Ack =>
            return;
          case Ack2 =>
            return;
          case Other =>
        }
      }
      ok := false;
    }

    method CcaLostPreamble(p: Packet)
      requires macState == CCA_LOST && Valid()
      modifies this`macState, this`prevMacState, this`sched, this`nbRxPreambles, this`destDestAddrAck2, this`caller
      ensures Valid() && (Adrift(macState, sched) <==> old(Adrift(macState, sched)) && !InList(p))
      ensures macState == (if InList(p) then CCA2 else CCA_LOST)
      ensures destDestAddrAck2 == if InList(p) then p.src else old(destDestAddrAck2)
      ensures caller == if InList(p) then p.src else old(caller)
      ensures prevMacState == if InList(p) then CCA_LOST else old(prevMacState)
    {
      hide QueueFits, FrontFits, TimersFit;
      nbRxPreambles := nbRxPreambles + 1;
      CompeteOrListen(p);
    }

    method WhenCca2(msg: Message) returns (ok: bool)
      requires macState == CCA2 && Due(msg)
      modifies this`macState, this`prevMacState, this`sched, this`nbRxDataPackets, this`again
      ensures ok ==> again == if old(Repeated(msg)) == [] then old(again) else old(again) + old(Repeated(msg))
      ensures ok ==> InStep()
      ensures (ok <==> Expected(old(macState), msg)) && (ok ==> Control() == old(Next(msg)))
    {
      hide QueueFits, AnswerFits;
      ok := true;
      match msg {
        case Fires(t) =>
          if t == Cca2Timeout {
            AnswerCaller();
            return;
          }
          if t == DataTimeout {
            GiveWay(msg);
            return;
          }
        case Arrives(p, _) =>
          match p.kind {
            case Ack2 =>
              if p.dest == destDestAddrAck2 { GiveWay(msg); }
              return;
            case Preamble =>
              return;
            case Data =>
              Cca2Data(p);
              return;
            case Ack =>
              return;
            case Other =>
          }
      }
      ok := false;
    }

    /** Nobody else has answered: this station will. */
    method AnswerCaller()
      requires macState == CCA2 && Due(Fires(Cca2Timeout))
      modifies this`macState, this`prevMacState, this`sched
      ensures InStep() && macState == SEND_ACK2 && prevMacState == CCA2
    {
      hide QueueFits;
      Become(SEND_ACK2);
      Cancel(DataTimeout);
    }

    /** Another station answers, or the time to answer is over. */
    method GiveWay(msg: Message)
      requires macState == CCA2 && Due(msg) && (msg.Arrives? || msg.timer == DataTimeout)
      modifies this`macState, this`prevMacState, this`sched
      ensures InStep() && macState == SLEEP && prevMacState == CCA2
    {
      hide QueueFits, AnswerFits;
      Schedule(Wakeup);
      Cancel(Cca2Timeout);
      Cancel(DataTimeout);
      Become(SLEEP);
      Idle();
    }

    method Cca2Data(p: Packet)
      requires macState == CCA2 && InStep()
      modifies this`macState, this`prevMacState, this`sched, this`nbRxDataPackets, this`again
      ensures InStep() && macState == WAIT_DATA && prevMacState == old(macState) && again == old(again) + [p]
    {
      hide QueueFits, AnswerFits;
      nbRxDataPackets := nbRxDataPackets + 1;
      Cancel(Cca2Timeout);
      if DataTimeout !in sched { Schedule(DataTimeout); }
      again := again + [p];
      Become(WAIT_DATA);
      Idle();
    }

    method WhenSendPreamble(msg: Message) returns (ok: bool)
      requires macState == SEND_PREAMBLE && Due(msg)
      modifies this`macState, this`prevMacState, this`sched, this`sentDown, this`preambleCont, this`nbTxPreambles,
               this`txAttempts
      ensures ok ==> sentDown == if old(Down(msg)) == [] then old(sentDown) else old(sentDown) + old(Down(msg))
      ensures ok ==> InStep() && preambleCont == old(preambleCont) + if msg == Fires(SendPreamble) then 1 else 0
      ensures (ok <==> Expected(old(macState), msg)) && (ok ==> Control() == old(Next(msg)))
    {
      hide QueueFits, FrontFits, AckFits, AnswerFits, TimersFit;
      ok := true;
      if msg == Fires(SendPreamble) {
        Strobe();
        return;
      }
      if msg == Fires(StopPreambles) {
        StopStrobing();
        return;
      }
      ok := false;
    }

    method Strobe()
      requires macState == SEND_PREAMBLE && Due(Fires(SendPreamble))
      modifies this`macState, this`prevMacState, this`sched, this`sentDown, this`preambleCont, this`nbTxPreambles
      ensures InStep() && macState == SEND_PREAMBLE_TX_END && prevMacState == SEND_PREAMBLE
      ensures preambleCont == old(preambleCont) + 1
      ensures macQueue != [] && sentDown ==
              old(sentDown) + [Packet(Preamble, address, Broadcast, macQueue[0].targets, old(preambleCont))]
    {
      hide QueueFits, AckFits, AnswerFits, TimersFit;
      Unguarded(macState, sched, SendPreamble);
      RescheduledMore(macState, sched);
      Uncalled();
      SendPreambleFrame(macQueue[0].targets);
      Schedule(AckTimeout);
      Become(SEND_PREAMBLE_TX_END);
      NoAckDue();
      Idle();
    }

    method StopStrobing()
      requires macState == SEND_PREAMBLE && Due(Fires(StopPreambles))
      modifies this`macState, this`prevMacState, this`txAttempts
      ensures InStep() && macState == SEND_DATA && prevMacState == SEND_PREAMBLE && txAttempts == 1
    {
      hide QueueFits, AckFits, AnswerFits, TimersFit;
      Stopped(sched);
      Uncalled();
      Become(SEND_DATA);
      txAttempts := 1;
      NoAckDue();
      Idle();
    }

    /** A preamble is always addressed to all, and numbered. */
    method SendPreambleFrame(targets: seq<Address>)
      modifies this`sentDown, this`preambleCont, this`nbTxPreambles
      ensures sentDown == old(sentDown) + [Packet(Preamble, address, Broadcast, targets, old(preambleCont))]
      ensures preambleCont == old(preambleCont) + 1
    {
      sentDown := sentDown + [Packet(Preamble, address, Broadcast, targets, preambleCont)];
      preambleCont := preambleCont + 1;
      nbTxPreambles := nbTxPreambles + 1;
    }

    method WhenSendPreambleTxEnd(msg: Message) returns (ok: bool)
      requires macState == SEND_PREAMBLE_TX_END && Due(msg)
      modifies this`macState, this`prevMacState, this`sched
      ensures ok ==> InStep()
      ensures (ok <==> Expected(old(macState), msg)) && (ok ==> Control() == old(Next(msg)))
    {
      hide QueueFits;
      ok := true;
      if msg == Fires(PreambleTxOver) {
        Become(WAIT_ACK2);
        return;
      }
      ok := false;
    }

    method WhenSendData(msg: Message) returns (ok: bool)
      requires (macState == SEND_DATA || macState == SEND_DATA2) && Due(msg)
      modifies this`macState, this`prevMacState, this`sched, this`nbTxDataPackets, this`lastDataPktDestAddr,
               this`sentDown, this`transmissions
      ensures ok ==> sentDown == old(sentDown) + old(Down(msg)) && old(Down(msg)) != []
      ensures ok ==> InStep()
      ensures ok ==> transmissions == old(transmissions) + [|removed|]
      ensures (ok <==> Expected(old(macState), msg)) && (ok ==> Control() == old(Next(msg)))
    {
      hide QueueFits, FrontFits, AckFits, AnswerFits, TimersFit;
      ok := msg == Fires(SendPreamble) || msg == Fires(ResendData);
      if ok { SendFront(msg.timer); }
    }

    method SendFront(t: Timer)
      requires macState == SEND_DATA || macState == SEND_DATA2
      requires t == SendPreamble || t == ResendData
      requires Due(Fires(t))
      modifies this`macState, this`prevMacState, this`sched, this`nbTxDataPackets, this`lastDataPktDestAddr,
               this`sentDown, this`transmissions
      ensures macQueue != [] && sentDown == old(sentDown) + [macQueue[0].(kind := Data)]
      ensures macState == WAIT_TX_DATA_OVER && prevMacState == old(macState) && InStep()
      ensures transmissions == old(transmissions) + [|removed|]
    {
      hide QueueFits, AckFits, AnswerFits, TimersFit;
      Unguarded(macState, sched, t);
      RescheduledMore(macState, sched);
      Uncalled();
      SendDataPacket();
      Become(WAIT_TX_DATA_OVER);
      NoAckDue();
      Idle();
    }

    method WhenWaitTxDataOver(msg: Message) returns (ok: bool)
      requires macState == WAIT_TX_DATA_OVER && Due(msg)
      modifies this`macState, this`prevMacState, this`sched, this`macQueue, this`preambleCont, this`removed
      ensures ok ==> InStep() && preambleCont == if macState == SLEEP then 0 else old(preambleCont)
      ensures ok ==> if macState == SLEEP
              then PoppedFor(old(macState), msg, old(Ghosts()), old(txAttempts) >= maxTxAttempts)
              else Kept(old(Ghosts()))
      ensures (ok <==> Expected(old(macState), msg)) && (ok ==> Control() == old(Next(msg)))
    {
      hide QueueFits, AckFits, TimersFit, PoppedFor, AnswerFits;
      ok := true;
      if msg == Fires(DataTxOver) {
        if useMacAcks && lastDataPktDestAddr != Broadcast {
          Uncalled();
          Unguarded(macState, sched, DataTxOver);
          RescheduledMore(macState, sched);
          Become(WAIT_ACK);
          Schedule(AckTimeout);
          NoAckDue();
          Idle();
        } else {
          Unconfirmed(txAttempts >= maxTxAttempts);
        }
        return;
      }
      ok := false;
    }

    /** The packet leaves the queue without an acknowledgement. */
    method Unconfirmed(ghost spent: bool)
      requires macState == WAIT_TX_DATA_OVER && Due(Fires(DataTxOver))
               && !(useMacAcks && lastDataPktDestAddr != Broadcast)
      modifies this`macState, this`prevMacState, this`sched, this`macQueue, this`preambleCont, this`removed
      ensures InStep() && macState == SLEEP && prevMacState == WAIT_TX_DATA_OVER && preambleCont == 0
      ensures PoppedFor(WAIT_TX_DATA_OVER, Fires(DataTxOver), old(Ghosts()), spent)
    {
      hide QueueFits, TimersFit, FrontFits, AckFits, AnswerFits;
      Unguarded(macState, sched, DataTxOver);
      RescheduledMore(macState, sched);
      FrontKnown();
      PopFront();
      Schedule(Wakeup);
      Become(SLEEP);
      Idle();
    }

    /** The front of the queue has left it, for a reason. */
    ghost predicate PoppedFor(st: State, msg: Message, was: (seq<Packet>, seq<Packet>, seq<Packet>, seq<nat>),
        spent: bool)
      reads this
    {
      && was.0 != [] && Finished(st, msg, was.0[0], useMacAcks, spent)
      && macQueue == was.0[1..] && removed == was.2 + [was.0[0]] && accepted == was.1 && transmissions == was.3
    }

    method WhenWaitAck(msg: Message) returns (ok: bool)
      requires macState == WAIT_ACK && Due(msg)
      modifies this`macState, this`prevMacState, this`sched, this`txAttempts, this`macQueue, this`preambleCont,
               this`removed, this`nbMissedAcks, this`nbRecvdAcks, this`lastDataPktDestAddr
      ensures ok ==> InStep() && preambleCont == if macState == SLEEP then 0 else old(preambleCont)
      ensures ok ==> if macState == SLEEP
              then PoppedFor(old(macState), msg, old(Ghosts()), old(txAttempts) >= maxTxAttempts)
              else Kept(old(Ghosts()))
      ensures (ok <==> Expected(old(macState), msg)) && (ok ==> Control() == old(Next(msg)))
    {
      hide QueueFits;
      ok := true;
      match msg {
        case Fires(t) =>
          if t == AckTimeout {
            AckTimedOut();
            return;
          }
        case Arrives(p, _) =>
          match p.kind {
            case Ack =>
              if p.src == lastDataPktDestAddr { Acknowledged(p); }
              return;
            case Data => return;
            case Preamble => return;
            case Ack2 => return;
            case Other =>
          }
      }
      ok := false;
    }

    method AckTimedOut()
      requires macState == WAIT_ACK && Due(Fires(AckTimeout))
      modifies this`macState, this`prevMacState, this`sched, this`txAttempts, this`macQueue, this`preambleCont,
               this`removed, this`nbMissedAcks
      ensures InStep() && preambleCont == if macState == SLEEP then 0 else old(preambleCont)
      ensures prevMacState == WAIT_ACK && (old(txAttempts) >= maxTxAttempts ==> txAttempts == old(txAttempts))
      ensures if old(txAttempts) < maxTxAttempts
              then macState == SEND_PREAMBLE && txAttempts == old(txAttempts) + 1 && Kept(old(Ghosts()))
              else macState == SLEEP && nbMissedAcks == old(nbMissedAcks) + 1
                   && PoppedFor(WAIT_ACK, Fires(AckTimeout), old(Ghosts()), true)
    {
      hide QueueFits, FrontFits, AckFits, AnswerFits, TimersFit, Finished;
      if txAttempts < maxTxAttempts { TryAgain(); } else { GiveUp(); }
    }

    method TryAgain()
      requires macState == WAIT_ACK && Due(Fires(AckTimeout))
      modifies this`macState, this`prevMacState, this`sched, this`txAttempts
      ensures InStep() && macState == SEND_PREAMBLE && prevMacState == WAIT_ACK && txAttempts == old(txAttempts) + 1
    {
      hide QueueFits, AckFits, AnswerFits, TimersFit;
      Unanswered(sched);
      Uncalled();
      txAttempts := txAttempts + 1;
      Become(SEND_PREAMBLE);
      Schedule(StopPreambles);
      NoAckDue();
      Idle();
    }

    /** The last attempt has failed: the packet leaves the queue. */
    method GiveUp()
      requires macState == WAIT_ACK && Due(Fires(AckTimeout))
      modifies this`macState, this`prevMacState, this`sched, this`macQueue, this`preambleCont, this`removed,
               this`nbMissedAcks
      ensures InStep() && macState == SLEEP && prevMacState == WAIT_ACK && nbMissedAcks == old(nbMissedAcks) + 1
      ensures PoppedFor(WAIT_ACK, Fires(AckTimeout), old(Ghosts()), true) && preambleCont == 0
    {
      hide QueueFits, FrontFits, AckFits, AnswerFits, TimersFit;
      Unanswered(sched);
      FrontKnown();
      PopFront();
      Schedule(Wakeup);
      Become(SLEEP);
      nbMissedAcks := nbMissedAcks + 1;
      Idle();
    }

    method Acknowledged(p: Packet)
      requires macState == WAIT_ACK && InStep() && p.kind == Ack && p.src == lastDataPktDestAddr
      modifies this`macState, this`prevMacState, this`sched, this`macQueue, this`preambleCont, this`removed,
               this`nbRecvdAcks, this`lastDataPktDestAddr
      ensures InStep() && macState == SLEEP && prevMacState == WAIT_ACK && nbRecvdAcks == old(nbRecvdAcks) + 1
              && PoppedFor(WAIT_ACK, Arrives(p, false), old(Ghosts()), false) && preambleCont == 0
    {
      hide QueueFits, TimersFit, FrontFits, AckFits, Finished, AnswerFits;
      Rescheduled(sched);
      FrontKnown();
      AckFinishes(p, macQueue[0]);
      nbRecvdAcks := nbRecvdAcks + 1;
      Cancel(AckTimeout);
      PopFront();
      Schedule(Wakeup);
      Become(SLEEP);
      lastDataPktDestAddr := Broadcast;
      Idle();
    }

    lemma FrontKnown()
      requires FrontFits() && Sent(macState)
      ensures macQueue != [] && lastDataPktDestAddr == macQueue[0].dest && |removed| in transmissions
    {
    }

    lemma Idle()
      ensures !Sending(macState) && macState != SEND_ACK ==> FrontFits() && AckFits()
      ensures !Unasked(macState) && macState != CCA2 && macState != SEND_ACK2 ==> AnswerFits()
      ensures Unasked(macState) && destDestAddrAck2 == Unspecified ==> AnswerFits()
      ensures macState == CCA2 && destDestAddrAck2 == caller ==> AnswerFits()
    {
    }

    lemma Uncalled()
      requires AnswerFits() && Unasked(macState)
      ensures destDestAddrAck2 == Unspecified
    {
    }

    lemma NoAckDue()
      requires macState != SEND_ACK
      ensures AckFits()
    {
    }

    lemma AckDue()
      requires macState == SEND_ACK && sentUp != [] && sentUp[|sentUp| - 1].dest == address
               && sentUp[|sentUp| - 1].src == lastDataPktSrcAddr
      ensures FrontFits() && AckFits()
    {
    }

    lemma AckFinishes(p: Packet, front: Packet)
      requires p.kind == Ack && p.src == front.dest
      ensures Finished(WAIT_ACK, Arrives(p, false), front, useMacAcks, false)
    {
    }

    method WhenWaitData(msg: Message) returns (ok: bool)
      requires macState == WAIT_DATA && Due(msg)
      modifies this`macState, this`prevMacState, this`sched, this`nbRxPreambles, this`nbRxDataPackets,
               this`destDestAddrAck2, this`caller, this`pendingPreambles, this`sentUp, this`lastDataPktSrcAddr,
               this`destAddressNext
      ensures ok ==> sentUp == if old(Up(msg)) == [] then old(sentUp) else old(sentUp) + old(Up(msg))
      ensures ok ==> InStep()
      ensures ok ==> pendingPreambles == if Brings(msg, Data) then old(pendingPreambles) - {msg.packet.src}
              else old(pendingPreambles)
      ensures ok ==> CallerNoted(old(macState), old(caller), msg)
      ensures (ok <==> Expected(old(macState), msg)) && (ok ==> Control() == old(Next(msg)))
    {
      hide QueueFits, FrontFits, AckFits, AnswerFits;
      ok := true;
      match msg {
        case Fires(t) =>
          if t == DataTimeout {
            Schedule(Wakeup);
            Become(SLEEP);
            Idle();
            return;
          }
        case Arrives(p, late) =>
          match p.kind {
            case Preamble =>
              nbRxPreambles := nbRxPreambles + 1;
              if InList(p) && DataTimeout in sched && late { CompeteLate(p); }
              return;
            case Ack => return;
            case Ack2 => return;
            case Data =>
              ReceiveData(p);
              return;
            case Other =>
          }
      }
      ok := false;
    }

    /** Competes for an answer while the data timeout runs on. */
    method CompeteLate(p: Packet)
      requires macState == WAIT_DATA && InStep()
      modifies this`macState, this`prevMacState, this`sched, this`destDestAddrAck2, this`caller
      ensures InStep() && macState == CCA2 && prevMacState == WAIT_DATA && destDestAddrAck2 == p.src == caller
    {
      hide QueueFits, FrontFits, AckFits, AnswerFits;
      Become(CCA2);
      Schedule(Cca2Timeout);
      destDestAddrAck2 := p.src;
      caller := p.src;
      Idle();
    }

    /** A data frame arrives as expected: a frame for this station or for all goes up. */
    method ReceiveData(p: Packet)
      requires macState == WAIT_DATA && InStep() && p.kind == Data
      modifies this`macState, this`prevMacState, this`sched, this`nbRxDataPackets, this`pendingPreambles, this`sentUp,
               this`lastDataPktSrcAddr, this`destAddressNext, this`destDestAddrAck2
      ensures InStep()
      ensures sentUp == if p.dest == address || p.dest == Broadcast then old(sentUp) + [p] else old(sentUp)
      ensures pendingPreambles == old(pendingPreambles) - {p.src} && prevMacState == WAIT_DATA
      ensures destDestAddrAck2 == if macState == CCA then Unspecified else old(destDestAddrAck2)
      ensures macState == if useMacAcks && p.dest == address then SEND_ACK
                          else if p.dest != Broadcast && pendingPreambles == {} then SLEEP else CCA
    {
      hide QueueFits, TimersFit;
      nbRxDataPackets := nbRxDataPackets + 1;
      pendingPreambles := pendingPreambles - {p.src};
      if p.dest == address || p.dest == Broadcast { sentUp := sentUp + [p]; }
      EndReception(p);
    }

    /** What follows a data frame: an acknowledgement, sleep, or listening for further ones. */
    method EndReception(p: Packet)
      requires macState == WAIT_DATA && InStep()
      requires p.dest == address ==> sentUp != [] && sentUp[|sentUp| - 1] == p
      modifies this`macState, this`prevMacState, this`sched, this`lastDataPktSrcAddr, this`destAddressNext,
               this`destDestAddrAck2
      ensures InStep() && prevMacState == WAIT_DATA && destDestAddrAck2 == if macState == CCA then Unspecified
              else old(destDestAddrAck2)
      ensures macState == if useMacAcks && p.dest == address then SEND_ACK
                          else if p.dest != Broadcast && pendingPreambles == {} then SLEEP else CCA
    {
      hide QueueFits, FrontFits, AckFits, AnswerFits, TimersFit;
      if useMacAcks && p.dest == address {
        OweAck(p);
      } else if p.dest != Broadcast && pendingPreambles == {} {
        Rest();
      } else {
        ListenOn();
      }
    }

    method OweAck(p: Packet)
      requires macState == WAIT_DATA && InStep() && p.dest == address && sentUp != [] && sentUp[|sentUp| - 1] == p
      modifies this`macState, this`prevMacState, this`sched, this`lastDataPktSrcAddr
      ensures InStep() && macState == SEND_ACK && prevMacState == WAIT_DATA
    {
      hide QueueFits, TimersFit, FrontFits, AckFits, AnswerFits;
      Rescheduled(sched);
      Cancel(DataTimeout);
      Become(SEND_ACK);
      lastDataPktSrcAddr := p.src;
      AckDue();
      Idle();
    }

    method Rest()
      requires macState == WAIT_DATA && InStep()
      modifies this`macState, this`prevMacState, this`sched
      ensures InStep() && macState == SLEEP && prevMacState == WAIT_DATA
    {
      hide QueueFits, TimersFit, FrontFits, AckFits, AnswerFits;
      Rescheduled(sched);
      Cancel(DataTimeout);
      Schedule(Wakeup);
      Become(SLEEP);
      Idle();
    }

    /** Other frames sent by flooding may still arrive. */
    method ListenOn()
      requires macState == WAIT_DATA && InStep()
      modifies this`macState, this`prevMacState, this`sched, this`destAddressNext, this`destDestAddrAck2
      ensures InStep() && macState == CCA && prevMacState == WAIT_DATA && destDestAddrAck2 == Unspecified
    {
      hide QueueFits, TimersFit, FrontFits, AckFits, AnswerFits;
      Rescheduled(sched);
      Cancel(DataTimeout);
      Schedule(CcaTimeout);
      Become(CCA);
      destAddressNext, destDestAddrAck2 := Unspecified, Unspecified;
      Idle();
    }

    method WhenAcking(msg: Message) returns (ok: bool)
      requires (macState == SEND_ACK || macState == WAIT_ACK_TX) && Due(msg)
      modifies this`macState, this`prevMacState, this`sched, this`sentDown, this`nbTxAcks, this`lastDataPktSrcAddr
      ensures ok ==> sentDown == if old(Down(msg)) == [] then old(sentDown) else old(sentDown) + old(Down(msg))
      ensures ok ==> InStep()
      ensures (ok <==> Expected(old(macState), msg)) && (ok ==> Control() == old(Next(msg)))
    {
      hide QueueFits, FrontFits, AckFits, AnswerFits, TimersFit;
      ok := msg == Fires(if macState == SEND_ACK then SendAck else AckTxOver);
      if ok {
        if macState == SEND_ACK { SendOwnAck(); } else { AckSent(); }
      }
    }

    method SendOwnAck()
      requires macState == SEND_ACK && Due(Fires(SendAck))
      modifies this`macState, this`prevMacState, this`sched, this`sentDown, this`nbTxAcks
      ensures sentDown == old(sentDown) + [Packet(Ack, address, lastDataPktSrcAddr, [], 0)]
      ensures macState == WAIT_ACK_TX && prevMacState == SEND_ACK && InStep()
    {
      hide QueueFits, FrontFits, AckFits, AnswerFits, TimersFit;
      Unguarded(macState, sched, SendAck);
      RescheduledMore(macState, sched);
      SendMacAck(Ack, lastDataPktSrcAddr);
      Become(WAIT_ACK_TX);
      Idle();
    }

    method AckSent()
      requires macState == WAIT_ACK_TX && Due(Fires(AckTxOver))
      modifies this`macState, this`prevMacState, this`sched, this`lastDataPktSrcAddr
      ensures macState == SLEEP && prevMacState == WAIT_ACK_TX && InStep()
    {
      hide QueueFits, FrontFits, AckFits, AnswerFits, TimersFit;
      Unguarded(macState, sched, AckTxOver);
      RescheduledMore(macState, sched);
      Schedule(Wakeup);
      Become(SLEEP);
      lastDataPktSrcAddr := Broadcast;
      Idle();
    }

    method WhenAnswering(msg: Message) returns (ok: bool)
      requires (macState == SEND_ACK2 || macState == WAIT_ACK2_TX) && Due(msg)
      modifies this`macState, this`prevMacState, this`sched, this`sentDown, this`nbTxAcks
      ensures ok ==> sentDown == if old(Down(msg)) == [] then old(sentDown) else old(sentDown) + old(Down(msg))
      ensures ok ==> InStep()
      ensures (ok <==> Expected(old(macState), msg)) && (ok ==> Control() == old(Next(msg)))
    {
      hide QueueFits, FrontFits, AckFits, AnswerFits;
      ok := true;
      if macState == SEND_ACK2 {
        if msg == Fires(SendAck2) {
          SendMacAck(Ack2, destDestAddrAck2);
          Become(WAIT_ACK2_TX);
          Idle();
          return;
        }
      } else if msg == Fires(Ack2TxOver) {
        Become(WAIT_DATA);
        if DataTimeout !in sched { Schedule(DataTimeout); }
        Idle();
        return;
      }
      ok := false;
    }

    method SendMacAck(kind: Kind, dest: Address)
      modifies this`sentDown, this`nbTxAcks
      ensures sentDown == old(sentDown) + [Packet(kind, address, dest, [], 0)] && nbTxAcks == old(nbTxAcks) + 1
    {
      sentDown := sentDown + [Packet(kind, address, dest, [], 0)];
      nbTxAcks := nbTxAcks + 1;
    }

    /** Only a preamble that strays leaves the layer listening without a timer. */
    method WhenWaitAck2(msg: Message) returns (ok: bool)
      requires macState == WAIT_ACK2 && Due(msg)
      modifies this`macState, this`prevMacState, this`sched, this`txAttempts, this`destAddressNext, this`caller
      ensures ok ==> Valid()
      ensures ok ==> CallerNoted(old(macState), old(caller), msg)
      ensures ok ==> (Adrift(macState, sched) <==> Strays(WAIT_ACK2, msg, address, old(preambleCont)))
      ensures (ok <==> Expected(old(macState), msg)) && (ok ==> Control() == old(Next(msg)))
    {
      hide QueueFits;
      ok := true;
      match msg {
        case Fires(t) =>
          if t == AckTimeout {
            Become(SEND_PREAMBLE);
            return;
          }
          if t == StopPreambles {
            Cancel(AckTimeout);
            Become(SEND_DATA);
            txAttempts := 1;
            return;
          }
        case Arrives(p, _) =>
          match p.kind {
            case Preamble =>
              if preambleCont < p.count { LostRace(p); }
              return;
            case Data => return;
            case Ack => return;
            case Ack2 =>
              if p.dest == address { Answered(p); }
              return;
            case Other =>
          }
      }
      ok := false;
    }

    /** Another station's series of preambles is older: this one gives up its own. */
    method LostRace(p: Packet)
      requires macState == WAIT_ACK2 && InStep() && p.kind == Preamble && preambleCont < p.count
      modifies this`macState, this`prevMacState, this`sched, this`caller
      ensures Valid() && caller == if macState == SEND_ACK2 then p.src else old(caller)
      ensures prevMacState == WAIT_ACK2
      ensures macState == if p.dest == Broadcast then WAIT_DATA else if p.dest == address then SEND_ACK2 else CCA_LOST
      ensures Adrift(macState, sched) <==> Strays(WAIT_ACK2, Arrives(p, false), address, old(preambleCont))
    {
      hide QueueFits, FrontFits, AckFits, AnswerFits, TimersFit, Adrift;
      if p.dest != Broadcast && p.dest != address {
        LoseTouch();
      } else if p.dest == address {
        AnswerInstead(p);
      } else {
        ListenInstead();
      }
      InStepOrAdrift(macState, sched);
    }

    /** The other series is for another station. */
    method LoseTouch()
      requires macState == WAIT_ACK2 && InStep()
      modifies this`macState, this`prevMacState, this`sched
      ensures Valid() && macState == CCA_LOST && prevMacState == WAIT_ACK2 && Adrift(macState, sched)
    {
      hide QueueFits, FrontFits, AckFits, AnswerFits, TimersFit, Adrift;
      GivenUp(sched);
      Uncalled();
      Cancel(AckTimeout);
      Cancel(StopPreambles);
      Become(CCA_LOST);
      Idle();
    }

    /** It is for this one, which answers at once. */
    method AnswerInstead(p: Packet)
      requires macState == WAIT_ACK2 && InStep()
      modifies this`macState, this`prevMacState, this`sched, this`caller
      ensures InStep() && macState == SEND_ACK2 && prevMacState == WAIT_ACK2 && caller == p.src
    {
      hide QueueFits, FrontFits, AckFits, AnswerFits, TimersFit;
      GivenUp(sched);
      Uncalled();
      Cancel(AckTimeout);
      Cancel(StopPreambles);
      Become(SEND_ACK2);
      caller := p.src;
      Cancel(DataTimeout);
      Idle();
      AnswersNobody();
    }

    lemma AnswersNobody()
      requires macState == SEND_ACK2 && prevMacState == WAIT_ACK2 && destDestAddrAck2 == Unspecified
      ensures AnswerFits()
    {
    }

    /** It is for all: data follows. */
    method ListenInstead()
      requires macState == WAIT_ACK2 && InStep()
      modifies this`macState, this`prevMacState, this`sched
      ensures InStep() && macState == WAIT_DATA && prevMacState == WAIT_ACK2
    {
      hide QueueFits, FrontFits, AckFits, AnswerFits, TimersFit;
      GivenUp(sched);
      Cancel(AckTimeout);
      Cancel(StopPreambles);
      Become(WAIT_DATA);
      Cancel(CcaTimeout);
      Schedule(DataTimeout);
      Idle();
    }

    method Answered(p: Packet)
      requires macState == WAIT_ACK2 && InStep() && p.kind == Ack2
      modifies this`macState, this`prevMacState, this`sched, this`destAddressNext
      ensures InStep() && macState == SEND_DATA2 && prevMacState == WAIT_ACK2 && destAddressNext == p.src
    {
      hide QueueFits, TimersFit;
      GivenUp(sched);
      Cancel(AckTimeout);
      Cancel(StopPreambles);
      destAddressNext := p.src;
      Become(SEND_DATA2);
    }

    // ----- no station gets stuck -----

    /** In every run there is a message that will come by itself and is expected, unless the layer is adrift. */
    lemma NeverStuck()
      requires Valid()
      ensures Adrift(macState, sched) <==>
              !exists t :: Expected(macState, Fires(t)) && (t in sched || t in Reaction(true) || t in Reaction(false))
    {
      hide QueueFits, FrontFits, AckFits, AnswerFits;
      if Adrift(macState, sched) {
        assert CcaTimeout !in sched;
      } else {
        var t := match macState
          case INIT => StartXmac
          case SLEEP => Wakeup
          case CCA => CcaTimeout
          case CCA_LOST => CcaTimeout
          case CCA2 => Cca2Timeout
          case SEND_PREAMBLE => StopPreambles
          case SEND_PREAMBLE_TX_END => PreambleTxOver
          case WAIT_ACK2 => AckTimeout
          case SEND_DATA => ResendData
          case SEND_DATA2 => ResendData
          case WAIT_TX_DATA_OVER => DataTxOver
          case WAIT_ACK => AckTimeout
          case WAIT_DATA => DataTimeout
          case SEND_ACK => SendAck
          case WAIT_ACK_TX => AckTxOver
          case SEND_ACK2 => SendAck2
          case WAIT_ACK2_TX => Ack2TxOver;
        assert Expected(macState, Fires(t)) && (t in sched || t in Reaction(true) || t in Reaction(false));
      }
    }

    /**
     * What the radio sets going is always expected. When it has switched, that is the frame the layer is about to send,
     * and there is one exactly in the states that send; when it has sent, it is the end of a transmission, awaited by
     * every state a frame leads to.
     */
    lemma ReactionsExactly(t: Timer)
      requires Valid() && t !in sched
      ensures t in Reaction(true) + Reaction(false) ==> Expected(macState, Fires(t)) && !Guard(t)
      ensures t in Reaction(false) ==> Due(Fires(t)) && Down(Fires(t)) != []
      ensures t in Reaction(true) ==> Down(Fires(t)) == []
      ensures Reaction(false) == {} <==> forall m :: Expected(macState, m) ==> Down(m) == []
    {
      hide QueueFits, FrontFits, AckFits, AnswerFits, TimersFit, Adrift, Down, Reaction, Expected;
      ReactionIs(t);
      if !Guard(t) { Unguarded(macState, sched, t); }
      if Reaction(false) != {} { SendsSomething(); } else { SendsNothing(); }
    }

    lemma ReactionIs(t: Timer)
      requires FrontFits()
      ensures t in Reaction(true) + Reaction(false) ==> Expected(macState, Fires(t)) && !Guard(t)
      ensures t in Reaction(false) ==> Down(Fires(t)) != []
      ensures t in Reaction(true) ==> Down(Fires(t)) == []
    {
    }

    /** Which reaction it is, message by message. */
    lemma ReactionOf(t: Timer)
      ensures t in Reaction(false) <==>
              match t
              case SendPreamble => macState == SEND_PREAMBLE
              case ResendData => macState == SEND_DATA || macState == SEND_DATA2
              case SendAck => macState == SEND_ACK
              case SendAck2 => macState == SEND_ACK2
              case _ => false
      ensures t in Reaction(true) <==>
              match t
              case PreambleTxOver => macState == SEND_PREAMBLE_TX_END
              case DataTxOver => macState == WAIT_TX_DATA_OVER
              case AckTxOver => macState == WAIT_ACK_TX
              case Ack2TxOver => macState == WAIT_ACK2_TX
              case _ => false
    {
    }

    lemma SendsNothing()
      requires Reaction(false) == {}
      ensures forall m :: Down(m) == []
    {
    }

    lemma SendsSomething()
      requires FrontFits() && Reaction(false) != {}
      ensures exists u :: Expected(macState, Fires(u)) && Down(Fires(u)) != []
    {
      var u := match macState
        case SEND_PREAMBLE => SendPreamble
        case SEND_ACK => SendAck
        case SEND_ACK2 => SendAck2
        case _ => ResendData;
      assert Expected(macState, Fires(u)) && Down(Fires(u)) != [];
    }

    /** After a frame the layer waits for the end of its transmission. */
    lemma SentIsAwaited(msg: Message, to: State)
      requires Due(msg) && Expected(macState, msg) && Down(msg) != [] && Enters(msg, to)
      ensures to == SEND_PREAMBLE_TX_END || to == WAIT_TX_DATA_OVER || to == WAIT_ACK_TX || to == WAIT_ACK2_TX
    {
      hide QueueFits, AckFits, AnswerFits, TimersHold;
      EntersExactly(msg);
      assert Enters(msg, Next(msg).0);
    }

    /**
     * With its front packet ready to go, the next message the layer expects sends it, and the end of that is awaited.
     */
    lemma FrontGoesNext(msg: Message)
      requires Due(msg) && Expected(macState, msg) && (macState == SEND_DATA || macState == SEND_DATA2)
      ensures macQueue != [] && Down(msg) == [macQueue[0].(kind := Data)] && Enters(msg, WAIT_TX_DATA_OVER)
    {
      hide QueueFits, AckFits, AnswerFits, TimersHold;
    }

    /** The end of the preambles, and an answer to this station, lead there. */
    lemma StrobingLeadsOn(msg: Message)
      requires Due(msg) && Expected(macState, msg) && Strobing(macState)
      ensures msg == Fires(StopPreambles) ==> Enters(msg, SEND_DATA)
      ensures Brings(msg, Ack2) && msg.packet.dest == address ==> Enters(msg, SEND_DATA2)
    {
    }

    // ----- frames, and what is expected when -----

    /** What starts each frame, and to whom it goes; nothing else is ever sent down. */
    lemma FramesExactly(msg: Message)
      requires Due(msg) && Expected(macState, msg)
      ensures Down(msg) != [] <==> msg == Fires(SendPreamble) || msg == Fires(ResendData) || msg == Fires(SendAck)
                                   || msg == Fires(SendAck2)
      ensures (exists p :: p in Down(msg) && p.kind == Preamble) <==>
              macState == SEND_PREAMBLE && msg == Fires(SendPreamble)
      ensures macState == SEND_PREAMBLE && msg == Fires(SendPreamble) ==>
              macQueue != [] && Down(msg) == [Packet(Preamble, address, Broadcast, macQueue[0].targets, preambleCont)]
      ensures (exists p :: p in Down(msg) && p.kind == Data) <==> macState == SEND_DATA || macState == SEND_DATA2
      ensures macState == SEND_DATA || macState == SEND_DATA2 ==>
              macQueue != [] && Down(msg) == [macQueue[0].(kind := Data)]
      ensures macState == SEND_ACK ==> Down(msg) == [Packet(Ack, address, lastDataPktSrcAddr, [], 0)]
      ensures macState == SEND_ACK2 ==> Down(msg) == [Packet(Ack2, address, destDestAddrAck2, [], 0)]
    {
      hide QueueFits, AckFits, AnswerFits, TimersHold;
    }

    /**
     * Data for this station or for all goes up while waiting for it; data that comes too early is kept; nothing else.
     */
    lemma DeliveriesExactly(msg: Message)
      ensures Up(msg) == if macState == WAIT_DATA && msg.Arrives? && msg.packet.kind == Data
                            && msg.packet.dest in {address, Broadcast} then [msg.packet] else []
      ensures Repeated(msg) == if macState in {CCA, CCA_LOST, CCA2} && msg.Arrives? && msg.packet.kind == Data
              then [msg.packet] else []
    {
    }

    // ----- why a state is entered -----

    /** A preamble that names this station, or one that does not. */
    predicate Calls(msg: Message, named: bool) {
      msg.Arrives? && msg.packet.kind == Preamble && InList(msg.packet) == named
    }

    predicate Brings(msg: Message, kind: Kind) { msg.Arrives? && msg.packet.kind == kind }

    /** A preamble of a longer series than one's own, while waiting for an answer. */
    predicate Outrun(msg: Message)
      reads this`macState, this`preambleCont
    {
      macState == WAIT_ACK2 && Brings(msg, Preamble) && preambleCont < msg.packet.count
    }

    /** The packet at the front has been sent, and that is the end of it. */
    predicate FrontFinished(msg: Message)
      reads this`macState, this`macQueue, this`txAttempts
    {
      macQueue != [] && Finished(macState, msg, macQueue[0], useMacAcks, txAttempts >= maxTxAttempts)
    }

    /** A data frame after which this station owes an acknowledgement; and one after which it need not listen on. */
    predicate Owing(msg: Message) { Brings(msg, Data) && useMacAcks && msg.packet.dest == address }

    predicate Closing(msg: Message)
      reads this`pendingPreambles
    {
      Brings(msg, Data) && !Owing(msg) && msg.packet.dest != Broadcast && pendingPreambles - {msg.packet.src} == {}
    }

    /** Another station has answered the same caller. */
    predicate Forestalled(msg: Message)
      reads this`destDestAddrAck2
    {
      Brings(msg, Ack2) && msg.packet.dest == destDestAddrAck2
    }

    /**
     * Whether an expected message makes the layer be in the given state afterwards: for each state, what leads there.
     */
    predicate Enters(msg: Message, to: State)
      reads this`macState, this`prevMacState, this`macQueue, this`txAttempts, this`pendingPreambles, this`preambleCont,
            this`destDestAddrAck2
    {
      match to
      case INIT => false
      case SLEEP =>
        || macState == INIT || macState == WAIT_ACK_TX
        || (macState == CCA && ((msg.Fires? && macQueue == []) || (xmac && Calls(msg, false))))
        || (macState == CCA_LOST && msg.Fires?)
        || (macState == CCA2 && (msg == Fires(DataTimeout) || Forestalled(msg)))
        || (macState == WAIT_DATA && (msg.Fires? || Closing(msg)))
        || FrontFinished(msg)
      case CCA =>
        || macState == SLEEP
        || (macState == CCA && ((msg.Fires? && macQueue != [] && prevMacState == WAIT_DATA) || Brings(msg, Ack)))
        || (macState == WAIT_DATA && Brings(msg, Data) && !Owing(msg) && !Closing(msg))
      case CCA_LOST =>
        || (macState == CCA && ((!xmac && Calls(msg, false)) || Brings(msg, Ack2)))
        || (macState == CCA_LOST && msg.Arrives? && !Rescues(msg, address))
        || Strays(macState, msg, address, preambleCont)
      case CCA2 =>
        || (macState == CCA && !xmac && Calls(msg, true))
        || (macState == CCA_LOST && Calls(msg, true))
        || (macState == WAIT_DATA && Calls(msg, true) && msg.late)
        || (macState == CCA2 && msg.Arrives? && !Brings(msg, Data) && !Forestalled(msg))
      case SEND_PREAMBLE =>
        || (macState == CCA && msg.Fires? && macQueue != [] && prevMacState != WAIT_DATA)
        || (macState == WAIT_ACK2 && msg == Fires(AckTimeout))
        || (macState == WAIT_ACK && msg.Fires? && txAttempts < maxTxAttempts)
      case SEND_PREAMBLE_TX_END => macState == SEND_PREAMBLE && msg == Fires(SendPreamble)
      case WAIT_ACK2 =>
        || macState == SEND_PREAMBLE_TX_END
        || (macState == WAIT_ACK2 && msg.Arrives? && !Outrun(msg) && !(Brings(msg, Ack2) && msg.packet.dest == address))
      case SEND_DATA => (macState == SEND_PREAMBLE || macState == WAIT_ACK2) && msg == Fires(StopPreambles)
      case SEND_DATA2 => macState == WAIT_ACK2 && Brings(msg, Ack2) && msg.packet.dest == address
      case WAIT_TX_DATA_OVER => macState == SEND_DATA || macState == SEND_DATA2
      case WAIT_ACK =>
        || (macState == WAIT_TX_DATA_OVER && !FrontFinished(msg))
        || (macState == WAIT_ACK && msg.Arrives? && !FrontFinished(msg))
      case WAIT_DATA =>
        || macState == WAIT_ACK2_TX
        || ((Assessing(macState) || macState == CCA2) && Brings(msg, Data))
        || (macState == WAIT_DATA && msg.Arrives? && !Brings(msg, Data) && !(Calls(msg, true) && msg.late))
        || (Outrun(msg) && msg.packet.dest == Broadcast)
      case SEND_ACK => macState == WAIT_DATA && Owing(msg)
      case WAIT_ACK_TX => macState == SEND_ACK
      case SEND_ACK2 =>
        || (macState == CCA && xmac && Calls(msg, true))
        || (macState == CCA2 && msg == Fires(Cca2Timeout))
        || (Outrun(msg) && msg.packet.dest == address)
      case WAIT_ACK2_TX => macState == SEND_ACK2
    }

    /** Every expected message leads to exactly one state, the one for which there is a reason. */
    lemma EntersExactly(msg: Message)
      requires Due(msg) && Expected(macState, msg)
      ensures forall to :: Enters(msg, to) <==> to == Next(msg).0
    {
      hide Enters, Next, Expected, QueueFits, AckFits, AnswerFits, TimersHold, FrontFits;
      FrontIs(msg);
      if Strobing(macState) {
        EntersStrobing(msg);
      } else if Sending(macState) {
        EntersSending(msg);
      } else if Assessing(macState) || macState == CCA2 {
        EntersAssessing(msg);
      } else {
        EntersOther(msg);
      }
    }

    lemma EntersStrobing(msg: Message)
      requires Strobing(macState) && Expected(macState, msg)
      ensures forall to :: Enters(msg, to) <==> to == Next(msg).0
    {
    }

    lemma EntersSending(msg: Message)
      requires Sending(macState) && !Strobing(macState) && Expected(macState, msg)
      requires Sent(macState) ==> macQueue != [] && lastDataPktDestAddr == macQueue[0].dest
      requires macState == WAIT_ACK ==> lastDataPktDestAddr != Broadcast
      ensures forall to :: Enters(msg, to) <==> to == Next(msg).0
    {
    }

    lemma EntersAssessing(msg: Message)
      requires (Assessing(macState) || macState == CCA2) && Expected(macState, msg)
      ensures forall to :: Enters(msg, to) <==> to == Next(msg).0
    {
    }

    lemma EntersOther(msg: Message)
      requires !Sending(macState) && !Assessing(macState) && macState != CCA2 && Expected(macState, msg)
      ensures forall to :: Enters(msg, to) <==> to == Next(msg).0
    {
    }

    /** What else changes with the state. */
    lemma WithState(msg: Message)
      requires Expected(macState, msg)
      ensures var (to, prev, answer, attempts) := Next(msg);
              && prev == (if to != macState || (macState == CCA && msg.Fires?) then macState else prevMacState)
              && attempts == (if to == SEND_DATA then 1
                              else if macState == WAIT_ACK && to == SEND_PREAMBLE then txAttempts + 1 else txAttempts)
              && answer == (if to == CCA2 && macState != CCA2 && msg.Arrives? then msg.packet.src
                            else if to == CCA && macState != CCA then Unspecified else destDestAddrAck2)
    {
    }

    lemma FrontIs(msg: Message)
      requires FrontFits()
      ensures Sent(macState) ==> macQueue != [] && lastDataPktDestAddr == macQueue[0].dest
      ensures macState == WAIT_ACK ==> lastDataPktDestAddr != Broadcast
    {
    }

    // ----- one event -----

    /** Whether a station that was in the state begins to answer a preamble: by competing for it, or at once. */
    predicate Begins(st: State)
      reads this`macState
    {
      macState != st && (macState == CCA2 || (macState == SEND_ACK2 && st != CCA2))
    }

    /** The station to answer is the sender of the preamble that made this one begin to answer. */
    ghost predicate CallerNoted(st: State, was: Address, msg: Message)
      reads this`macState, this`caller
    {
      if Begins(st) then msg.Arrives? && msg.packet.kind == Preamble && caller == msg.packet.src else caller == was
    }

    /** Where a layer neither strays nor is adrift. */
    lemma NoDrift(msg: Message)
      ensures macState != WAIT_ACK2 ==> !Strays(macState, msg, address, preambleCont)
      ensures macState != CCA_LOST ==> !StaysAdrift(msg)
    {
    }

    /** In the other states nothing makes a station begin to answer. */
    lemma NobodyCalled(msg: Message)
      requires macState != CCA && macState != CCA_LOST && macState != WAIT_DATA && macState != WAIT_ACK2
      ensures Next(msg).0 == CCA2 ==> macState == CCA2
      ensures Next(msg).0 == SEND_ACK2 ==> macState == CCA2
    {
    }

    /**
     * How one message changes the queue: a data frame is sent, or the front leaves for its reason once that is the end
     * of sending it, or nothing changes.
     */
    ghost predicate QueueMoved(st: State, msg: Message, was: (seq<Packet>, seq<Packet>, seq<Packet>, seq<nat>),
        spent: bool)
      reads this
    {
      if st == SEND_DATA || st == SEND_DATA2 then
        (macQueue, accepted, removed) == (was.0, was.1, was.2) && transmissions == was.3 + [|removed|]
      else if Sent(st) && macState == SLEEP then PoppedFor(st, msg, was, spent)
      else Kept(was)
    }

    /** The senders remembered when the message is handled: a preamble that is not for another station joins its own. */
    function Noted(msg: Message, receiving: bool): set<Address>
      reads this`pendingPreambles
    {
      if Brings(msg, Preamble) && receiving && msg.packet.dest in {Broadcast, address}
      then pendingPreambles + {msg.packet.src} else pendingPreambles
    }

    /**
     * The number of the next preamble rises with each one and falls to zero when the front leaves the queue; the
     * senders remembered are forgotten on waking, and one by one as their data arrives.
     */
    predicate Counted(st: State, msg: Message, count: nat, pending: set<Address>)
      reads this`macState, this`preambleCont, this`pendingPreambles
    {
      && preambleCont == (if st == SEND_PREAMBLE && msg == Fires(SendPreamble) then count + 1
                          else if Sent(st) && macState == SLEEP then 0 else count)
      && pendingPreambles == (if st == SLEEP then {}
                              else if st == WAIT_DATA && Brings(msg, Data) then pending - {msg.packet.src} else pending)
    }

    /** Messages that move no frame. */
    lemma Quiet(msg: Message)
      ensures macState !in {SEND_PREAMBLE, SEND_DATA, SEND_DATA2, SEND_ACK, SEND_ACK2} ==> Down(msg) == []
      ensures macState != WAIT_DATA ==> Up(msg) == []
      ensures !Assessing(macState) && macState != CCA2 ==> Repeated(msg) == []
    {
    }

    /** The packet that was at the front has been transmitted, and has left the queue. */
    ghost predicate FrontLeft(was: (seq<Packet>, seq<Packet>, seq<Packet>, seq<nat>))
      reads this`removed, this`transmissions, this`macQueue
    {
      was.0 != [] && removed == was.2 + [was.0[0]] && macQueue == was.0[1..] && |was.2| in transmissions
    }

    /** Once a station has begun to send its front packet, it goes on until that is done or it was outrun. */
    lemma SendingGoesOn(msg: Message)
      requires Due(msg) && Expected(macState, msg) && Sending(macState)
      ensures Sending(Next(msg).0) || Outrun(msg) || (Sent(macState) && Next(msg).0 == SLEEP && FrontFinished(msg))
    {
      hide Next, Expected, QueueFits, AckFits, AnswerFits, TimersHold, FrontFits;
      EntersExactly(msg);
      assert Enters(msg, Next(msg).0);
    }

    /** The finite state machine; a message the state does not expect ends the run. */
    method HandleSelfMessage(msg: Message, receiving: bool) returns (ok: bool)
      requires Due(msg)
      modifies this
      ensures ok ==> Moved(old(sentDown), old(sentUp), old(again), old(Down(msg)), old(Up(msg)), old(Repeated(msg)))
      ensures ok ==> Valid()
      ensures ok ==> (Adrift(macState, sched) <==>
              Strays(old(macState), msg, address, old(preambleCont)) || old(StaysAdrift(msg)))
      ensures ok ==> Counted(old(macState), msg, old(preambleCont), old(Noted(msg, receiving)))
      ensures ok ==> QueueMoved(old(macState), msg, old(Ghosts()), old(txAttempts) >= maxTxAttempts)
      ensures ok ==> CallerNoted(old(macState), old(caller), msg)
      ensures (ok <==> Expected(old(macState), msg)) && (ok ==> Control() == old(Next(msg)))
      ensures ok ==> forall to :: to == macState <==> old(Enters(msg, to))
      ensures ok ==> prevMacState == if macState != old(macState) || (old(macState) == CCA && msg.Fires?)
              then old(macState) else old(prevMacState)
      ensures ok ==> txAttempts == if macState == SEND_DATA then 1
              else if old(macState) == WAIT_ACK && macState == SEND_PREAMBLE then old(txAttempts) + 1
              else old(txAttempts)
      ensures ok && Sending(old(macState)) && !Sending(macState) ==> old(Outrun(msg)) || FrontLeft(old(Ghosts()))
    {
      hide QueueFits, FrontFits, AckFits, AnswerFits, Down, Up, Repeated, TimersFit, Expected, Next, PoppedFor,
        QueueMoved, Moved, Enters, Outrun, FrontFinished, FrontLeft, Strays, StaysAdrift, Due, CallerNoted,
          Counted, Noted;
      if Expected(macState, msg) {
        EntersExactly(msg);
        WithState(msg);
        if Sending(macState) { SendingGoesOn(msg); }
      }
      ghost var was, st, spent := Ghosts(), macState, txAttempts >= maxTxAttempts;
      ok := Dispatch(msg, receiving);
      if ok && Sent(st) && macState == SLEEP { FrontLeaves(st, msg, was, spent); }
    }

    lemma FrontLeaves(st: State, msg: Message, was: (seq<Packet>, seq<Packet>, seq<Packet>, seq<nat>), spent: bool)
      requires Valid() && Sent(st) && macState == SLEEP && QueueMoved(st, msg, was, spent)
      ensures FrontLeft(was)
    {
    }

    /** By the kind of state the layer is in. */
    method Dispatch(msg: Message, receiving: bool) returns (ok: bool)
      requires Due(msg)
      modifies this
      ensures ok ==> Moved(old(sentDown), old(sentUp), old(again), old(Down(msg)), old(Up(msg)), old(Repeated(msg)))
      ensures ok ==> Valid()
      ensures ok ==> (Adrift(macState, sched) <==>
              Strays(old(macState), msg, address, old(preambleCont)) || old(StaysAdrift(msg)))
      ensures ok ==> Counted(old(macState), msg, old(preambleCont), old(Noted(msg, receiving)))
      ensures ok ==> QueueMoved(old(macState), msg, old(Ghosts()), old(txAttempts) >= maxTxAttempts)
      ensures ok ==> CallerNoted(old(macState), old(caller), msg)
      ensures (ok <==> Expected(old(macState), msg)) && (ok ==> Control() == old(Next(msg)))
    {
      hide QueueFits, FrontFits, AckFits, AnswerFits, Down, Up, Repeated, TimersFit, Expected, Next, PoppedFor,
        QueueMoved, Moved, Counted;
      if msg.Arrives? && msg.packet.kind == Preamble && receiving { NotePreamble(msg); }
      if Sending(macState) {
        ok := WhileSending(msg);
      } else if Replying(macState) {
        ok := WhileReplying(msg);
      } else {
        ok := WhileListening(msg);
      }
    }

    /** The senders of preambles for this station are remembered; that makes no difference to handling the preamble. */
    method NotePreamble(msg: Message)
      requires msg.Arrives? && msg.packet.kind == Preamble
      modifies this`pendingPreambles
      ensures pendingPreambles == if msg.packet.dest == Broadcast || msg.packet.dest == address
              then old(pendingPreambles) + {msg.packet.src} else old(pendingPreambles)
      ensures Next(msg) == old(Next(msg))
    {
      if msg.packet.dest == Broadcast || msg.packet.dest == address {
        pendingPreambles := pendingPreambles + {msg.packet.src};
      }
    }

    /** The states in which a packet of the queue is being sent. */
    method WhileStrobing(msg: Message) returns (ok: bool)
      requires Due(msg) && Strobing(macState)
      modifies this
      ensures ok ==> Moved(old(sentDown), old(sentUp), old(again), old(Down(msg)), old(Up(msg)), old(Repeated(msg)))
      ensures ok ==> Valid()
      ensures ok ==> (Adrift(macState, sched) <==>
              Strays(old(macState), msg, address, old(preambleCont)) || old(StaysAdrift(msg)))
      ensures ok ==> Counted(old(macState), msg, old(preambleCont), old(pendingPreambles))
      ensures ok ==> QueueMoved(old(macState), msg, old(Ghosts()), old(txAttempts) >= maxTxAttempts)
      ensures ok ==> CallerNoted(old(macState), old(caller), msg)
      ensures (ok <==> Expected(old(macState), msg)) && (ok ==> Control() == old(Next(msg)))
    {
      hide QueueFits, FrontFits, AckFits, AnswerFits, Down, Up, Repeated, TimersFit, Expected, Next, PoppedFor,
        Strays, StaysAdrift, Adrift;
      NoDrift(msg);
      Quiet(msg);
      if macState != WAIT_ACK2 { NobodyCalled(msg); }
      match macState {
        case SEND_PREAMBLE => ok := WhenSendPreamble(msg);
        case SEND_PREAMBLE_TX_END => ok := WhenSendPreambleTxEnd(msg);
        case WAIT_ACK2 => ok := WhenWaitAck2(msg);
      }
      InStepOrAdrift(macState, sched);
    }

    method WhileSending(msg: Message) returns (ok: bool)
      requires Due(msg) && Sending(macState)
      modifies this
      ensures ok ==> Moved(old(sentDown), old(sentUp), old(again), old(Down(msg)), old(Up(msg)), old(Repeated(msg)))
      ensures ok ==> Valid()
      ensures ok ==> (Adrift(macState, sched) <==>
              Strays(old(macState), msg, address, old(preambleCont)) || old(StaysAdrift(msg)))
      ensures ok ==> Counted(old(macState), msg, old(preambleCont), old(pendingPreambles))
      ensures ok ==> QueueMoved(old(macState), msg, old(Ghosts()), old(txAttempts) >= maxTxAttempts)
      ensures ok ==> CallerNoted(old(macState), old(caller), msg)
      ensures (ok <==> Expected(old(macState), msg)) && (ok ==> Control() == old(Next(msg)))
    {
      hide QueueFits, FrontFits, AckFits, AnswerFits, Down, Up, Repeated, TimersFit, Expected, Next, PoppedFor,
        Strays, StaysAdrift, Adrift;
      NoDrift(msg);
      Quiet(msg);
      if Strobing(macState) {
        ok := WhileStrobing(msg);
        return;
      }
      NobodyCalled(msg);
      match macState {
        case SEND_DATA => ok := WhenSendData(msg);
        case SEND_DATA2 => ok := WhenSendData(msg);
        case WAIT_TX_DATA_OVER => ok := WhenWaitTxDataOver(msg);
        case WAIT_ACK => ok := WhenWaitAck(msg);
      }
      InStepOrAdrift(macState, sched);
    }

    /** The states in which the node sleeps, assesses the channel or receives. */
    method WhileAssessing(msg: Message) returns (ok: bool)
      requires Due(msg) && Assessing(macState)
      modifies this`macState, this`prevMacState, this`sched, this`nbRxPreambles, this`nbRxDataPackets,
               this`destDestAddrAck2, this`caller, this`again
      ensures ok ==> Moved(old(sentDown), old(sentUp), old(again), old(Down(msg)), old(Up(msg)), old(Repeated(msg)))
      ensures ok ==> Valid()
      ensures ok ==> (Adrift(macState, sched) <==>
              Strays(old(macState), msg, address, old(preambleCont)) || old(StaysAdrift(msg)))
      ensures ok ==> Counted(old(macState), msg, old(preambleCont), old(pendingPreambles))
      ensures ok ==> QueueMoved(old(macState), msg, old(Ghosts()), old(txAttempts) >= maxTxAttempts)
      ensures ok ==> CallerNoted(old(macState), old(caller), msg)
      ensures (ok <==> Expected(old(macState), msg)) && (ok ==> Control() == old(Next(msg)))
    {
      hide QueueFits, FrontFits, AckFits, AnswerFits, Down, Up, Repeated, TimersFit, Expected, Next, PoppedFor,
        Strays, StaysAdrift, Adrift, CallerNoted;
      NoDrift(msg);
      Quiet(msg);
      match macState {
        case CCA => ok := WhenCca(msg);
        case CCA_LOST => ok := WhenCcaLost(msg);
      }
      InStepOrAdrift(macState, sched);
    }

    method WhileCompeting(msg: Message) returns (ok: bool)
      requires Due(msg) && macState == CCA2
      modifies this
      ensures ok ==> Moved(old(sentDown), old(sentUp), old(again), old(Down(msg)), old(Up(msg)), old(Repeated(msg)))
      ensures ok ==> Valid()
      ensures ok ==> (Adrift(macState, sched) <==>
              Strays(old(macState), msg, address, old(preambleCont)) || old(StaysAdrift(msg)))
      ensures ok ==> Counted(old(macState), msg, old(preambleCont), old(pendingPreambles))
      ensures ok ==> QueueMoved(old(macState), msg, old(Ghosts()), old(txAttempts) >= maxTxAttempts)
      ensures ok ==> CallerNoted(old(macState), old(caller), msg)
      ensures (ok <==> Expected(old(macState), msg)) && (ok ==> Control() == old(Next(msg)))
    {
      hide QueueFits, FrontFits, AckFits, AnswerFits, Down, Up, Repeated, TimersFit, Expected, Next, PoppedFor,
        Strays, StaysAdrift, Adrift;
      NoDrift(msg);
      Quiet(msg);
      NobodyCalled(msg);
      ok := WhenCca2(msg);
      InStepOrAdrift(macState, sched);
    }

    method WhileListening(msg: Message) returns (ok: bool)
      requires Due(msg) && !Sending(macState) && !Replying(macState)
      modifies this
      ensures ok ==> Moved(old(sentDown), old(sentUp), old(again), old(Down(msg)), old(Up(msg)), old(Repeated(msg)))
      ensures ok ==> Valid()
      ensures ok ==> (Adrift(macState, sched) <==>
              Strays(old(macState), msg, address, old(preambleCont)) || old(StaysAdrift(msg)))
      ensures ok ==> Counted(old(macState), msg, old(preambleCont), old(pendingPreambles))
      ensures ok ==> QueueMoved(old(macState), msg, old(Ghosts()), old(txAttempts) >= maxTxAttempts)
      ensures ok ==> CallerNoted(old(macState), old(caller), msg)
      ensures (ok <==> Expected(old(macState), msg)) && (ok ==> Control() == old(Next(msg)))
    {
      hide QueueFits, FrontFits, AckFits, AnswerFits, Down, Up, Repeated, TimersFit, Expected, Next, PoppedFor,
        Strays, StaysAdrift, Adrift;
      NoDrift(msg);
      Quiet(msg);
      if macState == INIT || macState == SLEEP { NobodyCalled(msg); }
      if Assessing(macState) {
        ok := WhileAssessing(msg);
        return;
      }
      if macState == CCA2 {
        ok := WhileCompeting(msg);
        return;
      }
      match macState {
        case INIT => ok := WhenInit(msg);
        case SLEEP => ok := WhenSleep(msg);
        case WAIT_DATA => ok := WhenWaitData(msg);
      }
      InStepOrAdrift(macState, sched);
    }

    /** The states in which an acknowledgement or an answer to a preamble is sent. */
    method WhileReplying(msg: Message) returns (ok: bool)
      requires Due(msg) && Replying(macState)
      modifies this
      ensures ok ==> Moved(old(sentDown), old(sentUp), old(again), old(Down(msg)), old(Up(msg)), old(Repeated(msg)))
      ensures ok ==> Valid()
      ensures ok ==> (Adrift(macState, sched) <==>
              Strays(old(macState), msg, address, old(preambleCont)) || old(StaysAdrift(msg)))
      ensures ok ==> Counted(old(macState), msg, old(preambleCont), old(pendingPreambles))
      ensures ok ==> QueueMoved(old(macState), msg, old(Ghosts()), old(txAttempts) >= maxTxAttempts)
      ensures ok ==> CallerNoted(old(macState), old(caller), msg)
      ensures (ok <==> Expected(old(macState), msg)) && (ok ==> Control() == old(Next(msg)))
    {
      hide QueueFits, FrontFits, AckFits, AnswerFits, Down, Up, Repeated, TimersFit, Expected, Next, PoppedFor,
        Strays, StaysAdrift, Adrift;
      NoDrift(msg);
      Quiet(msg);
      NobodyCalled(msg);
      if macState == SEND_ACK || macState == WAIT_ACK_TX { ok := WhenAcking(msg); } else { ok := WhenAnswering(msg); }
      InStepOrAdrift(macState, sched);
    }

    /**
     * A scheduled message is due: it leaves the schedule and is handled. The
     * seven guarding timers never surprise, but for a preamble on the air.
     */
    method Fire(t: Timer) returns (ok: bool)
      requires Valid() && t in sched
      modifies this
      ensures ok ==> InStep() && Control() == old(Next(Fires(t)))
      ensures ok ==> Moved(old(sentDown), old(sentUp), old(again), old(Down(Fires(t))), old(Up(Fires(t))),
              old(Repeated(Fires(t))))
      ensures ok ==> QueueMoved(old(macState), Fires(t), old(Ghosts()), old(txAttempts) >= maxTxAttempts)
      ensures ok ==> CallerNoted(old(macState), old(caller), Fires(t))
      ensures ok ==> Counted(old(macState), Fires(t), old(preambleCont), old(pendingPreambles))
      ensures ok ==> forall to :: to == macState <==> old(Enters(Fires(t), to))
      ensures ok && Sending(old(macState)) && !Sending(macState) ==> FrontLeft(old(Ghosts()))
      ensures (ok <==> Expected(old(macState), Fires(t))) && (Guard(t) ==> (!ok <==> Premature(old(macState), t)))
    {
      hide QueueFits, FrontFits, AckFits, AnswerFits, Down, Up, Repeated, Expected, Next, PoppedFor, QueueMoved, Enters,
        FrontLeft, CallerNoted, Counted, Moved, TimersFit, Adrift, Outrun;
      if Guard(t) { GuardsExpected(macState, sched, t); }
      Cancel(t);
      assert sched + {t} == old(sched);
      assert forall to :: Enters(Fires(t), to) == old(Enters(Fires(t), to));
      NotOutrun(t);
      ok := HandleSelfMessage(Fires(t), false);
    }

    lemma NotOutrun(t: Timer)
      ensures !Outrun(Fires(t))
    {
    }

    /** A frame kept by an earlier state is handled again. */
    method HandleAgain(receiving: bool, late: bool) returns (ok: bool)
      requires Valid() && again != []
      modifies this
      ensures (ok <==> Expected(old(macState), Arrives(old(again)[0], late)))
              && (ok ==> Control() == old(Next(Arrives(again[0], late))))
      ensures ok ==> Moved(old(sentDown), old(sentUp), old(again)[1..], old(Down(Arrives(again[0], late))),
              old(Up(Arrives(again[0], late))), old(Repeated(Arrives(again[0], late))))
      ensures ok ==> Valid()
      ensures ok ==> (Adrift(macState, sched) <==>
              Strays(old(macState), Arrives(old(again)[0], late), address, old(preambleCont))
              || old(StaysAdrift(Arrives(again[0], late))))
      ensures ok ==> CallerNoted(old(macState), old(caller), Arrives(old(again)[0], late))
      ensures ok ==> Counted(old(macState), Arrives(old(again)[0], late), old(preambleCont),
              old(Noted(Arrives(again[0], late), receiving)))
      ensures ok ==> forall to :: to == macState <==> old(Enters(Arrives(again[0], late), to))
      ensures ok && Sending(old(macState)) && !Sending(macState) ==>
              old(Outrun(Arrives(again[0], late))) || FrontLeft(old(Ghosts()))
      ensures ok ==>
              QueueMoved(old(macState), Arrives(old(again)[0], late), old(Ghosts()), old(txAttempts) >= maxTxAttempts)
    {
      hide QueueFits, FrontFits, AckFits, AnswerFits, Down, Up, Repeated, Expected, Next, PoppedFor, QueueMoved,
        TimersFit, Enters, FrontLeft, CallerNoted, Counted, Moved, Outrun;
      var p := again[0];
      again := again[1..];
      assert forall to :: Enters(Arrives(p, late), to) == old(Enters(Arrives(again[0], late), to));
      ok := HandleSelfMessage(Arrives(p, late), receiving);
    }

    /** A frame from the radio; damaged ones are dropped. */
    method HandleLowerPacket(p: Packet, bitError: bool, receiving: bool, late: bool) returns (ok: bool)
      requires Valid()
      modifies this
      ensures bitError ==> ok && Valid() && unchanged(this)
      ensures ok && !bitError ==> Valid() && Control() == old(Next(Arrives(p, late)))
      ensures !bitError ==> (ok <==> Expected(old(macState), Arrives(p, late)))
      ensures ok && !bitError ==>
              (Adrift(macState, sched) <==>
              Strays(old(macState), Arrives(p, late), address, old(preambleCont)) || old(StaysAdrift(Arrives(p, late))))
      ensures ok && !bitError ==>
              Moved(old(sentDown), old(sentUp), old(again), old(Down(Arrives(p, late))), old(Up(Arrives(p, late))),
              old(Repeated(Arrives(p, late))))
      ensures ok && !bitError ==>
              QueueMoved(old(macState), Arrives(p, late), old(Ghosts()), old(txAttempts) >= maxTxAttempts)
      ensures ok && !bitError ==> CallerNoted(old(macState), old(caller), Arrives(p, late))
      ensures ok && !bitError ==>
              Counted(old(macState), Arrives(p, late), old(preambleCont), old(Noted(Arrives(p, late), receiving)))
      ensures ok && !bitError ==> forall to :: to == macState <==> old(Enters(Arrives(p, late), to))
      ensures ok && !bitError && Sending(old(macState)) && !Sending(macState) ==>
              old(Outrun(Arrives(p, late))) || FrontLeft(old(Ghosts()))
    {
      hide QueueFits, FrontFits, AckFits, AnswerFits, Down, Up, Repeated, Expected, Next, PoppedFor, QueueMoved,
        TimersFit, Enters, FrontLeft, CallerNoted, Counted, Moved, Outrun;
      ok := true;
      if bitError { return; }
      ok := HandleSelfMessage(Arrives(p, late), receiving);
    }

    /** Preambles as this layer sends them, to all, never stray: then every frame keeps timers and queue in order. */
    lemma BroadcastNeverStrays(st: State, p: Packet, late: bool, count: int)
      requires p.kind == Preamble ==> p.dest == Broadcast
      ensures !Strays(st, Arrives(p, late), address, count)
    {
    }

    /** Takes a packet from the network layer, unless the queue is full; a sleeping node is woken sooner. */
    method HandleUpperPacket(dest: Address) returns (added: bool)
      requires Valid()
      modifies this`macQueue, this`accepted, this`nbDroppedDataPackets, this`sched
      ensures Valid() && macState == old(macState) && sched == old(sched)
      ensures removed == old(removed) && transmissions == old(transmissions)
      ensures added <==> |old(macQueue)| < queueLength
      ensures added ==> accepted == old(accepted) + [Packet(Other, address, dest, [dest], 0)]
      ensures !added ==> accepted == old(accepted) && nbDroppedDataPackets == old(nbDroppedDataPackets) + 1
    {
      added := AddToQueue(dest);
      if !added { return; }
      if Wakeup in sched && macState == SLEEP {
        Cancel(Wakeup);
        Schedule(Wakeup);
      }
    }

    method AddToQueue(dest: Address) returns (added: bool)
      requires QueueFits() && FrontFits()
      modifies this`macQueue, this`accepted, this`nbDroppedDataPackets
      ensures QueueFits() && FrontFits()
      ensures added <==> |old(macQueue)| < queueLength
      ensures added ==> accepted == old(accepted) + [Packet(Other, address, dest, [dest], 0)]
      ensures !added ==>
                accepted == old(accepted) && macQueue == old(macQueue)
                && nbDroppedDataPackets == old(nbDroppedDataPackets) + 1
    {
      if |macQueue| >= queueLength {
        nbDroppedDataPackets := nbDroppedDataPackets + 1;
        return false;
      }
      var p := Packet(Other, address, dest, [dest], 0);
      macQueue := macQueue + [p];
      accepted := accepted + [p];
      return true;
    }

    /** The message with which the layer reacts to the radio having switched, or having sent a frame. */
    function Reaction(switched: bool): set<Timer>
      reads this`macState
    {
      if switched then
        match macState
        case WAIT_TX_DATA_OVER => {DataTxOver}
        case WAIT_ACK_TX => {AckTxOver}
        case WAIT_ACK2_TX => {Ack2TxOver}
        case SEND_PREAMBLE_TX_END => {PreambleTxOver}
        case _ => {}
      else
        match macState
        case SEND_PREAMBLE => {SendPreamble}
        case SEND_ACK2 => {SendAck2}
        case SEND_ACK => {SendAck}
        case SEND_DATA => {ResendData}
        case SEND_DATA2 => {ResendData}
        case _ => {}
    }

    /** A signal of the radio; a reaction that is scheduled already ends the run. */
    method ReceiveSignal(switched: bool) returns (ok: bool)
      requires Valid()
      modifies this`sched
      ensures ok <==> Reaction(switched) !! old(sched)
      ensures ok ==> Valid() && (Adrift(macState, sched) <==> old(Adrift(macState, sched)))
      ensures ok ==> sched == old(sched) + Reaction(switched)
    {
      hide QueueFits, FrontFits, AckFits, AnswerFits, TimersFit, Adrift;
      ok := true;
      if switched {
        if macState == WAIT_TX_DATA_OVER {
          ok := React(DataTxOver);
        } else if macState == WAIT_ACK_TX {
          ok := React(AckTxOver);
        } else if macState == WAIT_ACK2_TX {
          ok := React(Ack2TxOver);
        } else if macState == SEND_PREAMBLE_TX_END {
          ok := React(PreambleTxOver);
        }
      } else {
        if macState == SEND_PREAMBLE { ok := React(SendPreamble); }
        if macState == SEND_ACK2 {
          ok := React(SendAck2);
        } else if macState == SEND_ACK {
          ok := React(SendAck);
        } else if macState == SEND_DATA {
          ok := React(ResendData);
        } else if macState == SEND_DATA2 {
          ok := React(ResendData);
        }
      }
    }

    method React(t: Timer) returns (ok: bool)
      requires !Guard(t) && TimersHold(macState, sched)
      modifies this`sched
      ensures ok <==> t !in old(sched)
      ensures sched == old(sched) + {t} && TimersHold(macState, sched)
      ensures Adrift(macState, sched) <==> old(Adrift(macState, sched))
    {
      hide TimersFit, Adrift;
      Unguarded(macState, sched, t);
      ok := t !in sched;
      if ok { Schedule(t); } else { assert sched == sched + {t}; }
    }

    /**
     * The answer to a preamble reaches the station that sent it if and only if this one competed for answering. A
     * station that answers at once, or gives up its own preambles for one addressed to it, answers nobody in
     * particular.
     */
    lemma AnswerReachesCaller()
      requires Valid() && macState == SEND_ACK2
      ensures Down(Fires(SendAck2)) == [Packet(Ack2, address, destDestAddrAck2, [], 0)]
      ensures destDestAddrAck2 == caller <==> prevMacState == CCA2 || caller == Unspecified
      ensures destDestAddrAck2 != caller ==> destDestAddrAck2 == Unspecified
    {
    }

    /**
     * In a run, the packets accepted are those that left, in their order, and then
     * the queue; all that left were sent.
     */
    lemma FirstInFirstOut(k: nat)
      requires Valid() && k < |removed|
      ensures accepted == removed + macQueue && removed[k] == accepted[k] && k in transmissions
    {
    }
  }
}
