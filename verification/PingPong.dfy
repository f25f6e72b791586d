/** The ping-pong topology (src/topology/ping_pong.rs, section 5.8 of draft-irtf-cfrg-vdaf-08) and
    the broadcast run of src/vdaf.rs, for an arbitrary two-party VDAF. */
module PingPong {
  import opened Wrappers

  type Bytes = seq<bv8>

  datatype VdafError = VdafError(code: int)

  datatype PrepareTransition<S, H, O> = Continue(state: S, share: H) | Finish(output: O)

  /** The preparation interface of a VDAF, for one report: states S, prepare shares H, prepare
      messages M and output shares O. `init` takes the aggregator's identifier. */
  datatype Vdaf<!S, !H, !M, !O> = Vdaf(
    init: nat -> Result<(S, H), VdafError>,
    combine: (H, H) -> Result<M, VdafError>,
    next: (S, M) -> Result<PrepareTransition<S, H, O>, VdafError>,
    encodeShare: H -> Result<Bytes, VdafError>, decodeShare: (S, Bytes) -> Result<H, VdafError>,
    encodeMessage: M -> Result<Bytes, VdafError>, decodeMessage: (S, Bytes) -> Result<M, VdafError>)

  datatype PingPongMessage =
    | Initialize(prepShare: Bytes)
    | ContinueMsg(prepMsg: Bytes, prepShare: Bytes)
    | FinishMsg(prepMsg: Bytes)

  datatype PingPongError =
    | PrepareInit(e: VdafError) | Combine(e: VdafError) | PrepareNext(e: VdafError)
    | CodecShare(e: VdafError) | CodecMessage(e: VdafError)
    | HostStateMismatch | PeerMessageMismatch

  datatype PingPongState<S, O> = Continued(state: S) | Finished(output: O)

  datatype PingPongTransition<S, M> = PingPongTransition(previousState: S, currentMessage: M)

  datatype ContinuedValue<S, M, O> = WithMessage(transition: PingPongTransition<S, M>) | FinishedNoMessage(output: O)

  // ------------------------------------------------------------------ the topology

  /** `PingPongTransition::evaluate`. */
  function Evaluate<S, H, M, O>(v: Vdaf<S, H, M, O>, t: PingPongTransition<S, M>)
    : Result<(PingPongState<S, O>, PingPongMessage), PingPongError>
  {
    match v.encodeMessage(t.currentMessage)
    case Failure(e) => Failure(CodecMessage(e))
    case Success(prepMsg) =>
      match v.next(t.previousState, t.currentMessage)
      case Failure(e) => Failure(PrepareNext(e))
      case Success(Finish(out)) => Success((Finished(out), FinishMsg(prepMsg)))
      case Success(Continue(state, share)) =>
        match v.encodeShare(share)
        case Failure(e) => Failure(CodecShare(e))
        case Success(prepShare) => Success((Continued(state), ContinueMsg(prepMsg, prepShare)))
  }

  /** `leader_initialized`. */
  function LeaderInitialized<S, H, M, O>(v: Vdaf<S, H, M, O>): Result<(PingPongState<S, O>, PingPongMessage), PingPongError> {
    match v.init(0)
    case Failure(e) => Failure(PrepareInit(e))
    case Success((state, share)) =>
      match v.encodeShare(share)
      case Failure(e) => Failure(CodecShare(e))
      case Success(prepShare) => Success((Continued(state), Initialize(prepShare)))
  }

  /** `helper_initialized`. */
  function HelperInitialized<S, H, M, O>(v: Vdaf<S, H, M, O>, inbound: PingPongMessage): Result<PingPongTransition<S, M>, PingPongError> {
    match v.init(1)
    case Failure(e) => Failure(PrepareInit(e))
    case Success((state, share)) =>
      if !inbound.Initialize? then Failure(PeerMessageMismatch)
      else
        match v.decodeShare(state, inbound.prepShare)
        case Failure(e) => Failure(CodecShare(e))
        case Success(peerShare) =>
          match v.combine(peerShare, share)
          case Failure(e) => Failure(Combine(e))
          case Success(msg) => Success(PingPongTransition(state, msg))
  }

  /** `continued`: the shares are put in leader-first order before they are combined. */
  function ContinuedStep<S, H, M, O>(v: Vdaf<S, H, M, O>, isLeader: bool, host: PingPongState<S, O>, inbound: PingPongMessage)
    : Result<ContinuedValue<S, M, O>, PingPongError>
  {
    if host.Finished? then Failure(HostStateMismatch)
    else if inbound.Initialize? then Failure(PeerMessageMismatch)
    else
      match v.decodeMessage(host.state, inbound.prepMsg)
      case Failure(e) => Failure(CodecMessage(e))
      case Success(msg) =>
        match v.next(host.state, msg)
        case Failure(e) => Failure(PrepareNext(e))
        case Success(Finish(out)) => if inbound.FinishMsg? then Success(FinishedNoMessage(out)) else Failure(PeerMessageMismatch)
        case Success(Continue(state, share)) =>
          if inbound.FinishMsg? then Failure(PeerMessageMismatch)
          else
            match v.decodeShare(state, inbound.prepShare)
            case Failure(e) => Failure(CodecShare(e))
            case Success(peerShare) =>
              var combined := if isLeader then v.combine(share, peerShare) else v.combine(peerShare, share);
              match combined
              case Failure(e) => Failure(Combine(e))
              case Success(next) => Success(WithMessage(PingPongTransition(state, next)))
  }

  /** The helper starts exactly on an initial message whose share combines with its own, the leader's first. */
  lemma {:induction false} HelperIff<S(!new), H(!new), M(!new), O(!new)>(v: Vdaf<S, H, M, O>, inbound: PingPongMessage)
    ensures HelperInitialized(v, inbound).Success?
            <==> && v.init(1).Success? && inbound.Initialize?
                 && var (state, share) := v.init(1).value;
                    && v.decodeShare(state, inbound.prepShare).Success?
                    && v.combine(v.decodeShare(state, inbound.prepShare).value, share).Success?
    ensures v.init(1).Success? && !inbound.Initialize? ==> HelperInitialized(v, inbound) == Failure(PeerMessageMismatch)
  {
  }

  /** A continued step takes a message exactly when the host has not finished, the message fits what the VDAF
      does with it (a finish message if this side finishes, a continue message if not) and, in the latter
      case, the peer's share combines with the own one, the leader's first. */
  lemma {:induction false} ContinuedIff<S(!new), H(!new), M(!new), O(!new)>(v: Vdaf<S, H, M, O>, isLeader: bool, host: PingPongState<S, O>, inbound: PingPongMessage)
    ensures ContinuedStep(v, isLeader, host, inbound).Success?
            <==> && host.Continued? && !inbound.Initialize?
                 && v.decodeMessage(host.state, inbound.prepMsg).Success?
                 && var next := v.next(host.state, v.decodeMessage(host.state, inbound.prepMsg).value);
                    && next.Success?
                    && (next.value.Finish? <==> inbound.FinishMsg?)
                    && (next.value.Continue? ==>
                          && v.decodeShare(next.value.state, inbound.prepShare).Success?
                          && var peer := v.decodeShare(next.value.state, inbound.prepShare).value;
                             (if isLeader then v.combine(next.value.share, peer) else v.combine(peer, next.value.share)).Success?)
    ensures host.Finished? ==> ContinuedStep(v, isLeader, host, inbound) == Failure(HostStateMismatch)
    ensures host.Continued? && inbound.Initialize? ==> ContinuedStep(v, isLeader, host, inbound) == Failure(PeerMessageMismatch)
  {
  }

  // ------------------------------------------------------------------ whole exchanges

  /** The end of an exchange: both outputs, how many messages were sent and whether the leader sent
      the last one. */
  datatype Exchange<O> = Done(leader: O, helper: O, messages: nat, lastFromLeader: bool) | Stuck

  /** The side `isLeader` receives `inbound`, the `sent`-th message, while its peer is in state `peer`.
      At most `limit` more messages are delivered. */
  function Deliver<S, H, M, O>(v: Vdaf<S, H, M, O>, isLeader: bool, host: PingPongState<S, O>, peer: PingPongState<S, O>,
                               inbound: PingPongMessage, sent: nat, limit: nat): Exchange<O>
    decreases limit, 0
  {
    if limit == 0 then Stuck
    else
      match ContinuedStep(v, isLeader, host, inbound)
      case Failure(_) => Stuck
      case Success(FinishedNoMessage(out)) =>
        if peer.Continued? then Stuck
        else if isLeader then Done(out, peer.output, sent, false)
        else Done(peer.output, out, sent, true)
      case Success(WithMessage(t)) => Advance(v, isLeader, t, peer, sent, limit - 1)
  }

  /** The side `isLeader` evaluates its transition and sends the message to its peer. */
  function Advance<S, H, M, O>(v: Vdaf<S, H, M, O>, isLeader: bool, t: PingPongTransition<S, M>, peer: PingPongState<S, O>,
                               sent: nat, limit: nat): Exchange<O>
    decreases limit, 1
  {
    match Evaluate(v, t)
    case Failure(_) => Stuck
    case Success((state, msg)) => Deliver(v, !isLeader, peer, state, msg, sent + 1, limit)
  }

  /** The alternating exchange, opened by the leader. */
  function PingPongRun<S, H, M, O>(v: Vdaf<S, H, M, O>, limit: nat): Exchange<O> {
    match LeaderInitialized(v)
    case Failure(_) => Stuck
    case Success((leader, first)) =>
      match HelperInitialized(v, first)
      case Failure(_) => Stuck
      case Success(t) => Advance(v, false, t, leader, 1, limit)
  }

  // ------------------------------------------------------------------ the broadcast run

  /** The outcome of a broadcast run: both outputs and the number of rounds. */
  datatype Outcome<O> = Outputs(leader: O, helper: O, rounds: nat) | NoOutput

  /** The share as the other side decodes it with the leader's state. */
  function Relay<S, H, M, O>(v: Vdaf<S, H, M, O>, state: S, share: H): Result<H, VdafError> {
    match v.encodeShare(share)
    case Failure(e) => Failure(e)
    case Success(bytes) => v.decodeShare(state, bytes)
  }

  /** Both encoded shares, decoded with the leader's state and combined. */
  function CombineRelayed<S, H, M, O>(v: Vdaf<S, H, M, O>, state0: S, share0: H, share1: H): Result<M, VdafError> {
    match (Relay(v, state0, share0), Relay(v, state0, share1))
    case (Success(a), Success(b)) => v.combine(a, b)
    case (Failure(e), _) => Failure(e)
    case (_, Failure(e)) => Failure(e)
  }

  /** `prepare_next` on the encoded message. */
  function NextRelayed<S, H, M, O>(v: Vdaf<S, H, M, O>, state: S, msg: M): Result<PrepareTransition<S, H, O>, VdafError> {
    match v.encodeMessage(msg)
    case Failure(e) => Failure(e)
    case Success(bytes) =>
      match v.decodeMessage(state, bytes)
      case Failure(e) => Failure(e)
      case Success(m) => v.next(state, m)
  }

  /** The loop of `run_vdaf_prepare`, after `done` rounds, for at most `limit` more. */
  function BroadcastLoop<S, H, M, O>(v: Vdaf<S, H, M, O>, state0: S, state1: S, msg: M, done: nat, limit: nat): Outcome<O>
    decreases limit
  {
    if limit == 0 then NoOutput
    else
      match (NextRelayed(v, state0, msg), NextRelayed(v, state1, msg))
      case (Success(Finish(a)), Success(Finish(b))) => Outputs(a, b, done + 1)
      case (Success(Continue(s0, h0)), Success(Continue(s1, h1))) =>
        (match CombineRelayed(v, s0, h0, h1)
         case Failure(_) => NoOutput
         case Success(next) => BroadcastLoop(v, s0, s1, next, done + 1, limit - 1))
      case _ => NoOutput
  }

  /** `run_vdaf_prepare` for two aggregators. */
  function BroadcastRun<S, H, M, O>(v: Vdaf<S, H, M, O>, limit: nat): Outcome<O> {
    match (v.init(0), v.init(1))
    case (Success((s0, h0)), Success((s1, h1))) =>
      (match CombineRelayed(v, s0, h0, h1)
       case Failure(_) => NoOutput
       case Success(msg) => BroadcastLoop(v, s0, s1, msg, 0, limit))
    case _ => NoOutput
  }

  // ------------------------------------------------------------------ refinement

  /** Codecs that round-trip within a round: states, shares and messages carry the round they belong
      to, and decoding with a state of the same round undoes encoding. */
  datatype Stages<!S, !H, !M> = Stages(state: S -> nat, share: H -> nat, message: M -> nat)

  ghost predicate Lossless<S(!new), H(!new), M(!new), O(!new)>(v: Vdaf<S, H, M, O>, g: Stages<S, H, M>) {
    && (forall h :: v.encodeShare(h).Success?)
    && (forall m :: v.encodeMessage(m).Success?)
    && (forall s, h :: g.state(s) == g.share(h) ==> v.decodeShare(s, v.encodeShare(h).value) == Success(h))
    && (forall s, m :: g.state(s) == g.message(m) ==> v.decodeMessage(s, v.encodeMessage(m).value) == Success(m))
  }

  /** Every step of the VDAF moves to the next round. */
  ghost predicate Staged<S(!new), H(!new), M(!new), O(!new)>(v: Vdaf<S, H, M, O>, g: Stages<S, H, M>) {
    && (forall agg :: v.init(agg).Success? ==> g.state(v.init(agg).value.0) == 0 && g.share(v.init(agg).value.1) == 0)
    && (forall a, b :: v.combine(a, b).Success? && g.share(a) == g.share(b) ==> g.message(v.combine(a, b).value) == g.share(a))
    && (forall s, m :: v.next(s, m).Success? && v.next(s, m).value.Continue? ==>
          g.state(v.next(s, m).value.state) == g.state(s) + 1 && g.share(v.next(s, m).value.share) == g.state(s) + 1)
  }

  /** Ping-pong outcome that corresponds to a broadcast outcome. */
  function AsExchange<O>(r: Outcome<O>): Exchange<O> {
    match r
    case NoOutput => Stuck
    case Outputs(a, b, rounds) => Done(a, b, rounds + 1, rounds % 2 == 0)
  }

  /** What the peer of the receiving side holds and has sent: it has taken the current message. */
  ghost predicate PeerTook<S, H, M, O>(v: Vdaf<S, H, M, O>, before: S, msg: M, peer: PingPongState<S, O>, inbound: PingPongMessage) {
    && v.encodeMessage(msg).Success?
    && v.next(before, msg).Success?
    && match v.next(before, msg).value
       case Finish(out) => peer == Finished(out) && inbound == FinishMsg(v.encodeMessage(msg).value)
       case Continue(state, share) =>
         && v.encodeShare(share).Success?
         && peer == Continued(state) && inbound == ContinueMsg(v.encodeMessage(msg).value, v.encodeShare(share).value)
  }

  /** One round of the broadcast loop, without the relays. */
  lemma {:induction false} BroadcastStep<S(!new), H(!new), M(!new), O(!new)>(
      v: Vdaf<S, H, M, O>, g: Stages<S, H, M>, s0: S, s1: S, msg: M, done: nat, limit: nat)
    requires Lossless(v, g) && Staged(v, g) && g.state(s0) == g.state(s1) == g.message(msg)
    ensures BroadcastLoop(v, s0, s1, msg, done, limit)
         == if limit == 0 then NoOutput
            else
              match (v.next(s0, msg), v.next(s1, msg))
              case (Success(Finish(a)), Success(Finish(b))) => Outputs(a, b, done + 1)
              case (Success(Continue(t0, h0)), Success(Continue(t1, h1))) =>
                (match v.combine(h0, h1)
                 case Failure(_) => NoOutput
                 case Success(next) => BroadcastLoop(v, t0, t1, next, done + 1, limit - 1))
              case _ => NoOutput
  {
    MessageRelayed(v, g, s0, msg);
    MessageRelayed(v, g, s1, msg);
    if v.next(s0, msg).Success? && v.next(s1, msg).Success? && v.next(s0, msg).value.Continue? && v.next(s1, msg).value.Continue? {
      var Continue(t0, h0) := v.next(s0, msg).value;
      var Continue(t1, h1) := v.next(s1, msg).value;
      NextStage(v, g, s0, s1, msg);
      SharesRelayed(v, g, t0, t1, h0, h1);
    }
    hide Lossless, Staged, CombineRelayed, NextRelayed;
  }

  /** Both sides continue into the same round, with shares of that round. */
  lemma {:induction false} NextStage<S(!new), H(!new), M(!new), O(!new)>(v: Vdaf<S, H, M, O>, g: Stages<S, H, M>, s0: S, s1: S, msg: M)
    requires Staged(v, g) && g.state(s0) == g.state(s1)
    requires v.next(s0, msg).Success? && v.next(s0, msg).value.Continue? && v.next(s1, msg).Success? && v.next(s1, msg).value.Continue?
    ensures var (a, b) := (v.next(s0, msg).value, v.next(s1, msg).value);
            g.state(a.state) == g.state(b.state) == g.share(a.share) == g.share(b.share)
  {
  }

  /** Delivering one message to the side that holds `own`, when its peer has taken the same message from
      the state `other`. */
  lemma {:induction false} DeliverStep<S(!new), H(!new), M(!new), O(!new)>(
      v: Vdaf<S, H, M, O>, g: Stages<S, H, M>, isLeader: bool, own: S, other: S, msg: M,
      peer: PingPongState<S, O>, inbound: PingPongMessage, sent: nat, limit: nat)
    requires Lossless(v, g) && Staged(v, g) && g.state(own) == g.state(other) == g.message(msg)
    requires PeerTook(v, other, msg, peer, inbound)
    ensures Deliver(v, isLeader, Continued(own), peer, inbound, sent, limit)
         == if limit == 0 then Stuck
            else
              match (v.next(own, msg), v.next(other, msg))
              case (Success(Finish(a)), Success(Finish(b))) => if isLeader then Done(a, b, sent, false) else Done(b, a, sent, true)
              case (Success(Continue(t, h)), Success(Continue(u, k))) =>
                (match if isLeader then v.combine(h, k) else v.combine(k, h)
                 case Failure(_) => Stuck
                 case Success(next) => Advance(v, isLeader, PingPongTransition(t, next), Continued(u), sent, limit - 1))
              case _ => Stuck
  {
    MessageRelayed(v, g, own, msg);
    if v.next(own, msg).Success? && v.next(own, msg).value.Continue? && v.next(other, msg).value.Continue? {
      NextStage(v, g, own, other, msg);
      SharesRelayed(v, g, v.next(own, msg).value.state, v.next(other, msg).value.state, v.next(own, msg).value.share, v.next(other, msg).value.share);
    }
    hide Lossless, Staged, NextRelayed, CombineRelayed, Advance;
  }

  /** From any point of an exchange: delivering the rest is running the rest of the broadcast loop. */
  lemma {:induction false} DeliverRefines<S(!new), H(!new), M(!new), O(!new)>(
      v: Vdaf<S, H, M, O>, g: Stages<S, H, M>, isLeader: bool, s0: S, s1: S, msg: M,
      peer: PingPongState<S, O>, inbound: PingPongMessage, done: nat, limit: nat)
    requires Lossless(v, g) && Staged(v, g)
    requires g.state(s0) == g.state(s1) == g.message(msg)
    requires PeerTook(v, if isLeader then s1 else s0, msg, peer, inbound) && isLeader == (done % 2 == 0)
    ensures Deliver(v, isLeader, Continued(if isLeader then s0 else s1), peer, inbound, done + 2, limit)
         == AsExchange(BroadcastLoop(v, s0, s1, msg, done, limit))
    decreases limit, 0
  {
    hide Lossless, Staged, PeerTook, Deliver, BroadcastLoop, Advance;
    BroadcastStep(v, g, s0, s1, msg, done, limit);
    DeliverStep(v, g, isLeader, if isLeader then s0 else s1, if isLeader then s1 else s0, msg, peer, inbound, done + 2, limit);
    if limit > 0 && v.next(s0, msg).Success? && v.next(s1, msg).Success? && v.next(s0, msg).value.Continue? && v.next(s1, msg).value.Continue? {
      RoundRefines(v, g, isLeader, s0, s1, msg, done, limit);
    }
  }

  /** When both sides continue, and the messages of the next round combine. */
  lemma {:induction false} RoundRefines<S(!new), H(!new), M(!new), O(!new)>(
      v: Vdaf<S, H, M, O>, g: Stages<S, H, M>, isLeader: bool, s0: S, s1: S, msg: M, done: nat, limit: nat)
    requires Lossless(v, g) && Staged(v, g) && limit > 0 && isLeader == (done % 2 == 0)
    requires g.state(s0) == g.state(s1) == g.message(msg)
    requires v.next(s0, msg).Success? && v.next(s1, msg).Success? && v.next(s0, msg).value.Continue? && v.next(s1, msg).value.Continue?
    ensures var Continue(t0, h0), Continue(t1, h1) := v.next(s0, msg).value, v.next(s1, msg).value;
            v.combine(h0, h1).Success? ==>
              var next := v.combine(h0, h1).value;
              Advance(v, isLeader, PingPongTransition(if isLeader then t0 else t1, next), Continued(if isLeader then t1 else t0), done + 2, limit - 1)
              == AsExchange(BroadcastLoop(v, t0, t1, next, done + 1, limit - 1))
    decreases limit - 1, 2
  {
    hide Lossless, Staged, PeerTook, Deliver, BroadcastLoop, Advance;
    var Continue(t0, h0) := v.next(s0, msg).value;
    var Continue(t1, h1) := v.next(s1, msg).value;
    NextStage(v, g, s0, s1, msg);
    SharesRelayed(v, g, t0, t1, h0, h1);
    if v.combine(h0, h1).Success? {
      AdvanceRefines(v, g, isLeader, t0, t1, v.combine(h0, h1).value, done + 1, limit - 1);
    }
  }

  /** A side that has just combined a message, and sends it on, continues the broadcast loop. */
  lemma {:induction false} AdvanceRefines<S(!new), H(!new), M(!new), O(!new)>(
      v: Vdaf<S, H, M, O>, g: Stages<S, H, M>, isLeader: bool, t0: S, t1: S, next: M, done: nat, limit: nat)
    requires Lossless(v, g) && Staged(v, g) && isLeader == (done % 2 == 1)
    requires g.state(t0) == g.state(t1) == g.message(next)
    ensures Advance(v, isLeader, PingPongTransition(if isLeader then t0 else t1, next), Continued(if isLeader then t1 else t0), done + 1, limit)
         == AsExchange(BroadcastLoop(v, t0, t1, next, done, limit))
    decreases limit, 1
  {
    var own := if isLeader then t0 else t1;
    MessageRelayed(v, g, own, next);
    EvaluateTakes(v, g, own, next);
    hide Lossless, Staged, Evaluate, PeerTook, Deliver, NextRelayed, CombineRelayed;
    var e := Evaluate(v, PingPongTransition(own, next));
    if e.Success? {
      DeliverRefines(v, g, !isLeader, t0, t1, next, e.value.0, e.value.1, done, limit);
    }
  }

  /** Evaluation fails only when taking the message fails, and otherwise leaves the peer invariant. */
  lemma {:induction false} EvaluateTakes<S(!new), H(!new), M(!new), O(!new)>(v: Vdaf<S, H, M, O>, g: Stages<S, H, M>, own: S, next: M)
    requires Lossless(v, g)
    ensures var e := Evaluate(v, PingPongTransition(own, next));
            if e.Success? then PeerTook(v, own, next, e.value.0, e.value.1) else v.next(own, next).Failure?
  {
  }

  lemma {:induction false} MessageRelayed<S(!new), H(!new), M(!new), O(!new)>(v: Vdaf<S, H, M, O>, g: Stages<S, H, M>, s: S, msg: M)
    requires Lossless(v, g) && g.state(s) == g.message(msg)
    ensures v.encodeMessage(msg).Success? && v.decodeMessage(s, v.encodeMessage(msg).value) == Success(msg)
    ensures NextRelayed(v, s, msg) == v.next(s, msg)
  {
  }

  lemma {:induction false} SharesRelayed<S(!new), H(!new), M(!new), O(!new)>(
      v: Vdaf<S, H, M, O>, g: Stages<S, H, M>, t0: S, t1: S, h0: H, h1: H)
    requires Lossless(v, g) && Staged(v, g) && g.state(t0) == g.state(t1) == g.share(h0) == g.share(h1)
    ensures v.encodeShare(h0).Success? && v.encodeShare(h1).Success?
    ensures CombineRelayed(v, t0, h0, h1) == v.combine(h0, h1)
    ensures v.decodeShare(t0, v.encodeShare(h1).value) == Success(h1)
    ensures v.decodeShare(t1, v.encodeShare(h0).value) == Success(h0)
    ensures v.combine(h0, h1).Success? ==> g.message(v.combine(h0, h1).value) == g.state(t0)
  {
  }

  /** Refinement: for every VDAF with round-tripping codecs, the alternating exchange ends with
      outputs exactly when the broadcast run does, with the same outputs, after one message per round
      and the opening one; the last message comes from the leader exactly when the number of rounds
      is even. */
  lemma {:induction false} PingPongRefinesBroadcast<S(!new), H(!new), M(!new), O(!new)>(v: Vdaf<S, H, M, O>, g: Stages<S, H, M>, limit: nat)
    requires Lossless(v, g) && Staged(v, g)
    ensures PingPongRun(v, limit) == AsExchange(BroadcastRun(v, limit))
  {
    if v.init(0).Success? && v.init(1).Success? {
      var (s0, h0) := v.init(0).value;
      var (s1, h1) := v.init(1).value;
      SharesRelayed(v, g, s0, s1, h0, h1);
      if v.combine(h0, h1).Success? {
        AdvanceRefines(v, g, false, s0, s1, v.combine(h0, h1).value, 0, limit);
      }
    }
    hide Advance, BroadcastLoop, CombineRelayed;
  }
}
