/**
  The joiner's heartbeat tick: the ack buffer, the roster-loss guard, and the re-register that
  a 404 starts. Executed commands, received ids and settled acks are histories of the model.
*/
module Heartbeat {

  import opened Prelude
  import opened Commands

  datatype Attempt = Registered(peerId: nat) | Status409 | OtherError

  /** What the coordinator answers to one heartbeat. */
  datatype Reply =
    | Alive(commands: seq<Command>, now: int, saves: seq<bool>)
    | NotFound(sticky: Attempt, free: Attempt)
    | Failed

  /** How an ack left the buffer. */
  datatype How = Carried | LostAt404 | LostAtRestart

  datatype Settled = Settled(how: How, id: nat)

  datatype Mark = Success | ReRegister | Restarted

  datatype Config = Config(key: Option<Bytes>, verify: Verifier, strictUla: bool)

  datatype Joiner = Joiner(
    gate: Gate,
    pending: seq<nat>,          // acks to send with the next heartbeat
    handlingRosterLoss: bool,
    peerId: nat,
    received: seq<nat>,         // history: ids of all commands received
    settled: seq<Settled>,      // history: acks that left the buffer
    marks: seq<Mark>)           // history: successes, re-registers, restarts

  function Settle(ids: seq<nat>, how: How): seq<Settled> {
    seq(|ids|, i requires 0 <= i < |ids| => Settled(how, ids[i]))
  }

  /** One retry without the requested address, unless the address is a strict one. */
  function RegisterWithFallback(strict: bool, sticky: Attempt, free: Attempt): Option<nat> {
    match sticky
    case Registered(id) => Some(id)
    case Status409 => if !strict && free.Registered? then Some(free.peerId) else None
    case OtherError => None
  }

  predicate Fits(r: Reply) { r.Alive? ==> |r.saves| == |r.commands| }

  function Tick(c: Config, j: Joiner, r: Reply): Joiner
    requires Fits(r)
  {
    match r
    case Alive(commands, now, saves) =>
      j.(gate := Process(c.key, c.verify, j.gate, commands, now, saves),
         pending := Ids(commands),
         handlingRosterLoss := false,
         received := j.received + Ids(commands),
         settled := j.settled + Settle(j.pending, Carried),
         marks := j.marks + [Success])
    case NotFound(sticky, free) =>
      var lost := j.(pending := [], settled := j.settled + Settle(j.pending, LostAt404));
      if j.handlingRosterLoss then lost
      else
        var id := RegisterWithFallback(c.strictUla, sticky, free);
        lost.(handlingRosterLoss := true,
              peerId := if id.Some? then id.value else j.peerId,
              marks := j.marks + [ReRegister])
    case Failed => j
  }

  /** The process ends and starts again as `peerId`; buffered acks are gone. */
  function Reboot(j: Joiner, peerId: nat): Joiner {
    j.(gate := Restart(j.gate),
       pending := [],
       handlingRosterLoss := false,
       peerId := peerId,
       settled := j.settled + Settle(j.pending, LostAtRestart),
       marks := j.marks + [Restarted])
  }

  class HeartbeatLoop {
    const config: Config
    const gate: CommandGate
    var pendingAcks: seq<nat>
    var handlingRosterLoss: bool
    var peerId: nat
    var received: seq<nat>
    var settled: seq<Settled>
    var marks: seq<Mark>

    ghost predicate Valid()
      reads this, gate
    {
      gate.superAdminPubkey == config.key && gate.verify == config.verify
    }

    ghost function View(): Joiner
      reads this, gate
    {
      Joiner(gate.View(), pendingAcks, handlingRosterLoss, peerId, received, settled, marks)
    }

    constructor (config: Config, gate: CommandGate, peerId: nat)
      requires gate.superAdminPubkey == config.key && gate.verify == config.verify
      ensures Valid() && this.config == config && this.gate == gate
      ensures View() == Joiner(gate.View(), [], false, peerId, [], [], [])
    {
      this.config, this.gate, this.peerId := config, gate, peerId;
      pendingAcks, handlingRosterLoss := [], false;
      received, settled, marks := [], [], [];
    }

    method TickOnce(r: Reply)
      requires Valid() && Fits(r)
      modifies this, gate
      ensures Valid() && View() == Tick(config, old(View()), r)
    {
      var sending := pendingAcks;
      pendingAcks := [];
      match r {
        case Alive(commands, now, saves) =>
          handlingRosterLoss := false;
          settled := settled + Settle(sending, Carried);
          received := received + Ids(commands);
          marks := marks + [Success];
          if commands != [] {
            var acks := gate.ProcessCommands(commands, now, saves);
            pendingAcks := acks;
          }
        case NotFound(sticky, free) =>
          settled := settled + Settle(sending, LostAt404);
          if handlingRosterLoss {
            return;
          }
          handlingRosterLoss := true;
          marks := marks + [ReRegister];
          var id := RegisterWithFallback(config.strictUla, sticky, free);
          if id.Some? {
            peerId := id.value;
          }
        case Failed =>
          if sending != [] {
            pendingAcks := sending;
          }
      }
    }
  }

  // ---------------------------------------------------------------- runs

  datatype Op =
    | OpTick(reply: Reply)
    | OpRestart(peerId: nat)
    | OpDie(commands: seq<Command>, now: int, saves: seq<bool>, last: Command, peerId: nat)

  predicate Enabled(op: Op) {
    && (op.OpTick? ==> Fits(op.reply))
    && (op.OpDie? ==> |op.saves| == |op.commands|)
  }

  /** The gate when the process dies inside a batch, after executing `last` and before recording it. */
  function Died(c: Config, g: Gate, op: Op): Gate
    requires op.OpDie? && Enabled(op)
  {
    var g' := Process(c.key, c.verify, g, op.commands, op.now, op.saves);
    if Evaluate(c.key, c.verify, g'.nonces, op.last, op.now).Accept? then Execute(g', op.last, op.now) else g'
  }

  /** The joiner at that point: the heartbeat got through and the batch's acks are buffered. */
  function Dying(c: Config, j: Joiner, op: Op): Joiner
    requires op.OpDie? && Enabled(op)
  {
    var j' := Tick(c, j, Alive(op.commands, op.now, op.saves));
    j'.(gate := Died(c, j.gate, op), pending := j'.pending + [op.last.id], received := j'.received + [op.last.id])
  }

  function Step(c: Config, j: Joiner, op: Op): Joiner
    requires Enabled(op)
  {
    match op
    case OpTick(reply) => Tick(c, j, reply)
    case OpRestart(peerId) => Reboot(j, peerId)
    case OpDie(_, _, _, _, peerId) => Reboot(Dying(c, j, op), peerId)
  }

  ghost predicate Reaches(c: Config, j: Joiner, ops: seq<Op>, j': Joiner)
    decreases |ops|
  {
    if ops == [] then j' == j
    else Enabled(ops[0]) && Reaches(c, Step(c, j, ops[0]), ops[1..], j')
  }

  /** Every restart finds all executed nonces in the sidecar. */
  ghost predicate DurableRestarts(c: Config, j: Joiner, ops: seq<Op>)
    decreases |ops|
  {
    ops == [] ||
    (Enabled(ops[0]) ==>
      && (ops[0].OpRestart? ==> Durable(j.gate))
      && (ops[0].OpDie? ==> Durable(Died(c, j.gate, ops[0])))
      && DurableRestarts(c, Step(c, j, ops[0]), ops[1..]))
  }

  lemma DiedOnceEach(c: Config, g: Gate, op: Op)
    requires op.OpDie? && Enabled(op) && OnceEach(c.key, c.verify, g) && Durable(Died(c, g, op))
    ensures OnceEach(c.key, c.verify, Restart(Died(c, g, op)))
  {
    ProcessOnceEach(c.key, c.verify, g, op.commands, op.now, op.saves);
    hide Process;
  }

  lemma StepOnceEach(c: Config, j: Joiner, op: Op)
    requires Enabled(op) && OnceEach(c.key, c.verify, j.gate)
    requires op.OpRestart? ==> Durable(j.gate)
    requires op.OpDie? ==> Durable(Died(c, j.gate, op))
    ensures OnceEach(c.key, c.verify, Step(c, j, op).gate)
  {
    match op
    case OpTick(reply) =>
      if reply.Alive? {
        ProcessOnceEach(c.key, c.verify, j.gate, reply.commands, reply.now, reply.saves);
        hide Process, OnceEach;
      }
    case OpRestart(_) =>
    case OpDie(_, _, _, _, _) =>
      DiedOnceEach(c, j.gate, op);
      hide OnceEach, Died;
  }

  /**
    Over any run of ticks and restarts whose restarts are durable, every executed verb belongs
    to a command that verified under the configured key and had not expired, and no nonce ran
    twice, however often its command was delivered.
  */
  lemma {:induction false} AtMostOnce(c: Config, j: Joiner, ops: seq<Op>, j': Joiner)
    requires OnceEach(c.key, c.verify, j.gate) && Reaches(c, j, ops, j') && DurableRestarts(c, j, ops)
    ensures OnceEach(c.key, c.verify, j'.gate)
    decreases |ops|
  {
    if ops != [] {
      StepOnceEach(c, j, ops[0]);
      AtMostOnce(c, Step(c, j, ops[0]), ops[1..], j');
    }
  }

  /** Every save succeeds and the process dies in no batch. */
  ghost predicate Careful(ops: seq<Op>) {
    forall i :: 0 <= i < |ops| ==>
      && !ops[i].OpDie?
      && (ops[i].OpTick? && ops[i].reply.Alive? ==> forall k :: 0 <= k < |ops[i].reply.saves| ==> ops[i].reply.saves[k])
  }

  /** Successful saves and whole batches make every restart durable. */
  lemma {:induction false} CarefulRunsAreDurable(c: Config, j: Joiner, ops: seq<Op>)
    requires OnceEach(c.key, c.verify, j.gate) && j.gate.disk == j.gate.nonces && Careful(ops)
    ensures DurableRestarts(c, j, ops)
    decreases |ops|
  {
    if ops != [] && Enabled(ops[0]) {
      var op := ops[0];
      if op.OpTick? && op.reply.Alive? {
        SavedInStep(c.key, c.verify, j.gate, op.reply.commands, op.reply.now, op.reply.saves);
      }
      assert Durable(j.gate);
      StepOnceEach(c, j, op);
      hide OnceEach, Process;
      CarefulRunsAreDurable(c, Step(c, j, op), ops[1..]);
    }
  }

  /** A save that fails is enough to break it: the same command runs twice across a restart. */
  lemma UnsavedNonceRunsTwice(c: Config, cmd: Command, now: int)
    requires c.key.Some? && c.verify(c.key.value, cmd).None? && now <= cmd.expiry
    ensures var j := Joiner(Gate({}, {}, []), [], false, 0, [], [], []);
            var ops := [OpTick(Alive([cmd], now, [false])), OpRestart(0), OpTick(Alive([cmd], now, [false]))];
            exists j' :: Reaches(c, j, ops, j') && j'.gate.executed == [Execution(cmd, now), Execution(cmd, now)]
  {
    var j0 := Joiner(Gate({}, {}, []), [], false, 0, [], [], []);
    var a, b := OpTick(Alive([cmd], now, [false])), OpRestart(0);
    var ops := [a, b, a];
    OneCommand(c, j0.gate, cmd, now);
    var j1 := Step(c, j0, a);
    var j2 := Step(c, j1, b);
    OneCommand(c, j2.gate, cmd, now);
    var j3 := Step(c, j2, a);
    assert ops[1..] == [b, a] && ops[1..][1..] == [a] && ops[1..][1..][1..] == [];
    assert Reaches(c, j3, [], j3);
    assert Reaches(c, j2, [a], j3);
    assert Reaches(c, j1, [b, a], j3);
    assert Reaches(c, j0, ops, j3);
  }

  lemma OneCommand(c: Config, g: Gate, cmd: Command, now: int)
    ensures Process(c.key, c.verify, g, [cmd], now, [false]) == ProcessOne(c.key, c.verify, g, cmd, now, false)
  {
    assert [cmd][..0] == [] && [false][..0] == [];
  }

  // ---------------------------------------------------------------- acks

  function SettledIds(s: seq<Settled>): seq<nat> {
    seq(|s|, i requires 0 <= i < |s| => s[i].id)
  }

  /** Every id received so far has settled or waits in the buffer, in the order received. */
  ghost predicate Accounted(j: Joiner) {
    j.received == SettledIds(j.settled) + j.pending
  }

  lemma SettledAppended(s: seq<Settled>, ids: seq<nat>, how: How)
    ensures SettledIds(s + Settle(ids, how)) == SettledIds(s) + ids
  {
  }

  lemma TickAccounted(c: Config, j: Joiner, r: Reply)
    requires Fits(r) && Accounted(j)
    ensures Accounted(Tick(c, j, r))
  {
    SettledAppended(j.settled, j.pending, Carried);
    SettledAppended(j.settled, j.pending, LostAt404);
  }

  lemma StepAccounted(c: Config, j: Joiner, op: Op)
    requires Enabled(op) && Accounted(j)
    ensures Accounted(Step(c, j, op))
  {
    match op
    case OpTick(reply) => TickAccounted(c, j, reply);
    case OpRestart(_) => SettledAppended(j.settled, j.pending, LostAtRestart);
    case OpDie(commands, now, saves, last, _) =>
      TickAccounted(c, j, Alive(commands, now, saves));
      var j' := Dying(c, j, op);
      SettledAppended(j'.settled, j'.pending, LostAtRestart);
  }

  /**
    No ack is lost silently: in every run the received command ids, in order, are those whose
    ack was carried by a successful heartbeat, dropped at a 404 or a restart, or still waits.
  */
  lemma {:induction false} AcksAccounted(c: Config, j: Joiner, ops: seq<Op>, j': Joiner)
    requires Accounted(j) && Reaches(c, j, ops, j')
    ensures Accounted(j')
    decreases |ops|
  {
    if ops != [] {
      StepAccounted(c, j, ops[0]);
      AcksAccounted(c, Step(c, j, ops[0]), ops[1..], j');
    }
  }

  /** Failed heartbeats change nothing, so the next one that gets through carries every waiting ack. */
  lemma {:induction false} NextSuccessCarriesAll(c: Config, j: Joiner, failures: nat, r: Reply, j': Joiner)
    requires r.Alive? && Fits(r)
    requires Reaches(c, j, seq(failures, _ => OpTick(Failed)) + [OpTick(r)], j')
    ensures j'.settled == j.settled + Settle(j.pending, Carried)
    ensures j'.pending == Ids(r.commands) && j'.received == j.received + Ids(r.commands)
    decreases failures
  {
    var ops := seq(failures, _ => OpTick(Failed)) + [OpTick(r)];
    if failures > 0 {
      assert ops[1..] == seq(failures - 1, _ => OpTick(Failed)) + [OpTick(r)];
      NextSuccessCarriesAll(c, j, failures - 1, r, j');
    } else {
      assert ops[0] == OpTick(r) && ops[1..] == [];
    }
  }

  // ---------------------------------------------------------------- re-registering

  /** The guard is up exactly since a re-register that no success or restart has followed. */
  ghost predicate Guarded(j: Joiner) {
    && (j.handlingRosterLoss <==> j.marks != [] && j.marks[|j.marks| - 1].ReRegister?)
    && (forall i :: 0 <= i < |j.marks| - 1 && j.marks[i].ReRegister? ==> !j.marks[i + 1].ReRegister?)
  }

  /** Between two re-register attempts there is a successful heartbeat or a restart. */
  lemma {:induction false} OneAttemptPerLoss(c: Config, j: Joiner, ops: seq<Op>, j': Joiner)
    requires Guarded(j) && Reaches(c, j, ops, j')
    ensures Guarded(j')
    decreases |ops|
  {
    if ops != [] {
      OneAttemptPerLoss(c, Step(c, j, ops[0]), ops[1..], j');
    }
  }

  /** Over any run, a 404 leads to a re-register if and only if none was made since the last success or restart. */
  lemma ReRegistersExactly(c: Config, j: Joiner, ops: seq<Op>, j': Joiner, r: Reply)
    requires Guarded(j) && Reaches(c, j, ops, j') && r.NotFound?
    ensures Tick(c, j', r).marks
            == j'.marks + if j'.marks != [] && j'.marks[|j'.marks| - 1].ReRegister? then [] else [ReRegister]
  {
    OneAttemptPerLoss(c, j, ops, j');
  }

  /**
    A re-register that failed is not retried on the following ticks: however many more 404s
    arrive, the joiner keeps its dead peer id and makes no further attempt.
  */
  lemma {:induction false} FailedReRegisterIsNotRetried(c: Config, j: Joiner, replies: seq<Reply>, j': Joiner)
    requires j.handlingRosterLoss && (forall i :: 0 <= i < |replies| ==> !replies[i].Alive?)
    requires Reaches(c, j, seq(|replies|, i requires 0 <= i < |replies| => OpTick(replies[i])), j')
    ensures j'.peerId == j.peerId && j'.marks == j.marks && j'.handlingRosterLoss
    decreases |replies|
  {
    if replies != [] {
      var ops := seq(|replies|, i requires 0 <= i < |replies| => OpTick(replies[i]));
      var later := replies[1..];
      assert ops[1..] == seq(|later|, i requires 0 <= i < |later| => OpTick(later[i]));
      FailedReRegisterIsNotRetried(c, Step(c, j, ops[0]), later, j');
    }
  }

  /**
    Re-registering after a 404, told from the coordinator's two answers. With the guard down the
    joiner becomes `n` if the attempt with its own address registered it as `n`, or was refused
    with 409 for an address that is not strict and the free attempt registered it as `n`. In
    every other case, and with the guard up, it keeps its id.
  */
  lemma AdoptsExactly(c: Config, j: Joiner, sticky: Attempt, free: Attempt)
    ensures var j' := Tick(c, j, NotFound(sticky, free));
            && (!j.handlingRosterLoss && sticky.Registered? ==> j'.peerId == sticky.peerId)
            && (!j.handlingRosterLoss && sticky == Status409 && !c.strictUla && free.Registered? ==> j'.peerId == free.peerId)
            && (j.handlingRosterLoss || sticky == OtherError || (sticky == Status409 && (c.strictUla || !free.Registered?)) ==>
                  j'.peerId == j.peerId)
            && j'.handlingRosterLoss
  {
  }

  /** How acks leave the buffer: carried by a success, lost at a 404, lost at a restart, and by nothing else. */
  lemma SettledExactly(c: Config, j: Joiner, op: Op, i: nat)
    requires Enabled(op) && !op.OpDie? && |j.settled| <= i < |Step(c, j, op).settled|
    ensures j.settled <= Step(c, j, op).settled && |Step(c, j, op).settled| == |j.settled| + |j.pending|
    ensures var s := Step(c, j, op).settled[i];
            && s.id == j.pending[i - |j.settled|]
            && (s.how == Carried <==> op.OpTick? && op.reply.Alive?)
            && (s.how == LostAt404 <==> op.OpTick? && op.reply.NotFound?)
            && (s.how == LostAtRestart <==> op.OpRestart?)
  {
  }
}
