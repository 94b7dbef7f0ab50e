/**
  Signed remote commands on a joiner: the verify and replay gate, the batch executor, and the
  nonces kept in memory and in the sidecar file.
*/
module Commands {

  import opened Prelude

  datatype Verb = RestartJoiner | RebootHost | ResetWg

  datatype Command = Command(
    id: nat, verb: Verb, peerId: string, nonce: string, issuedAt: int, expiry: int, signature: string)

  datatype VerifyError = BadSignature | Expired | Malformed

  datatype Verdict = Accept | Replay | Reject(error: VerifyError)

  /** The signature check of a command under a key; `None` means it passes. */
  type Verifier = (Bytes, Command) -> Option<VerifyError>

  /** A verb handed to the host sink or the session table. */
  datatype Execution = Execution(cmd: Command, at: int)

  /** Nonces in memory and in the sidecar, and every verb executed so far. */
  datatype Gate = Gate(nonces: set<string>, disk: set<string>, executed: seq<Execution>)

  function Evaluate(key: Option<Bytes>, verify: Verifier, nonces: set<string>, cmd: Command, now: int): Verdict {
    if key.None? then Reject(BadSignature)
    else if verify(key.value, cmd).Some? then Reject(verify(key.value, cmd).value)
    else if now > cmd.expiry then Reject(Expired)
    else if cmd.nonce in nonces then Replay
    else Accept
  }

  /** The whole set is written on every record, so a save also repairs earlier failed ones. */
  function MarkExecuted(g: Gate, nonce: string, saved: bool): Gate {
    var nonces := g.nonces + {nonce};
    g.(nonces := nonces, disk := if saved then nonces else g.disk)
  }

  function Execute(g: Gate, cmd: Command, now: int): Gate {
    g.(executed := g.executed + [Execution(cmd, now)])
  }

  /** `saved` says whether the sidecar write succeeds, if there is one. */
  function ProcessOne(key: Option<Bytes>, verify: Verifier, g: Gate, cmd: Command, now: int, saved: bool): Gate {
    if Evaluate(key, verify, g.nonces, cmd, now).Accept? then MarkExecuted(Execute(g, cmd, now), cmd.nonce, saved)
    else g
  }

  function Process(key: Option<Bytes>, verify: Verifier, g: Gate, cmds: seq<Command>, now: int, saves: seq<bool>): Gate
    requires |saves| == |cmds|
    decreases |cmds|
  {
    if cmds == [] then g
    else
      var n := |cmds| - 1;
      ProcessOne(key, verify, Process(key, verify, g, cmds[..n], now, saves[..n]), cmds[n], now, saves[n])
  }

  function Ids(cmds: seq<Command>): seq<nat> {
    seq(|cmds|, i requires 0 <= i < |cmds| => cmds[i].id)
  }

  /** A fresh process starts from the sidecar. */
  function Restart(g: Gate): Gate {
    g.(nonces := g.disk)
  }

  class CommandGate {
    const superAdminPubkey: Option<Bytes>
    const verify: Verifier
    var nonces: set<string>
    var disk: set<string>
    var executed: seq<Execution>

    ghost function View(): Gate
      reads this
    {
      Gate(nonces, disk, executed)
    }

    constructor (key: Option<Bytes>, verify: Verifier, disk: set<string>)
      ensures superAdminPubkey == key && this.verify == verify
      ensures View() == Gate(disk, disk, [])
    {
      superAdminPubkey, this.verify := key, verify;
      nonces, this.disk, executed := disk, disk, [];
    }

    method Record(nonce: string, saved: bool)
      modifies this`nonces, this`disk
      ensures View() == MarkExecuted(old(View()), nonce, saved)
    {
      nonces := nonces + {nonce};
      if saved {
        disk := nonces;
      }
    }

    method ProcessCommands(cmds: seq<Command>, now: int, saves: seq<bool>) returns (acks: seq<nat>)
      requires |saves| == |cmds|
      modifies this
      ensures View() == Process(superAdminPubkey, verify, old(View()), cmds, now, saves)
      ensures acks == Ids(cmds)
    {
      acks := [];
      for i := 0 to |cmds|
        invariant View() == Process(superAdminPubkey, verify, old(View()), cmds[..i], now, saves[..i])
        invariant acks == Ids(cmds[..i])
      {
        assert cmds[..i + 1][..i] == cmds[..i] && saves[..i + 1][..i] == saves[..i];
        var cmd := cmds[i];
        var verdict := Evaluate(superAdminPubkey, verify, nonces, cmd, now);
        if verdict.Accept? {
          executed := executed + [Execution(cmd, now)];
          Record(cmd.nonce, saves[i]);
        }
        acks := acks + [cmd.id];
      }
      assert cmds[..|cmds|] == cmds && saves[..|cmds|] == saves;
    }
  }

  // ---------------------------------------------------------------- what a batch keeps

  ghost predicate Genuine(key: Option<Bytes>, verify: Verifier, e: Execution) {
    key.Some? && verify(key.value, e.cmd).None? && e.at <= e.cmd.expiry
  }

  /** Only genuine commands ran, each nonce once, and the gate remembers all of them. */
  ghost predicate OnceEach(key: Option<Bytes>, verify: Verifier, g: Gate) {
    && (forall i :: 0 <= i < |g.executed| ==> Genuine(key, verify, g.executed[i]))
    && (forall i :: 0 <= i < |g.executed| ==> g.executed[i].cmd.nonce in g.nonces)
    && (forall i, j :: 0 <= i < j < |g.executed| ==> g.executed[i].cmd.nonce != g.executed[j].cmd.nonce)
  }

  /** Every executed nonce is in the sidecar. */
  ghost predicate Durable(g: Gate) {
    forall i :: 0 <= i < |g.executed| ==> g.executed[i].cmd.nonce in g.disk
  }

  lemma ProcessOneOnceEach(key: Option<Bytes>, verify: Verifier, g: Gate, cmd: Command, now: int, saved: bool)
    requires OnceEach(key, verify, g)
    ensures OnceEach(key, verify, ProcessOne(key, verify, g, cmd, now, saved))
  {
  }

  lemma {:induction false} ProcessOnceEach(key: Option<Bytes>, verify: Verifier, g: Gate, cmds: seq<Command>, now: int, saves: seq<bool>)
    requires OnceEach(key, verify, g) && |saves| == |cmds|
    ensures OnceEach(key, verify, Process(key, verify, g, cmds, now, saves))
    decreases |cmds|
  {
    if cmds != [] {
      var n := |cmds| - 1;
      ProcessOnceEach(key, verify, g, cmds[..n], now, saves[..n]);
      ProcessOneOnceEach(key, verify, Process(key, verify, g, cmds[..n], now, saves[..n]), cmds[n], now, saves[n]);
    }
  }

  /** Saves that succeed keep memory and sidecar equal. */
  lemma {:induction false} SavedInStep(key: Option<Bytes>, verify: Verifier, g: Gate, cmds: seq<Command>, now: int, saves: seq<bool>)
    requires |saves| == |cmds| && g.disk == g.nonces && forall i :: 0 <= i < |saves| ==> saves[i]
    ensures var g' := Process(key, verify, g, cmds, now, saves); g'.disk == g'.nonces
    decreases |cmds|
  {
    if cmds != [] {
      var n := |cmds| - 1;
      SavedInStep(key, verify, g, cmds[..n], now, saves[..n]);
    }
  }

  /** Whether or not earlier saves failed, a command executed with a successful save makes everything durable. */
  lemma LaterSaveRepairs(key: Option<Bytes>, verify: Verifier, g: Gate, cmd: Command, now: int)
    requires OnceEach(key, verify, g) && Evaluate(key, verify, g.nonces, cmd, now).Accept?
    ensures Durable(ProcessOne(key, verify, g, cmd, now, true))
  {
  }

  /** A restart forgets an executed command, and would run it again, exactly when its nonce was never saved. */
  lemma ReRunsExactlyWhenUnsaved(key: Option<Bytes>, verify: Verifier, g: Gate, i: nat, now: int)
    requires OnceEach(key, verify, g) && i < |g.executed| && now <= g.executed[i].cmd.expiry
    ensures var cmd := g.executed[i].cmd;
            && Evaluate(key, verify, g.nonces, cmd, now) == Replay
            && (Evaluate(key, verify, Restart(g).nonces, cmd, now) == Accept <==> cmd.nonce !in g.disk)
  {
  }

  /**
    The verdict on a command. It is accepted if and only if a key is configured, the signature
    verifies under it, the expiry has not passed and its nonce is new; a replay if and only if
    the same holds with a nonce already seen; and otherwise rejected for the first reason.
  */
  lemma VerdictExactly(key: Option<Bytes>, verify: Verifier, nonces: set<string>, cmd: Command, now: int)
    ensures var v := Evaluate(key, verify, nonces, cmd, now);
            var signed := key.Some? && verify(key.value, cmd) == None;
            && (v == Accept <==> signed && now <= cmd.expiry && cmd.nonce !in nonces)
            && (v == Replay <==> signed && now <= cmd.expiry && cmd.nonce in nonces)
            && (signed && now > cmd.expiry ==> v == Reject(Expired))
            && (key.None? ==> v == Reject(BadSignature))
            && (key.Some? && verify(key.value, cmd).Some? ==> v == Reject(verify(key.value, cmd).value))
  {
  }

  /** No genuine command of a batch is passed over: its nonce has run when the batch is done, now if not before. */
  lemma {:induction false} GenuineCommandsRun(key: Option<Bytes>, verify: Verifier, g: Gate, cmds: seq<Command>, now: int,
                                              saves: seq<bool>, i: nat)
    requires |saves| == |cmds| && i < |cmds| && Genuine(key, verify, Execution(cmds[i], now))
    ensures var g' := Process(key, verify, g, cmds, now, saves);
            && g.executed <= g'.executed && cmds[i].nonce in g'.nonces
            && (cmds[i].nonce !in g.nonces ==>
                  exists k :: |g.executed| <= k < |g'.executed| && g'.executed[k].cmd.nonce == cmds[i].nonce && g'.executed[k].at == now)
    decreases |cmds|
  {
    var n := |cmds| - 1;
    var before := Process(key, verify, g, cmds[..n], now, saves[..n]);
    var g' := Process(key, verify, g, cmds, now, saves);
    RunsGrow(key, verify, g, cmds[..n], now, saves[..n]);
    if i < n {
      GenuineCommandsRun(key, verify, g, cmds[..n], now, saves[..n], i);
      if cmds[i].nonce !in g.nonces {
        var k :| |g.executed| <= k < |before.executed| && before.executed[k].cmd.nonce == cmds[i].nonce && before.executed[k].at == now;
        assert g'.executed[k] == before.executed[k];
      }
    } else if cmds[i].nonce in before.nonces {
      SeenInBatch(key, verify, g, cmds[..n], now, saves[..n], cmds[i].nonce);
    } else {
      assert g'.executed[|before.executed|] == Execution(cmds[i], now);
    }
  }

  lemma {:induction false} RunsGrow(key: Option<Bytes>, verify: Verifier, g: Gate, cmds: seq<Command>, now: int, saves: seq<bool>)
    requires |saves| == |cmds|
    ensures g.executed <= Process(key, verify, g, cmds, now, saves).executed
    decreases |cmds|
  {
    if cmds != [] {
      var n := |cmds| - 1;
      RunsGrow(key, verify, g, cmds[..n], now, saves[..n]);
    }
  }

  lemma {:induction false} SeenInBatch(key: Option<Bytes>, verify: Verifier, g: Gate, cmds: seq<Command>, now: int,
                                       saves: seq<bool>, nonce: string)
    requires |saves| == |cmds| && nonce in Process(key, verify, g, cmds, now, saves).nonces
    ensures var g' := Process(key, verify, g, cmds, now, saves);
            nonce !in g.nonces ==>
              exists k :: |g.executed| <= k < |g'.executed| && g'.executed[k].cmd.nonce == nonce && g'.executed[k].at == now
    decreases |cmds|
  {
    if cmds != [] && nonce !in g.nonces {
      var n := |cmds| - 1;
      var before := Process(key, verify, g, cmds[..n], now, saves[..n]);
      var g' := Process(key, verify, g, cmds, now, saves);
      RunsGrow(key, verify, g, cmds[..n], now, saves[..n]);
      if nonce in before.nonces {
        SeenInBatch(key, verify, g, cmds[..n], now, saves[..n], nonce);
        var k :| |g.executed| <= k < |before.executed| && before.executed[k].cmd.nonce == nonce && before.executed[k].at == now;
        assert g'.executed[k] == before.executed[k];
      } else {
        assert g'.executed[|before.executed|] == Execution(cmds[n], now);
      }
    }
  }
}
