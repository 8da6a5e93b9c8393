/** The control loop of an upload (client.rs, run_upload_test). */
module Upload {
  import opened Numbers
  import opened Wire
  import opened Client
  import opened ClientRuns
  import opened ClientControl
  import Congestion

  datatype Incoming = Incoming(data: bytes, env: AckEnv)

  /** What the environment does in one turn of the loop. */
  datatype Turn = Turn(send: SendEnv, incoming: Option<Incoming>)

  /** Client, calls made so far, and whether a failed send has ended the loop. */
  datatype Progress = Progress(client: Client, calls: seq<Call>, stopped: bool)

  predicate MaySend(c: Client) {
    c.bytesSent - c.bytesAcked < c.bbr.cwnd
  }

  function Do(p: Progress, call: Call): Progress {
    Progress(Apply(p.client, call).client, p.calls + [call], call.SendCall? && Apply(p.client, call).failed)
  }

  function Receive(p: Progress, incoming: Option<Incoming>): Progress {
    if incoming.None? then p else Do(p, AckCall(incoming.value.data, incoming.value.env))
  }

  function TakeTurn(p: Progress, payload: bytes, turn: Turn): Progress {
    if p.stopped then p
    else if !MaySend(p.client) then Receive(p, turn.incoming)
    else
      var q := Do(p, SendCall(payload, turn.send));
      if q.stopped then q else Receive(q, turn.incoming)
  }

  function Uploaded(now: real, payload: bytes, script: seq<Turn>): Progress {
    if script == [] then Progress(Init(now), [], false)
    else TakeTurn(Uploaded(now, payload, script[..|script| - 1]), payload, script[|script| - 1])
  }

  /** The progress is a guarded run of the sender. */
  ghost predicate IsGuardedRun(now: real, p: Progress, size: nat) {
    p.client == Run(Init(now), p.calls) && Guarded(Init(now), p.calls, size)
  }

  lemma RunStep(c: Client, calls: seq<Call>, call: Call)
    ensures Run(c, calls + [call]) == Apply(Run(c, calls), call).client
  {
    hide Apply;
    assert (calls + [call])[..|calls|] == calls;
  }

  lemma GuardedStep(c: Client, calls: seq<Call>, size: nat, call: Call)
    requires Guarded(c, calls, size)
    requires call.SendCall? ==> |call.payload| == size && MaySend(Run(c, calls))
    ensures Guarded(c, calls + [call], size)
  {
    hide Run;
    var all := calls + [call];
    assert all[..|calls|] == calls;
    assert forall i :: 0 <= i < |calls| ==> all[..i] == calls[..i];
  }

  lemma DoKeepsGuard(now: real, p: Progress, size: nat, call: Call)
    requires IsGuardedRun(now, p, size)
    requires call.SendCall? ==> |call.payload| == size && MaySend(p.client)
    ensures IsGuardedRun(now, Do(p, call), size)
  {
    hide Apply, Init, Run, Guarded, MaySend;
    RunStep(Init(now), p.calls, call);
    GuardedStep(Init(now), p.calls, size, call);
  }

  lemma TurnKeepsGuard(now: real, p: Progress, payload: bytes, turn: Turn)
    requires IsGuardedRun(now, p, |payload|)
    ensures IsGuardedRun(now, TakeTurn(p, payload, turn), |payload|)
  {
    hide IsGuardedRun, Do;
    if !p.stopped {
      var q := Do(p, SendCall(payload, turn.send));
      if MaySend(p.client) {
        DoKeepsGuard(now, p, |payload|, SendCall(payload, turn.send));
      }
      if turn.incoming.Some? {
        var call := AckCall(turn.incoming.value.data, turn.incoming.value.env);
        DoKeepsGuard(now, p, |payload|, call);
        if MaySend(p.client) {
          DoKeepsGuard(now, q, |payload|, call);
        }
      }
    }
  }

  lemma {:induction false} UploadIsGuardedRun(now: real, payload: bytes, script: seq<Turn>)
    ensures IsGuardedRun(now, Uploaded(now, payload, script), |payload|)
  {
    hide IsGuardedRun, TakeTurn;
    if script == [] {
      FreshGuarded(now, |payload|);
    } else {
      UploadIsGuardedRun(now, payload, script[..|script| - 1]);
      TurnKeepsGuard(now, Uploaded(now, payload, script[..|script| - 1]), payload, script[|script| - 1]);
    }
  }

  lemma FreshGuarded(now: real, size: nat)
    ensures IsGuardedRun(now, Progress(Init(now), [], false), size)
  {
    hide Init;
  }

  /** At every moment of every upload, between any two calls, the window is in its clamp and
      the bytes in flight are non-negative and below the largest window plus one datagram. */
  lemma UploadBound(now: real, payload: bytes, script: seq<Turn>, i: nat)
    requires i <= |Uploaded(now, payload, script).calls|
    ensures var c := Run(Init(now), Uploaded(now, payload, script).calls[..i]);
      && 5600 <= c.bbr.cwnd <= 1048576
      && 0 <= c.bytesSent - c.bytesAcked < 1048576 + |payload| + HEADER_SIZE
  {
    hide Init, Run, Uploaded;
    UploadIsGuardedRun(now, payload, script);
    var calls := Uploaded(now, payload, script).calls;
    assert Guarded(Init(now), calls[..i], |payload|) by {
      assert forall k :: 0 <= k < i ==> calls[..i][..k] == calls[..k];
    }
    InFlightBound(now, calls[..i], |payload|);
  }

  /** One turn of the loop, from any point of any upload. It sends if and only if the bytes in
      flight are below the window. Unless that send fails, it then hands over the datagram that
      came in, if one did. A failed send ends the upload for good. */
  lemma UploadTurn(now: real, payload: bytes, script: seq<Turn>, turn: Turn)
    ensures var p, u := Uploaded(now, payload, script), Uploaded(now, payload, script + [turn]); var c := p.client;
      var sends := c.bytesSent - c.bytesAcked < c.bbr.cwnd;
      var fails := sends && !turn.send.ok;
      var sent := if sends then [SendCall(payload, turn.send)] else [];
      var taken := if !fails && turn.incoming.Some?
                   then [AckCall(turn.incoming.value.data, turn.incoming.value.env)] else [];
      if p.stopped then u == p
      else u.calls == p.calls + sent + taken && u.stopped == fails && u.client == Run(Init(now), u.calls)
  {
    hide Init, Run, Uploaded, Send, ProcessAck;
    var all := script + [turn];
    assert all[..|script|] == script;
    UploadPrefix(now, payload, all, |script|);
    assert all[..|script| + 1] == all;
    UploadIsGuardedRun(now, payload, all);
    SendEffect(Uploaded(now, payload, script).client, payload, turn.send);
  }

  /** The calls of an upload end exactly with its first failed send. */
  lemma {:induction false} UploadEndsWithFailure(now: real, payload: bytes, script: seq<Turn>, i: nat)
    ensures var p := Uploaded(now, payload, script);
      && (i < |p.calls| && p.calls[i].SendCall? && !p.calls[i].sendEnv.ok ==> i == |p.calls| - 1 && p.stopped)
      && (p.stopped ==> p.calls != [] && var last := p.calls[|p.calls| - 1]; last.SendCall? && !last.sendEnv.ok)
  {
    hide Init, Run;
    if script != [] {
      hide Uploaded;
      var n := |script| - 1;
      assert script == script[..n] + [script[n]];
      UploadEndsWithFailure(now, payload, script[..n], i);
      UploadTurn(now, payload, script[..n], script[n]);
    }
  }

  /** An upload that has given up as many bytes as the largest window never sends again. */
  lemma UploadStalls(now: real, payload: bytes, script: seq<Turn>, i: nat, j: nat)
    requires var calls := Uploaded(now, payload, script).calls;
      i <= j < |calls| && Dropped(Init(now), calls[..i]).bytes >= 1048576
    ensures Uploaded(now, payload, script).calls[j].AckCall?
  {
    hide Init, Run, Uploaded, Dropped;
    UploadIsGuardedRun(now, payload, script);
    var calls := Uploaded(now, payload, script).calls;
    assert calls[..j][..i] == calls[..i];
    WindowStaysClosed(now, calls[..j], i);
  }

  // ---------------------------------------------------------------- the loop

  lemma UploadPrefix(now: real, payload: bytes, script: seq<Turn>, i: nat)
    requires i < |script|
    ensures Uploaded(now, payload, script[..i + 1]) == TakeTurn(Uploaded(now, payload, script[..i]), payload, script[i])
  {
    hide TakeTurn, Init;
    assert script[..i + 1][..i] == script[..i];
  }

  lemma {:induction false} UploadStopped(now: real, payload: bytes, script: seq<Turn>, i: nat)
    requires i <= |script| && Uploaded(now, payload, script[..i]).stopped
    ensures Uploaded(now, payload, script) == Uploaded(now, payload, script[..i])
    decreases |script|
  {
    hide Init, Do;
    if i == |script| {
      assert script[..i] == script;
    } else {
      assert script[..|script| - 1][..i] == script[..i];
      UploadStopped(now, payload, script[..|script| - 1], i);
    }
  }

  /** Bytes in flight as the loop computes them; the subtraction cannot underflow. */
  method BytesInFlight(client: StpClient, now: real, ghost calls: seq<Call>) returns (n: nat)
    requires client.Model() == Run(Init(now), calls)
    ensures n == client.bytesSent - client.bytesAcked
    ensures n == TallyOf(client.lossRecovery.inFlight).bytes <==> NoRetransmissionFails(Init(now), calls)
  {
    hide Run, Init, Dropped, TallyOf, NoRetransmissionFails;
    NoUnderflow(now, calls);
    InFlightAccounting(now, calls);
    n := client.bytesSent - client.bytesAcked;
  }

  /** Send when the window allows it and stop at the first failed send; then take one
      incoming datagram, ignoring errors of its processing. */
  method RunUpload(now: real, payload: bytes, script: seq<Turn>) returns (client: StpClient)
    ensures fresh(client.Repr()) && client.Model() == Uploaded(now, payload, script).client
    ensures client.bytesAcked <= client.bytesSent
    ensures client.bytesSent < client.bytesAcked + 1048576 + |payload| + HEADER_SIZE
  {
    hide Init, Run, Send, ProcessAck, TallyOf, Dropped;
    client := new StpClient(now);
    ghost var p := Progress(Init(now), [], false);
    for i := 0 to |script|
      invariant fresh(client.Repr())
      invariant p == Uploaded(now, payload, script[..i]) && !p.stopped && client.Model() == p.client
    {
      hide TakeTurn;
      UploadPrefix(now, payload, script, i);
      UploadIsGuardedRun(now, payload, script[..i]);
      var turn := script[i];
      var sent := TurnSend(client, p, now, payload, turn);
      ghost var q := if MaySend(p.client) then Do(p, SendCall(payload, turn.send)) else p;
      if !sent {
        TurnStopped(p, payload, turn);
        UploadStopped(now, payload, script, i + 1);
        FinalBound(now, payload, script);
        return;
      }
      TurnReceive(client, q, turn);
      TurnDone(p, payload, turn);
      p := TakeTurn(p, payload, turn);
    }
    assert script[..|script|] == script;
    FinalBound(now, payload, script);
  }

  lemma TurnStopped(p: Progress, payload: bytes, turn: Turn)
    requires !p.stopped && MaySend(p.client) && Do(p, SendCall(payload, turn.send)).stopped
    ensures TakeTurn(p, payload, turn) == Do(p, SendCall(payload, turn.send))
  {
    hide Do;
  }

  lemma TurnDone(p: Progress, payload: bytes, turn: Turn)
    requires !p.stopped
    requires MaySend(p.client) ==> !Do(p, SendCall(payload, turn.send)).stopped
    ensures TakeTurn(p, payload, turn)
         == Receive(if MaySend(p.client) then Do(p, SendCall(payload, turn.send)) else p, turn.incoming)
    ensures !TakeTurn(p, payload, turn).stopped
  {
    hide Apply;
  }

  lemma FinalBound(now: real, payload: bytes, script: seq<Turn>)
    ensures var c := Uploaded(now, payload, script).client;
      && c.bytesAcked <= c.bytesSent < c.bytesAcked + 1048576 + |payload| + HEADER_SIZE
  {
    hide Init, Run, Uploaded;
    UploadIsGuardedRun(now, payload, script);
    InFlightBound(now, Uploaded(now, payload, script).calls, |payload|);
  }

  /** First half of a turn; false when the loop must stop. */
  method TurnSend(client: StpClient, ghost p: Progress, now: real, payload: bytes, turn: Turn)
    returns (going: bool)
    requires client.Model() == p.client && IsGuardedRun(now, p, |payload|) && !p.stopped
    modifies client.Repr()
    ensures var q := if MaySend(p.client) then Do(p, SendCall(payload, turn.send)) else p;
      client.Model() == q.client && going == !q.stopped
    ensures !going ==> MaySend(p.client)
  {
    hide Init, Run, Send, TallyOf, Dropped;
    var bytesInFlight := BytesInFlight(client, now, p.calls);
    going := true;
    if client.congestionControl.CanSend(bytesInFlight) {
      ghost var wire;
      going, wire := client.SendData(payload, turn.send);
    }
  }

  /** Second half of a turn. */
  method TurnReceive(client: StpClient, ghost q: Progress, turn: Turn)
    requires client.Model() == q.client && !q.stopped
    modifies client.Repr()
    ensures client.Model() == Receive(q, turn.incoming).client
  {
    hide ProcessAck;
    if turn.incoming.Some? {
      var data, env := turn.incoming.value.data, turn.incoming.value.env;
      var ok, wire := client.ProcessAckPacket(data, env);
    }
  }
}
