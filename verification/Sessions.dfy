/** What one client sees: all its commands served while they succeed, and each Get the last write before it. */
module Sessions {
  import opened Bytes
  import opened Entries
  import opened Header
  import opened MemTables
  import opened Store
  import opened Commands
  import opened Clients

  // ----- A client whose commands succeed is served to the end -----

  /** The commands succeed, one after the other. */
  ghost predicate AllSucceed(env: Env, s: State, cmds: seq<Command>)
    decreases |cmds|
  {
    cmds != [] ==>
      !cmds[0].Quit? && Execute(env, s, cmds[0]).ok && AllSucceed(env, Execute(env, s, cmds[0]).state, cmds[1..])
  }

  /** One turn of the loop: a line is read, run under the lock, and answered. */
  function Turn(c: nat, cmd: Command): seq<Step> {
    [Receive(c, cmd), Lock(c), Speak(c), Run(c), Unlock(c), Send(c), Continue(c)]
  }

  function Turns(c: nat, cmds: seq<Command>): seq<Step>
    decreases |cmds|
  {
    if cmds == [] then [] else Turn(c, cmds[0]) + Turns(c, cmds[1..])
  }

  /** The client is about to send a line, and nobody holds the lock. */
  predicate Ready(y: System, c: nat) {
    c < |y.phases| && y.phases[c] == Reading && y.lock == None
  }

  /** What the turn leaves: one more command in the log, and its reply with the client. */
  ghost predicate TurnDone(env: Env, y: System, c: nat, cmd: Command, z: System) {
    var r := Execute(env, y.store, cmd);
    && z.store == r.state && Ready(z, c) && |z.phases| == |y.phases|
    && |z.log| == |y.log| + 1 && y.log <= z.log
    && (var d := z.log[|y.log|]; d.conn == c && d.cmd == cmd && d.reply == r.reply && d.ok == r.ok)
    && |z.sent| == |y.sent| + 1 && y.sent <= z.sent
    && (var a := z.sent[|y.sent|]; a.conn == c && a.index == |y.log| && a.reply == r.reply)
  }

  lemma NoStep(env: Env, y: System)
    ensures Steps(env, y, []) && Last(env, y, []) == y
  {}

  lemma OneStep(env: Env, y: System, step: Step, rest: seq<Step>)
    requires Enabled(y, step) && Steps(env, Next(env, y, step), rest)
    ensures Steps(env, y, [step] + rest) && Last(env, y, [step] + rest) == Last(env, Next(env, y, step), rest)
  {
    hide Next, Enabled;
    assert ([step] + rest)[1..] == rest;
  }

  /** The lines from reading the command to the reply in the buffer. */
  lemma Asked(env: Env, y: System, c: nat, cmd: Command, rest: seq<Step>) returns (z: System)
    requires Ready(y, c) && !cmd.Quit?
    ensures z == y.(phases := y.phases[c := Spoken(cmd, y.time, Execute(env, y.store, cmd).reply, false)],
                    lock := Some(c), time := y.time + 3)
    ensures Steps(env, z, rest) ==>
              && Steps(env, y, [Receive(c, cmd), Lock(c), Speak(c)] + rest)
              && Last(env, y, [Receive(c, cmd), Lock(c), Speak(c)] + rest) == Last(env, z, rest)
  {
    hide Execute, Steps, Last;
    var y1 := Next(env, y, Receive(c, cmd));
    var y2 := Next(env, y1, Lock(c));
    z := Next(env, y2, Speak(c));
    assert z.phases == y.phases[c := Spoken(cmd, y.time, Execute(env, y.store, cmd).reply, false)];
    if Steps(env, z, rest) {
      OneStep(env, y2, Speak(c), rest);
      OneStep(env, y1, Lock(c), [Speak(c)] + rest);
      assert [Lock(c)] + ([Speak(c)] + rest) == [Lock(c), Speak(c)] + rest;
      OneStep(env, y, Receive(c, cmd), [Lock(c), Speak(c)] + rest);
      assert [Receive(c, cmd)] + ([Lock(c), Speak(c)] + rest) == [Receive(c, cmd), Lock(c), Speak(c)] + rest;
    }
  }

  /** And from there to the next line. */
  lemma Served(env: Env, y: System, c: nat, rest: seq<Step>) returns (z: System)
    requires c < |y.phases| && y.phases[c].Spoken? && !y.phases[c].told && Execute(env, y.store, y.phases[c].cmd).ok
    ensures var p, r := y.phases[c], Execute(env, y.store, y.phases[c].cmd);
            z == System(r.state, None, y.phases[c := Reading], y.time + 4,
                        y.log + [Done(c, p.cmd, r.reply, r.ok, p.since, y.time)],
                        y.sent + [Sent(c, |y.log|, r.reply, y.time + 2)])
    ensures Steps(env, z, rest) ==>
              && Steps(env, y, [Run(c), Unlock(c), Send(c), Continue(c)] + rest)
              && Last(env, y, [Run(c), Unlock(c), Send(c), Continue(c)] + rest) == Last(env, z, rest)
  {
    hide Execute, Steps, Last;
    var y1 := Next(env, y, Run(c));
    var y2 := Next(env, y1, Unlock(c));
    var y3 := Next(env, y2, Send(c));
    z := Next(env, y3, Continue(c));
    assert z.phases == y.phases[c := Reading];
    if Steps(env, z, rest) {
      OneStep(env, y3, Continue(c), rest);
      OneStep(env, y2, Send(c), [Continue(c)] + rest);
      assert [Send(c)] + ([Continue(c)] + rest) == [Send(c), Continue(c)] + rest;
      OneStep(env, y1, Unlock(c), [Send(c), Continue(c)] + rest);
      assert [Unlock(c)] + ([Send(c), Continue(c)] + rest) == [Unlock(c), Send(c), Continue(c)] + rest;
      OneStep(env, y, Run(c), [Unlock(c), Send(c), Continue(c)] + rest);
      assert [Run(c)] + ([Unlock(c), Send(c), Continue(c)] + rest) == [Run(c), Unlock(c), Send(c), Continue(c)] + rest;
    }
  }

  lemma TurnRuns(env: Env, y: System, c: nat, cmd: Command, rest: seq<Step>) returns (z: System)
    requires Ready(y, c) && !cmd.Quit? && Execute(env, y.store, cmd).ok
    ensures TurnDone(env, y, c, cmd, z)
    ensures Steps(env, z, rest) ==>
              Steps(env, y, Turn(c, cmd) + rest) && Last(env, y, Turn(c, cmd) + rest) == Last(env, z, rest)
  {
    hide Execute, Steps, Last, Next, Enabled;
    var late := [Run(c), Unlock(c), Send(c), Continue(c)] + rest;
    var half := Asked(env, y, c, cmd, late);
    z := Served(env, half, c, rest);
    assert [Receive(c, cmd), Lock(c), Speak(c)] + late == Turn(c, cmd) + rest;
  }

  /** Command `l` of the log is this one of client `c`, it succeeded, and reply `s` is its own. */
  ghost predicate ServedAt(y: System, c: nat, cmd: Command, l: nat, s: nat) {
    && l < |y.log| && s < |y.sent|
    && y.log[l].conn == c && y.log[l].cmd == cmd && y.log[l].ok
    && y.sent[s].conn == c && y.sent[s].index == l && y.sent[s].reply == y.log[l].reply
  }

  /** These commands are the last of the log, and their replies the last that were sent. */
  ghost predicate ServedInOrder(y: System, c: nat, cmds: seq<Command>, logged: nat, sent: nat) {
    && |y.log| == logged + |cmds| && |y.sent| == sent + |cmds|
    && forall i | 0 <= i < |cmds| :: ServedAt(y, c, cmds[i], logged + i, sent + i)
  }

  /**
   * A client with any list of commands that succeed can have them all run, in the order it sends them, and
   * get every reply; and then it is ready to send more.
   */
  lemma {:induction false} AllServedInTurn(env: Env, y: System, c: nat, cmds: seq<Command>)
    requires Ready(y, c) && AllSucceed(env, y.store, cmds)
    ensures Steps(env, y, Turns(c, cmds))
    ensures var z := Last(env, y, Turns(c, cmds));
            Ready(z, c) && y.log <= z.log && y.sent <= z.sent && ServedInOrder(z, c, cmds, |y.log|, |y.sent|)
    decreases |cmds|
  {
    hide Execute, Steps, Last, Turn;
    if cmds == [] {
      NoStep(env, y);
    } else {
      var y1 := TurnRuns(env, y, c, cmds[0], Turns(c, cmds[1..]));
      AllServedInTurn(env, y1, c, cmds[1..]);
      OneServed(env, y, y1, Last(env, y1, Turns(c, cmds[1..])), c, cmds);
    }
  }

  lemma OneServed(env: Env, y: System, y1: System, z: System, c: nat, cmds: seq<Command>)
    requires cmds != [] && TurnDone(env, y, c, cmds[0], y1) && Execute(env, y.store, cmds[0]).ok
    requires y1.log <= z.log && y1.sent <= z.sent && ServedInOrder(z, c, cmds[1..], |y1.log|, |y1.sent|)
    ensures y.log <= z.log && y.sent <= z.sent && ServedInOrder(z, c, cmds, |y.log|, |y.sent|)
  {
    hide Execute;
    var n, m := |y.log|, |y.sent|;
    forall i | 0 <= i < |cmds| ensures ServedAt(z, c, cmds[i], n + i, m + i) {
      if i == 0 {
        assert z.log[n] == y1.log[n] && z.sent[m] == y1.sent[m];
      } else {
        assert ServedAt(z, c, cmds[1..][i - 1], |y1.log| + (i - 1), |y1.sent| + (i - 1));
      }
    }
  }

  /** In particular a new server has a run that serves any client so. */
  lemma SomeSession(env: Env, store: State, n: nat, c: nat, cmds: seq<Command>)
    requires c < n && AllSucceed(env, store, cmds)
    ensures Steps(env, Start(store, n), Turns(c, cmds))
    ensures ServedInOrder(Last(env, Start(store, n), Turns(c, cmds)), c, cmds, 0, 0)
  {
    hide Execute, Steps, Last, Turns, AllSucceed;
    AllServedInTurn(env, Start(store, n), c, cmds);
  }

  // ----- A Get sees the last write before it -----

  /** The command set or deleted the key. */
  predicate WritesKey(d: Done, k: Text) {
    d.ok && (d.cmd.SetKey? || d.cmd.DeleteKey?) && d.cmd.key == k
  }

  /** The value of the last of these commands that wrote `k`, or that in `m` if none did. */
  function LastWritten(m: map<Text, Text>, log: seq<Done>, k: Text): Option<Text>
    decreases |log|
  {
    if log == [] then (if k in m then Some(m[k]) else None)
    else
      var d := log[|log| - 1];
      if !WritesKey(d, k) then LastWritten(m, log[..|log| - 1], k)
      else if d.cmd.SetKey? then Some(d.cmd.value) else None
  }

  lemma {:induction false} MapHoldsLast(env: Env, m: map<Text, Text>, log: seq<Done>, k: Text)
    requires Sequential(env, m, log)
    ensures var after := MapAfter(env, m, log); LastWritten(m, log, k) == if k in after then Some(after[k]) else None
    decreases |log|
  {
    hide Apply;
    if log != [] {
      var n := |log| - 1;
      SequentialPart(env, m, log, n);
      MapHoldsLast(env, m, log[..n], k);
      assert log[n].ok == Apply(env, MapAfter(env, m, log[..n]), log[n].cmd).ok;
      OneApplied(env, MapAfter(env, m, log[..n]), log[n].cmd, k);
    }
  }

  lemma OneApplied(env: Env, m: map<Text, Text>, c: Command, k: Text)
    ensures var r := Apply(env, m, c);
            var writes := r.ok && (c.SetKey? || c.DeleteKey?) && c.key == k;
            (if k in r.state then Some(r.state[k]) else None) ==
              if !writes then (if k in m then Some(m[k]) else None)
              else if c.SetKey? then Some(c.value) else None
  {
    hide Storable;
  }

  /**
   * Every Get, of whichever client, is answered with the value of the last Set of its key before it in lock
   * order, or with "not found" if a Delete came later or there was none.
   */
  lemma GetSeesLastWrite(env: Env, m: map<Text, Text>, log: seq<Done>, i: nat)
    requires Sequential(env, m, log) && i < |log| && log[i].cmd.GetKey?
    ensures var k := log[i].cmd.key;
            log[i].ok && log[i].reply == Some(match LastWritten(m, log[..i], k)
                                              case Some(v) => Shown(k, v)
                                              case None => NotFound(k))
  {
    hide MapAfter, LastWritten, WriteToMap;
    forall j | 0 <= j < i ensures log[..i][..j] == log[..j] {}
    SequentialPart(env, m, log, i);
    MapHoldsLast(env, m, log[..i], log[i].cmd.key);
  }

  lemma SequentialPart(env: Env, m: map<Text, Text>, log: seq<Done>, i: nat)
    requires Sequential(env, m, log) && i <= |log|
    ensures Sequential(env, m, log[..i])
  {
    hide Apply, MapAfter;
    forall j | 0 <= j < i ensures log[..i][..j] == log[..j] {}
  }

  /** A Delete is answered "deleted" exactly if the key is there then, and a Set always with its own value. */
  lemma WritesAnswered(env: Env, m: map<Text, Text>, log: seq<Done>, i: nat)
    requires Sequential(env, m, log) && i < |log|
    ensures log[i].cmd.SetKey? ==> log[i].reply == Some(Shown(log[i].cmd.key, log[i].cmd.value))
    ensures log[i].cmd.DeleteKey? ==>
              var k := log[i].cmd.key;
              log[i].reply == Some(if LastWritten(m, log[..i], k).Some? then Deleted(k) else NotFound(k))
  {
    hide MapAfter, LastWritten;
    SequentialPart(env, m, log, i);
    if log[i].cmd.DeleteKey? {
      MapHoldsLast(env, m, log[..i], log[i].cmd.key);
    }
  }

  /** Reads leave the store and the disk as they are. */
  lemma ReadsChangeNothing(env: Env, s: State, c: Command)
    requires c.GetKey? || c.Help?
    ensures Execute(env, s, c).state == s && CommandOps(env, s, c) == [] && Execute(env, s, c).ok
  {
    hide Get;
  }
}
