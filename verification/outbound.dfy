/** The outbound side of the page: the command a sniff button queues, the
    two send helpers, and one tick of the queue drain `processCommandQueue`,
    which the page runs every 50 ms. A tick sends queued commands, oldest
    first, while the transport's `bufferedAmount` stays below 1024 bytes, and
    turns to the data queue only once the command queue is empty. */
module Outbound {
  import opened JsText

  /** A send goes ahead only while `bufferedAmount` is below this many bytes. */
  const BufferThreshold: nat := 1024

  /** A message written to the transport. A command travels as the JSON text
      of `{"action": "send_command", "command": ...}`; data goes out as is. */
  datatype Wire = CommandEnvelope(command: string) | RawData(data: string)

  /** The outcome of one call of a send helper. */
  datatype Effect = Sent(wire: Wire) | EmptyCommandRejected | NotConnected

  /** `sendUARTCommand(command)`: an empty command is refused; any other is
      trimmed and sent in the command envelope when the page is connected. */
  function SendUartCommand(command: string, connected: bool): (e: Effect)
    ensures e == EmptyCommandRejected <==> command == ""
    ensures e == NotConnected <==> command != "" && !connected
    ensures e.Sent? ==> e.wire.CommandEnvelope? && IsTrimOf(e.wire.command, command)
    ensures e.Sent? ==> e.wire.command == "" || !IsJsSpace(e.wire.command[0])
    ensures e.Sent? ==> e.wire.command == "" || !IsJsSpace(e.wire.command[|e.wire.command| - 1])
    ensures e.Sent? ==> e.wire.command == Trim(command)
  {
    if command == "" then EmptyCommandRejected
    else if connected then Sent(CommandEnvelope(Trim(command)))
    else NotConnected
  }

  /** `sendUARTData(data)`: the data is written unchanged when connected. */
  function SendUartData(data: string, connected: bool): (e: Effect)
    ensures e.Sent? <==> connected
    ensures e.Sent? ==> e.wire == RawData(data)
    ensures !e.Sent? ==> e == NotConnected
  {
    if connected then Sent(RawData(data)) else NotConnected
  }

  /** The command `handleSniffAction(action)` queues. */
  function SniffCommand(action: string): (c: string)
    ensures c != ""
    ensures action == "stop" ==> c == "stop sniff"
    ensures action == "all" ==> c == "start sniff"
    ensures action != "stop" && action != "all" ==> c == "sniff " + action
  {
    if action == "stop" then "stop sniff"
    else if action == "all" then "start sniff"
    else "sniff " + action
  }

  /** A sniff button appends its command to the back of the command queue,
      and a queued sniff command is always sent, never refused as empty. */
  function HandleSniffAction(commands: seq<string>, action: string): (r: seq<string>)
    ensures |r| == |commands| + 1 && r[..|commands|] == commands
    ensures r[|commands|] == SniffCommand(action)
    ensures SendUartCommand(r[|commands|], true).Sent?
  {
    commands + [SniffCommand(action)]
  }

  // ---------------------------------------------------------------------
  // One tick of processCommandQueue

  /** The two queues the tick drains. */
  datatype Queues = Queues(commands: seq<string>, data: seq<string>)

  /** How many of at most `n` checks starting with reading `from` pass: each
      check reads `bufferedAmount` once, and the first reading at or above the
      threshold ends the loop. */
  function Admitted(readings: seq<nat>, from: nat, n: nat): (k: nat)
    requires from + n <= |readings|
    ensures k <= n
    ensures forall j | from <= j < from + k :: readings[j] < BufferThreshold
    ensures k < n ==> readings[from + k] >= BufferThreshold
    decreases n
  {
    if n == 0 || readings[from] >= BufferThreshold then 0
    else 1 + Admitted(readings, from + 1, n - 1)
  }

  /** Only one count satisfies the loop's stopping rule. */
  lemma {:induction false} AdmittedUnique(readings: seq<nat>, from: nat, n: nat, k: nat)
    requires from + n <= |readings| && k <= n
    requires forall j | from <= j < from + k :: readings[j] < BufferThreshold
    requires k < n ==> readings[from + k] >= BufferThreshold
    ensures Admitted(readings, from, n) == k
    decreases n
  {
    if k > 0 {
      AdmittedUnique(readings, from + 1, n - 1, k - 1);
    }
  }

  /** The effects of sending `cmds` one after the other while connected. */
  function CommandEffects(cmds: seq<string>): (es: seq<Effect>)
    ensures |es| == |cmds|
    ensures forall k | 0 <= k < |cmds| :: es[k] == SendUartCommand(cmds[k], true)
  {
    seq(|cmds|, k requires 0 <= k < |cmds| => SendUartCommand(cmds[k], true))
  }

  /** The effects of sending `items` one after the other while connected. */
  function DataEffects(items: seq<string>): (es: seq<Effect>)
    ensures |es| == |items|
    ensures forall k | 0 <= k < |items| :: es[k] == Sent(RawData(items[k]))
  {
    seq(|items|, k requires 0 <= k < |items| => SendUartData(items[k], true))
  }

  /** `after` is what is left of the queue `before` when its loop read
      `readings` from index `from` on: the items taken are a prefix, each one
      was taken on a reading below the threshold, and the loop stopped only at
      an empty queue or at a reading at or above it. */
  predicate DrainedBy(before: seq<string>, after: seq<string>, readings: seq<nat>, from: nat) {
    && |after| <= |before|
    && after == before[|before| - |after|..]
    && from + |before| - |after| <= |readings|
    && (forall j | from <= j < from + |before| - |after| :: readings[j] < BufferThreshold)
    && (|after| > 0 ==> from + |before| - |after| < |readings|
                        && readings[from + |before| - |after|] >= BufferThreshold)
  }

  /** One tick, as a function of the queues, the connection flag and the
      successive `bufferedAmount` readings. */
  function Tick(q: Queues, connected: bool, readings: seq<nat>): (r: (Queues, seq<Effect>))
    requires |q.commands| + |q.data| <= |readings|
    ensures !connected ==> r == (q, [])
    ensures connected ==> DrainedBy(q.commands, r.0.commands, readings, 0)
    ensures connected && r.0.commands == [] ==> DrainedBy(q.data, r.0.data, readings, |q.commands|)
    ensures r.0.commands != [] ==> r.0.data == q.data
    ensures r.1 == CommandEffects(q.commands[..|q.commands| - |r.0.commands|])
                 + DataEffects(q.data[..|q.data| - |r.0.data|])
  {
    if !connected then (q, [])
    else
      var k := Admitted(readings, 0, |q.commands|);
      var m := if k == |q.commands| then Admitted(readings, k, |q.data|) else 0;
      (Queues(q.commands[k..], q.data[m..]), CommandEffects(q.commands[..k]) + DataEffects(q.data[..m]))
  }

  /** `processCommandQueue()`: one tick, with the loops of the source.
      `readings[i]` is the value `bufferedAmount` has at the tick's i-th check;
      a tick checks at most once per queued item. */
  method ProcessCommandQueue(connected: bool, commands: seq<string>, data: seq<string>, readings: seq<nat>)
    returns (commands': seq<string>, data': seq<string>, effects: seq<Effect>)
    requires |commands| + |data| <= |readings|
    ensures (Queues(commands', data'), effects) == Tick(Queues(commands, data), connected, readings)
  {
    commands', data', effects := commands, data, [];
    if connected {
      var used := 0;
      while |commands'| > 0
        invariant used <= |commands| && commands' == commands[used..]
        invariant forall j | 0 <= j < used :: readings[j] < BufferThreshold
        invariant effects == CommandEffects(commands[..used])
        decreases |commands'|
      {
        if readings[used] < BufferThreshold {
          var command := commands'[0];
          commands' := commands'[1..];
          effects := effects + [SendUartCommand(command, true)];
          used := used + 1;
        } else {
          break;
        }
      }
      AdmittedUnique(readings, 0, |commands|, used);
      ghost var commandEffects := effects;
      if |commands'| == 0 {
        var sent := 0;
        while |data'| > 0
          invariant sent <= |data| && data' == data[sent..]
          invariant forall j | used <= j < used + sent :: readings[j] < BufferThreshold
          invariant effects == commandEffects + DataEffects(data[..sent])
          decreases |data'|
        {
          if readings[used + sent] < BufferThreshold {
            var item := data'[0];
            data' := data'[1..];
            effects := effects + [SendUartData(item, true)];
            sent := sent + 1;
          } else {
            break;
          }
        }
        AdmittedUnique(readings, used, |data|, sent);
      } else {
        assert data[0..] == data;
        assert DataEffects(data[..0]) == [];
        assert effects == effects + [];
      }
    }
  }

  // ---------------------------------------------------------------------
  // Properties across ticks

  /** In a tick's effects no data is sent ahead of a command. */
  lemma CommandsBeforeData(q: Queues, connected: bool, readings: seq<nat>)
    requires |q.commands| + |q.data| <= |readings|
    ensures var es := Tick(q, connected, readings).1;
      forall i, j | 0 <= i < j < |es| ::
        es[i].Sent? && es[i].wire.RawData? ==> !(es[j].Sent? && es[j].wire.CommandEnvelope?)
  {
  }

  /** With every reading below the threshold a connected tick empties both
      queues, sending every command and then every data item, in order. */
  lemma {:induction false} LowBufferDrainsAll(q: Queues, readings: seq<nat>)
    requires |q.commands| + |q.data| <= |readings|
    requires forall j | 0 <= j < |readings| :: readings[j] < BufferThreshold
    ensures Tick(q, true, readings) == (Queues([], []), CommandEffects(q.commands) + DataEffects(q.data))
  {
    AdmittedUnique(readings, 0, |q.commands|, |q.commands|);
    AdmittedUnique(readings, |q.commands|, |q.data|, |q.data|);
    assert q.commands[..|q.commands|] == q.commands;
    assert q.data[..|q.data|] == q.data;
  }

  /** A sniff button's command is sent, trimmed, by the next tick once every
      command queued ahead of it is out: with a quiet transport the tick sends
      the earlier commands in order and then this one, and empties the queue. */
  lemma {:induction false} SniffActionReachesWire(commands: seq<string>, action: string, readings: seq<nat>)
    requires |commands| + 1 <= |readings|
    requires forall j | 0 <= j < |readings| :: readings[j] < BufferThreshold
    ensures var r := Tick(Queues(HandleSniffAction(commands, action), []), true, readings);
      && r.0 == Queues([], [])
      && |r.1| == |commands| + 1
      && r.1[..|commands|] == CommandEffects(commands)
      && r.1[|commands|] == Sent(CommandEnvelope(Trim(SniffCommand(action))))
  {
    var cmds := HandleSniffAction(commands, action);
    var q := Queues(cmds, []);
    LowBufferDrainsAll(q, readings);
    var cs := CommandEffects(cmds);
    assert DataEffects(q.data) == [];
    assert Tick(q, true, readings) == (Queues([], []), cs) by {
      assert cs + [] == cs;
    }
    assert cs[|commands|] == SendUartCommand(SniffCommand(action), true);
    assert cs[..|commands|] == CommandEffects(commands) by {
      assert forall k | 0 <= k < |commands| :: cmds[k] == commands[k];
    }
  }

  /** Commands `a`, `b` and data `x` with a quiet transport go out as `a`,
      `b`, `x` in one tick. */
  lemma QuietTickExample()
    ensures Tick(Queues(["a", "b"], ["x"]), true, [0, 0, 0])
      == (Queues([], []), [Sent(CommandEnvelope("a")), Sent(CommandEnvelope("b")), Sent(RawData("x"))])
  {
    var q := Queues(["a", "b"], ["x"]);
    LowBufferDrainsAll(q, [0, 0, 0]);
    TrimUntouched("a");
    TrimUntouched("b");
    var cs, ds := CommandEffects(q.commands), DataEffects(q.data);
    assert cs == [Sent(CommandEnvelope("a")), Sent(CommandEnvelope("b"))] by {
      assert cs[0] == SendUartCommand("a", true) && cs[1] == SendUartCommand("b", true);
    }
    assert ds == [Sent(RawData("x"))];
    assert cs + ds == [Sent(CommandEnvelope("a")), Sent(CommandEnvelope("b")), Sent(RawData("x"))];
  }

  /** When the buffer fills after `a` is sent, `b` and `x` stay queued and the
      next tick with a quiet transport sends them. */
  lemma BackpressureExample()
    ensures Tick(Queues(["a", "b"], ["x"]), true, [0, 2048, 0])
      == (Queues(["b"], ["x"]), [Sent(CommandEnvelope("a"))])
    ensures Tick(Queues(["b"], ["x"]), true, [0, 0])
      == (Queues([], []), [Sent(CommandEnvelope("b")), Sent(RawData("x"))])
  {
    TrimUntouched("a");
    TrimUntouched("b");
    AdmittedUnique([0, 2048, 0], 0, 2, 1);
    assert ["a", "b"][1..] == ["b"] && ["a", "b"][..1] == ["a"] && ["x"][0..] == ["x"];
    var sentFirst := CommandEffects(["a"]);
    assert sentFirst == [Sent(CommandEnvelope("a"))] by {
      assert sentFirst[0] == SendUartCommand("a", true);
    }
    assert DataEffects(["x"][..0]) == [];
    assert sentFirst + [] == sentFirst;
    LowBufferDrainsAll(Queues(["b"], ["x"]), [0, 0]);
    var cs, ds := CommandEffects(["b"]), DataEffects(["x"]);
    assert cs == [Sent(CommandEnvelope("b"))] by {
      assert cs[0] == SendUartCommand("b", true);
    }
    assert ds == [Sent(RawData("x"))];
    assert cs + ds == [Sent(CommandEnvelope("b")), Sent(RawData("x"))];
  }
}
