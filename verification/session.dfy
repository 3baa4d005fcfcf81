/**
 * The connection state machine of the client. The socket is abstract: each
 * attempt to open it, and each line exchanged over it, is given as an
 * outcome. The client keeps whether it holds an open stream, whether it has
 * logged in, and the snapshot whose `connected` and `lastError` fields
 * report the link to callers.
 */
module Session {
  import opened Optional
  import opened PyText
  import opened Const
  import opened ThermostatState
  import opened Codec
  import opened PollMerge
  import opened Commands

  /** The login name and the authentication hash derived from the password. */
  datatype Config = Config(username: string, authHash: string)

  /** How an exchange over the socket can fail. */
  datatype Fault =
    | Timeout
    | OsFault(detail: string)
    | OtherFault(detail: string)

  /** Opening the socket either succeeds or fails with a fault. */
  datatype OpenOutcome = Opened | OpenFailed(fault: Fault)

  /** Writing a line and reading the answer: the raw answer line, or a fault. */
  datatype Exchange = Reply(line: string) | Failed(fault: Fault)

  /** What one connection attempt meets: opening the socket, then the login exchange. */
  datatype Dial = Dial(open: OpenOutcome, login: Exchange)

  /**
   * What one command meets: the connection attempt made first when the
   * client is not logged in, then the command's own exchange. Parts the
   * client does not reach are not used.
   */
  datatype Round = Round(dial: Dial, reply: Exchange)

  /**
   * The client: its configuration, whether it holds an open stream (reader
   * and writer), whether it is logged in, and the snapshot.
   */
  datatype Client = Client(cfg: Config, linked: bool, authenticated: bool, state: State)

  /** Being logged in needs an open stream and shows as connected. */
  predicate Inv(c: Client) {
    c.authenticated ==> c.linked && c.state.connected
  }

  /** The line sent to log in: `WMLS1D{username},{hash}` and a line break. */
  function LoginLine(cfg: Config): string {
    CmdLogin + cfg.username + "," + cfg.authHash + "\r\n"
  }

  /** The line sent for a command: the command and a line break. */
  function CommandLine(command: string): string {
    command + "\r\n"
  }

  /** The error message a failed connection attempt records. */
  function FaultMessage(f: Fault): (m: string)
    ensures f.Timeout? ==> m == "Connection timeout"
    ensures f.OsFault? ==> m == "Connection failed: " + f.detail
    ensures f.OtherFault? ==> m == f.detail
  {
    match f
    case Timeout => "Connection timeout"
    case OsFault(detail) => "Connection failed: " + detail
    case OtherFault(detail) => detail
  }

  /** `_close_connection_locked`: drops the stream and the login; safe when there is no stream. */
  function Close(c: Client): (d: Client)
    ensures !d.linked && !d.authenticated
    ensures d.cfg == c.cfg && d.state == c.state
    ensures Inv(d)
  {
    c.(linked := false, authenticated := false)
  }

  /** `disconnect`: closes and marks the snapshot as not connected. */
  function Disconnect(c: Client): (d: Client)
    ensures !d.linked && !d.authenticated && !d.state.connected
    ensures d.cfg == c.cfg && SameData(c.state, d.state) && d.state.lastError == c.state.lastError
    ensures Inv(d)
  {
    var closed := Close(c);
    closed.(state := closed.state.(connected := false))
  }

  /** Disconnecting twice is disconnecting once, and a client without a stream disconnects the same way. */
  lemma DisconnectIdempotent(c: Client)
    ensures Disconnect(Disconnect(c)) == Disconnect(c)
    ensures Disconnect(c.(linked := false)) == Disconnect(c)
  {
  }

  /** The result of `connect`: the client afterwards, the boolean returned and the lines written. */
  datatype Connection = Connection(client: Client, ok: bool, written: seq<string>)

  /** The login answer accepts the login when, trimmed, it starts with `OK`. */
  predicate LoginAccepted(dial: Dial) {
    dial.open.Opened? && dial.login.Reply? && StartsWith(Strip(dial.login.line), RespLoginOk)
  }

  /**
   * `connect`: closes any existing stream, opens a new one, sends the login
   * line and reads the answer. The login holds exactly when the trimmed
   * answer starts with `OK`; every failure clears `connected` and records
   * why in `lastError`.
   */
  function Connect(c: Client, dial: Dial): (r: Connection)
    ensures r.ok == r.client.authenticated
    ensures r.ok <==> LoginAccepted(dial)
    ensures r.ok ==> r.client.state.connected && r.client.state.lastError == None
    ensures !r.ok ==> !r.client.state.connected && r.client.state.lastError.Some?
    ensures r.client.linked <==> dial.open.Opened?
    ensures r.written == (if dial.open.Opened? then [LoginLine(c.cfg)] else [])
    ensures r.client.cfg == c.cfg && SameData(c.state, r.client.state)
    ensures Inv(r.client)
  {
    var closed := Close(c);
    match dial.open
    case OpenFailed(f) =>
      Connection(closed.(state := closed.state.(connected := false, lastError := Some(FaultMessage(f)))), false, [])
    case Opened =>
      var linked := closed.(linked := true);
      match dial.login
      case Failed(f) =>
        Connection(linked.(state := linked.state.(connected := false, lastError := Some(FaultMessage(f)))),
                   false, [LoginLine(c.cfg)])
      case Reply(raw) =>
        var answer := Strip(raw);
        if StartsWith(answer, RespLoginOk) then
          Connection(linked.(authenticated := true, state := linked.state.(connected := true, lastError := None)),
                     true, [LoginLine(c.cfg)])
        else
          Connection(linked.(state := linked.state.(connected := false,
                                                    lastError := Some("Authentication failed: " + answer))),
                     false, [LoginLine(c.cfg)])
  }

  /** A rejected login records the trimmed answer; a failed open or exchange records the fault. */
  lemma ConnectErrors(c: Client, dial: Dial)
    ensures dial.open.OpenFailed? ==> Connect(c, dial).client.state.lastError == Some(FaultMessage(dial.open.fault))
    ensures dial.open.Opened? && dial.login.Failed? ==>
      Connect(c, dial).client.state.lastError == Some(FaultMessage(dial.login.fault))
    ensures dial.open.Opened? && dial.login.Reply? && !LoginAccepted(dial) ==>
      Connect(c, dial).client.state.lastError == Some("Authentication failed: " + Strip(dial.login.line))
  {
  }

  /** The result of `_send_command`: the client afterwards, the trimmed answer if any, and the lines written. */
  datatype Sent = Sent(client: Client, response: Option<string>, written: seq<string>)

  /**
   * `_send_command`: logs in first when needed and gives up, writing no
   * command, when that fails; then writes the command and reads one line.
   * A fault clears the login and `connected` and yields no answer.
   */
  function Send(c: Client, command: string, round: Round): (r: Sent)
    ensures r.client.cfg == c.cfg && SameData(c.state, r.client.state)
    ensures Inv(c) ==> Inv(r.client)
  {
    var conn := if c.authenticated then Connection(c, true, []) else Connect(c, round.dial);
    var d := conn.client;
    if !conn.ok then Sent(d, None, conn.written)
    else if !d.linked then Sent(d, None, conn.written)
    else
      match round.reply
      case Failed(_) =>
        Sent(d.(authenticated := false, state := d.state.(connected := false)), None,
             conn.written + [CommandLine(command)])
      case Reply(raw) =>
        Sent(d, Some(Strip(raw)), conn.written + [CommandLine(command)])
  }

  /**
   * What a send promises: an answer is the trimmed line the device sent; a
   * client that is not logged in and cannot log in writes no command and
   * gets no answer; a failed exchange leaves the client logged out and not
   * connected; and afterwards `connected` agrees with the login.
   */
  lemma SendOutcome(c: Client, command: string, round: Round)
    requires Inv(c)
    ensures var r := Send(c, command, round);
      && (r.response.Some? ==> round.reply.Reply? && r.response.value == Strip(round.reply.line))
      && (r.response.Some? <==> (c.authenticated || LoginAccepted(round.dial)) && round.reply.Reply?)
      && (!c.authenticated && !LoginAccepted(round.dial) ==>
            r.response.None? && r.written == Connect(c, round.dial).written)
      && (r.response.Some? ==> r.written[|r.written| - 1] == CommandLine(command))
      && ((c.authenticated || LoginAccepted(round.dial)) ==> r.written == LoginLines(c) + [CommandLine(command)])
      && ((c.authenticated || LoginAccepted(round.dial)) && round.reply.Failed? ==>
            !r.client.authenticated && !r.client.state.connected)
      && (r.client.authenticated ==> c.authenticated || LoginAccepted(round.dial))
      && r.client.state.connected == r.client.authenticated
  {
  }

  /** A logged-in client writes only the command line and does not log in again. */
  lemma SendWhileLoggedIn(c: Client, command: string, round: Round)
    requires Inv(c) && c.authenticated
    ensures Send(c, command, round).written == [CommandLine(command)]
    ensures Send(c, command, round).client.linked
  {
  }

  /** The result of a poll cycle: the client afterwards, the eight answers and every line written. */
  datatype Poll = Poll(client: Client, responses: seq<Option<string>>, written: seq<string>)

  /**
   * `async_update`: sends the eight read verbs in poll order, merges each
   * answer that carries its read's prefix, then marks the snapshot connected
   * with no error, whatever happened to the individual reads. A logged-in
   * client (or one whose login is accepted) whose reads are all answered
   * records every trimmed answer and writes the login line if it needed one,
   * then the eight command lines in poll order.
   */
  method Update(c: Client, rounds: seq<Round>) returns (p: Poll)
    requires |rounds| == |PollOrder|
    ensures |p.responses| == |PollOrder|
    ensures p.client.state == Merge(c.state, p.responses)
    ensures p.client.state.connected && p.client.state.lastError == None
    ensures forall i :: 0 <= i < |PollOrder| && p.responses[i].Some? ==>
      rounds[i].reply.Reply? && p.responses[i].value == Strip(rounds[i].reply.line)
    ensures Inv(c) ==> Inv(p.client)
    ensures !c.authenticated && Unreachable(rounds) ==>
      && p.client.state.connected
      && !p.client.authenticated
      && (forall i :: 0 <= i < |PollOrder| ==> p.responses[i].None?)
      && p.written == []
    ensures Inv(c) && (c.authenticated || LoginAccepted(rounds[0].dial)) && AllReply(rounds) ==>
      && p.client.authenticated
      && (forall i :: 0 <= i < |PollOrder| ==> p.responses[i] == Some(Strip(rounds[i].reply.line)))
      && p.written == LoginLines(c) + CommandLines(PollOrder)
  {
    var q := Cycle(c, PollOrder, rounds);
    CycleMerges(c, PollOrder, rounds);
    CycleAnswersTrimmed(c, PollOrder, rounds);
    CycleOutcomes(c, PollOrder, rounds);
    p := Poll(q.client.(state := q.client.state.(connected := true, lastError := None)), q.responses, q.written);
  }

  /**
   * The poll cycle as the caller's failure check (which raises when the
   * snapshot is not connected) needs it: the status flags are left as the
   * last exchange set them, so `connected` tells whether the client is
   * logged in, and a device that cannot be reached reads as not connected,
   * with the reason in `lastError`.
   */
  method UpdateReportingFailure(c: Client, rounds: seq<Round>) returns (p: Poll)
    requires |rounds| == |PollOrder| && Inv(c)
    ensures |p.responses| == |PollOrder|
    ensures SameData(Merge(c.state, p.responses), p.client.state)
    ensures Inv(p.client)
    ensures p.client.state.connected == p.client.authenticated
    ensures p.client.authenticated ==> p.client.state.lastError == None
    ensures !c.authenticated && Unreachable(rounds) ==>
      && !p.client.state.connected
      && p.client.state.lastError == Some(FaultMessage(rounds[|PollOrder| - 1].dial.open.fault))
      && p.written == []
    ensures (c.authenticated || LoginAccepted(rounds[0].dial)) && AllReply(rounds) ==>
      && p.client.state.connected
      && (forall i :: 0 <= i < |PollOrder| ==> p.responses[i] == Some(Strip(rounds[i].reply.line)))
      && p.written == LoginLines(c) + CommandLines(PollOrder)
  {
    var q := Cycle(c, PollOrder, rounds);
    CycleMerges(c, PollOrder, rounds);
    CycleAnswersTrimmed(c, PollOrder, rounds);
    CycleOutcomes(c, PollOrder, rounds);
    var client := q.client;
    if client.authenticated {
      client := client.(state := client.state.(lastError := None));
    }
    p := Poll(client, q.responses, q.written);
  }

  /** The merge part and the outcome part of a cycle, as the two updates use them. */
  lemma CycleOutcomes(c: Client, order: seq<Read>, rounds: seq<Round>)
    requires |rounds| == |order| && |order| > 0
    ensures var p := Cycle(c, order, rounds);
      && (Inv(c) ==> Inv(p.client) && p.client.state.connected == p.client.authenticated)
      && (!c.authenticated && Unreachable(rounds) ==>
            && !p.client.authenticated
            && (forall i :: 0 <= i < |order| ==> p.responses[i].None?)
            && p.written == []
            && p.client.state.lastError == Some(FaultMessage(rounds[|order| - 1].dial.open.fault)))
      && (Inv(c) && (c.authenticated || LoginAccepted(rounds[0].dial)) && AllReply(rounds) ==>
            && p.client.authenticated
            && (forall i :: 0 <= i < |order| ==> p.responses[i] == Some(Strip(rounds[i].reply.line)))
            && p.written == LoginLines(c) + CommandLines(order))
  {
    if Inv(c) {
      CycleKeepsInv(c, order, rounds);
    }
    if !c.authenticated && Unreachable(rounds) {
      CycleUnreachable(c, order, rounds);
      CycleUnreachableError(c, order, rounds);
    }
    if Inv(c) && (c.authenticated || LoginAccepted(rounds[0].dial)) && AllReply(rounds) {
      CycleAnswered(c, order, rounds);
    }
  }

  /** Every command exchange of the cycle gets an answer line. */
  predicate AllReply(rounds: seq<Round>) {
    forall k :: 0 <= k < |rounds| ==> rounds[k].reply.Reply?
  }

  /** The login line a client writes before its next command: none once it is logged in. */
  function LoginLines(c: Client): seq<string> {
    if c.authenticated then [] else [LoginLine(c.cfg)]
  }

  /** The command lines of the given reads, in order. */
  function CommandLines(order: seq<Read>): (lines: seq<string>)
    ensures |lines| == |order|
    ensures forall i :: 0 <= i < |order| ==> lines[i] == CommandLine(Verb(order[i]))
  {
    if order == [] then [] else [CommandLine(Verb(order[0]))] + CommandLines(order[1..])
  }

  /** Every connection attempt of the cycle fails to open the socket. */
  predicate Unreachable(rounds: seq<Round>) {
    forall k :: 0 <= k < |rounds| ==> rounds[k].dial.open.OpenFailed?
  }

  /** The outcome of one read of a cycle: the client afterwards, the answer and the lines written. */
  datatype Step = Step(client: Client, response: Option<string>, written: seq<string>)

  /** One read of a cycle: send the verb, then merge the answer into the snapshot. */
  function PollStep(c: Client, r: Read, round: Round): (step: Step)
    ensures step.client.state.data == ApplyResponse(c.state.data, r, step.response)
    ensures step.client.cfg == c.cfg
    ensures step.response.Some? ==> round.reply.Reply? && step.response.value == Strip(round.reply.line)
    ensures Inv(c) ==> Inv(step.client) && step.client.state.connected == step.client.authenticated
    ensures !c.authenticated && round.dial.open.OpenFailed? ==>
      !step.client.authenticated && step.response.None? && step.written == [] &&
      step.client.state.lastError == Some(FaultMessage(round.dial.open.fault))
    ensures Inv(c) ==> (step.response.Some? <==> (c.authenticated || LoginAccepted(round.dial)) && round.reply.Reply?)
    ensures Inv(c) && step.client.authenticated ==> c.authenticated || LoginAccepted(round.dial)
    ensures Inv(c) && (c.authenticated || LoginAccepted(round.dial)) && round.reply.Reply? ==>
      && step.client.authenticated
      && step.response == Some(Strip(round.reply.line))
      && step.written == LoginLines(c) + [CommandLine(Verb(r))]
  {
    var sent := Send(c, Verb(r), round);
    if Inv(c) then
      SendOutcome(c, Verb(r), round);
      Step(ApplyToClient(sent.client, r, sent.response), sent.response, sent.written)
    else
      Step(ApplyToClient(sent.client, r, sent.response), sent.response, sent.written)
  }

  /**
   * The reads of a cycle without the closing status update, in the given
   * order, the i-th read meeting the i-th round: the answers in read order
   * and every line written, in the order written. What the cycle does is
   * stated by the lemmas below.
   */
  function Cycle(c: Client, order: seq<Read>, rounds: seq<Round>): (p: Poll)
    requires |rounds| == |order|
    ensures |p.responses| == |order|
    decreases |order|
  {
    if order == [] then Poll(c, [], [])
    else
      var step := PollStep(c, order[0], rounds[0]);
      var rest := Cycle(step.client, order[1..], rounds[1..]);
      Poll(rest.client, [step.response] + rest.responses, step.written + rest.written)
  }

  /** The data after a cycle is the merge of its answers into the data before it; the configuration is kept. */
  lemma {:induction false} CycleMerges(c: Client, order: seq<Read>, rounds: seq<Round>)
    requires |rounds| == |order|
    ensures var p := Cycle(c, order, rounds);
      && MergeReads(c.state.data, order, p.responses) == p.client.state.data
      && p.client.cfg == c.cfg
    decreases |order|
  {
    if order != [] {
      var step := PollStep(c, order[0], rounds[0]);
      var rest := Cycle(step.client, order[1..], rounds[1..]);
      CycleMerges(step.client, order[1..], rounds[1..]);
      assert ([step.response] + rest.responses)[1..] == rest.responses;
    }
  }

  /** Every answer of a cycle is the trimmed reply line of its own round. */
  lemma {:induction false} CycleAnswersTrimmed(c: Client, order: seq<Read>, rounds: seq<Round>)
    requires |rounds| == |order|
    ensures var p := Cycle(c, order, rounds);
      forall i :: 0 <= i < |order| && p.responses[i].Some? ==>
        rounds[i].reply.Reply? && p.responses[i].value == Strip(rounds[i].reply.line)
    decreases |order|
  {
    if order != [] {
      var step := PollStep(c, order[0], rounds[0]);
      var rest := Cycle(step.client, order[1..], rounds[1..]);
      CycleAnswersTrimmed(step.client, order[1..], rounds[1..]);
      TrimmedInOrder(rounds, step.response, rest.responses);
    }
  }

  lemma TrimmedInOrder(rounds: seq<Round>, first: Option<string>, more: seq<Option<string>>)
    requires |rounds| > 0 && |more| == |rounds| - 1
    requires first.Some? ==> rounds[0].reply.Reply? && first.value == Strip(rounds[0].reply.line)
    requires forall i :: 0 <= i < |more| && more[i].Some? ==>
      rounds[1..][i].reply.Reply? && more[i].value == Strip(rounds[1..][i].reply.line)
    ensures forall i :: 0 <= i < |rounds| && ([first] + more)[i].Some? ==>
      rounds[i].reply.Reply? && ([first] + more)[i].value == Strip(rounds[i].reply.line)
  {
    assert forall i :: 1 <= i < |rounds| ==> ([first] + more)[i] == more[i - 1] && rounds[i] == rounds[1..][i - 1];
  }

  /** A consistent client stays consistent, and after at least one read `connected` agrees with the login. */
  lemma {:induction false} CycleKeepsInv(c: Client, order: seq<Read>, rounds: seq<Round>)
    requires |rounds| == |order| && Inv(c)
    ensures var p := Cycle(c, order, rounds);
      && Inv(p.client)
      && (|order| > 0 ==> p.client.state.connected == p.client.authenticated)
    decreases |order|
  {
    if order != [] {
      var step := PollStep(c, order[0], rounds[0]);
      CycleKeepsInv(step.client, order[1..], rounds[1..]);
      if |order| == 1 {
        assert Cycle(step.client, order[1..], rounds[1..]).client == step.client;
      }
    }
  }

  /** A device that cannot be reached: no login, no answers and no line written. */
  lemma {:induction false} CycleUnreachable(c: Client, order: seq<Read>, rounds: seq<Round>)
    requires |rounds| == |order| && !c.authenticated && Unreachable(rounds)
    ensures var p := Cycle(c, order, rounds);
      && !p.client.authenticated
      && (forall i :: 0 <= i < |order| ==> p.responses[i].None?)
      && p.written == []
    decreases |order|
  {
    if order != [] {
      var step := PollStep(c, order[0], rounds[0]);
      UnreachableTail(rounds);
      CycleUnreachable(step.client, order[1..], rounds[1..]);
      var rest := Cycle(step.client, order[1..], rounds[1..]);
      NoAnswersInOrder(step.response, rest.responses);
    }
  }

  lemma NoAnswersInOrder(first: Option<string>, more: seq<Option<string>>)
    requires first.None? && forall i :: 0 <= i < |more| ==> more[i].None?
    ensures forall i :: 0 <= i < |more| + 1 ==> ([first] + more)[i].None?
  {
    assert forall i :: 1 <= i < |more| + 1 ==> ([first] + more)[i] == more[i - 1];
  }

  /** A device that cannot be reached leaves the fault of the last attempt to open the socket as the error. */
  lemma {:induction false} CycleUnreachableError(c: Client, order: seq<Read>, rounds: seq<Round>)
    requires |rounds| == |order| > 0 && !c.authenticated && Unreachable(rounds)
    ensures Cycle(c, order, rounds).client.state.lastError
         == Some(FaultMessage(rounds[|order| - 1].dial.open.fault))
    decreases |order|
  {
    var step := PollStep(c, order[0], rounds[0]);
    if |order| == 1 {
      assert Cycle(step.client, order[1..], rounds[1..]).client == step.client;
    } else {
      UnreachableTail(rounds);
      CycleUnreachableError(step.client, order[1..], rounds[1..]);
      assert rounds[|order| - 1] == rounds[1..][|order| - 2];
    }
  }

  lemma UnreachableTail(rounds: seq<Round>)
    requires |rounds| > 0 && Unreachable(rounds)
    ensures Unreachable(rounds[1..])
  {
    assert forall k :: 0 <= k < |rounds| - 1 ==> rounds[1..][k] == rounds[k + 1];
  }

  /**
   * A logged-in client, or one whose login is accepted, whose reads are all
   * answered: it stays logged in, records every trimmed answer in read
   * order, and writes the login line if it needed one, then one command
   * line per read in read order.
   */
  lemma {:induction false} CycleAnswered(c: Client, order: seq<Read>, rounds: seq<Round>)
    requires |rounds| == |order| && |order| > 0
    requires Inv(c) && (c.authenticated || LoginAccepted(rounds[0].dial)) && AllReply(rounds)
    ensures var p := Cycle(c, order, rounds);
      && p.client.authenticated
      && (forall i :: 0 <= i < |order| ==> p.responses[i] == Some(Strip(rounds[i].reply.line)))
      && p.written == LoginLines(c) + CommandLines(order)
    decreases |order|
  {
    var step := PollStep(c, order[0], rounds[0]);
    var rest := Cycle(step.client, order[1..], rounds[1..]);
    if |order| == 1 {
      assert rest == Poll(step.client, [], []);
      assert CommandLines(order) == [CommandLine(Verb(order[0]))];
    } else {
      AllReplyTail(rounds);
      CycleAnswered(step.client, order[1..], rounds[1..]);
      assert forall i :: 0 <= i < |rest.responses| ==> rounds[1..][i] == rounds[i + 1];
      AnswersInOrder(rounds, step.response, rest.responses);
      CycleLines(c, order, step.written, rest.written);
    }
  }

  lemma AllReplyTail(rounds: seq<Round>)
    requires |rounds| > 0 && AllReply(rounds)
    ensures AllReply(rounds[1..])
  {
    assert forall k :: 0 <= k < |rounds| - 1 ==> rounds[1..][k] == rounds[k + 1];
  }

  /** The answers of an answered cycle: the first read's answer followed by the rest. */
  lemma AnswersInOrder(rounds: seq<Round>, first: Option<string>, more: seq<Option<string>>)
    requires |rounds| > 1 && |more| == |rounds| - 1 && AllReply(rounds)
    requires first == Some(Strip(rounds[0].reply.line))
    requires forall i :: 0 <= i < |more| ==> more[i] == Some(Strip(rounds[i + 1].reply.line))
    ensures forall i :: 0 <= i < |rounds| ==> ([first] + more)[i] == Some(Strip(rounds[i].reply.line))
  {
    assert forall i :: 1 <= i < |rounds| ==> ([first] + more)[i] == more[i - 1];
  }

  /** The lines of an answered cycle: the first read's lines followed by the command lines of the rest. */
  lemma CycleLines(c: Client, order: seq<Read>, head: seq<string>, tail: seq<string>)
    requires |order| > 0
    requires head == LoginLines(c) + [CommandLine(Verb(order[0]))]
    requires tail == CommandLines(order[1..])
    ensures head + tail == LoginLines(c) + CommandLines(order)
  {
    assert CommandLines(order) == [CommandLine(Verb(order[0]))] + CommandLines(order[1..]);
    Regroup(LoginLines(c), [CommandLine(Verb(order[0]))], CommandLines(order[1..]));
  }

  lemma Regroup(a: seq<string>, b: seq<string>, c: seq<string>)
    ensures (a + b) + c == a + (b + c)
  {
  }

  function ApplyToClient(c: Client, r: Read, response: Option<string>): (d: Client)
    ensures d.cfg == c.cfg && d.linked == c.linked && d.authenticated == c.authenticated
    ensures d.state.connected == c.state.connected && d.state.lastError == c.state.lastError
  {
    c.(state := c.state.(data := ApplyResponse(c.state.data, r, response)))
  }

  /** `test_connection`: logs in afresh, then asks for the temperature scale; true when an answer arrives. */
  function TestConnection(c: Client, dial: Dial, round: Round): (r: (Client, bool))
    ensures r.1 <==> LoginAccepted(dial) && round.reply.Reply?
    ensures r.1 ==> r.0.authenticated && r.0.state.connected
    ensures Inv(r.0)
  {
    var conn := Connect(c, dial);
    if !conn.ok then (conn.client, false)
    else
      var sent := Send(conn.client, CmdGetTempScale, round);
      SendOutcome(conn.client, CmdGetTempScale, round);
      (sent.client, sent.response.Some?)
  }

  /** How a setter ends: the boolean it returns, or the exception it raises. */
  datatype WriteOutcome = Confirmed(ok: bool) | Raised(error: string)

  /** The result of a setter: the client afterwards, its outcome and the lines written. */
  datatype Write = Write(client: Client, outcome: WriteOutcome, written: seq<string>)

  /**
   * The common tail of the `async_set_*` setters: an argument that was
   * refused returns false and one that raised propagates, in both cases with
   * nothing sent; a command is sent and the answer is checked.
   */
  function Perform(c: Client, b: Built, round: Round): (w: Write)
    ensures b.Refused? ==> w == Write(c, Confirmed(false), [])
    ensures b.Raise? ==> w == Write(c, Raised(b.error), [])
    ensures b.Command? ==> w.outcome.Confirmed?
    ensures w.client.cfg == c.cfg && SameData(c.state, w.client.state)
    ensures Inv(c) ==> Inv(w.client)
    ensures b.Command? && Inv(c) && (c.authenticated || LoginAccepted(round.dial)) ==>
      && w.written == LoginLines(c) + [CommandLine(b.text)]
      && (round.reply.Reply? ==>
            w.outcome == Confirmed(ValidateWriteResponse(b.text, Some(Strip(round.reply.line)), b.expected)))
      && (round.reply.Failed? ==> w.outcome == Confirmed(false) && !w.client.authenticated)
    ensures b.Command? && Inv(c) && !(c.authenticated || LoginAccepted(round.dial)) ==>
      && w.outcome == Confirmed(false)
      && !w.client.authenticated
      && w.written == Connect(c, round.dial).written
  {
    match b
    case Refused => Write(c, Confirmed(false), [])
    case Raise(error) => Write(c, Raised(error), [])
    case Command(text, expected) =>
      var sent := Send(c, text, round);
      if Inv(c) then
        SendOutcome(c, text, round);
        Write(sent.client, Confirmed(ValidateWriteResponse(text, sent.response, expected)), sent.written)
      else
        Write(sent.client, Confirmed(ValidateWriteResponse(text, sent.response, expected)), sent.written)
  }

  /** A logged-in client sends the command as is and gets the trimmed reply, staying logged in. */
  lemma SendLoggedIn(c: Client, command: string, round: Round)
    requires Inv(c) && c.authenticated && round.reply.Reply?
    ensures Send(c, command, round) == Sent(c, Some(Strip(round.reply.line)), [CommandLine(command)])
  {
  }

  /** The echo `{command}:{value}` of a well-built command is its own `strip()`. */
  lemma EchoTrimmed(b: Built)
    requires b.Command? && WellBuilt(b)
    ensures Strip(b.text + ":" + b.expected.GetOr("")) == b.text + ":" + b.expected.GetOr("")
  {
    var v := b.expected.GetOr("");
    var answer := b.text + ":" + v;
    assert answer[0] == 'W';
    if v != [] {
      assert Strip(v) == v;
      assert answer[|answer| - 1] == v[|v| - 1];
    }
    StripTrimmed(answer);
  }

  /**
   * A logged-in client whose device answers a well-built command with
   * `{command}:{value}`, the value being the one expected, reports the write
   * as confirmed, after writing exactly the command line.
   */
  lemma EchoConfirmsWrite(c: Client, b: Built, round: Round)
    requires Inv(c) && c.authenticated && b.Command? && WellBuilt(b)
    requires round.reply == Reply(b.text + ":" + b.expected.GetOr(""))
    ensures Perform(c, b, round).outcome == Confirmed(true)
    ensures Perform(c, b, round).written == [CommandLine(b.text)]
  {
    var answer := b.text + ":" + b.expected.GetOr("");
    EchoTrimmed(b);
    SendLoggedIn(c, b.text, round);
    EchoAccepted(b);
    assert Send(c, b.text, round).response == Some(answer);
  }

  /** A write whose exchange fails is reported as not confirmed, and the client is logged out. */
  lemma FailedExchangeRefutesWrite(c: Client, b: Built, round: Round)
    requires Inv(c) && b.Command? && round.reply.Failed?
    ensures Perform(c, b, round).outcome == Confirmed(false)
    ensures !Perform(c, b, round).client.authenticated && !Perform(c, b, round).client.state.connected
  {
    SendOutcome(c, b.text, round);
  }

  /** The setter of a dual-verb setting writes the manual verb exactly when the snapshot says manual mode. */
  lemma SetterUsesModeVerb(c: Client, mode: string, round: Round)
    requires Inv(c) && c.authenticated && Upper(mode) in HvacModes
    ensures Perform(c, BuildHvacMode(mode, c.state.data.isManualMode), round).written
         == [CommandLine(SelectVerb(ModeSetting, c.state.data.isManualMode) + Upper(mode))]
    ensures StartsWith(SelectVerb(ModeSetting, c.state.data.isManualMode), "WN") <==> c.state.data.isManualMode
  {
  }
}
