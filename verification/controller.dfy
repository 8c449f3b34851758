/** `CmdAgent.run`: ask the model, record the exchange, then offer every
    extracted command to the user one at a time, run the confirmed ones,
    and for a command marked `#feedback` send its result back to the model
    and queue the commands of that answer right after the current one.

    Everything outside the agent is an input of the model: the user's
    answers at the confirmation prompt, the outcomes of the shell and the
    model client's replies, each indexed by how many of them came before. */
module Controller {
  import opened Wrappers
  import opened Text
  import opened Extractor
  import opened Executor
  import opened Conversation

  /** What the model client gave back for one query. */
  datatype Reply = Answer(text: string) | ClientError(message: string)

  const ClientErrorPrefix: string := "Error getting response: "

  /** `_get_response`: the model's text, or the error text the agent puts in
      its place when the client raises. */
  function ResponseText(r: Reply): string {
    match r
    case Answer(text) => text
    case ClientError(message) => ClientErrorPrefix + message
  }

  /** The world outside the agent during one run: the `k`-th answer typed at
      the confirmation prompt, the outcome of the `k`-th command given to the
      shell, and the `k`-th reply of the model to a query. */
  datatype World = World(
    answer: nat -> string,
    shell: (nat, string) -> Outcome,
    client: (nat, string) -> Reply)

  /** The state of a run: the conversation so far, the items offered at the
      prompt, the commands run, and the number of queries sent to the model. */
  datatype Session = Session(history: History, asked: seq<Item>, ran: seq<string>, calls: nat)

  // ------------------------------------------------------ the command queue

  /** `commands[:i+1] + new_commands + commands[i+1:]`. */
  function Splice(q: seq<Item>, i: nat, added: seq<Item>): (r: seq<Item>)
    requires i < |q|
    ensures |r| == |q| + |added|
  {
    q[..i + 1] + added + q[i + 1..]
  }

  /** The spliced queue keeps everything up to the current item, then holds
      the new items, then the rest of the old queue: removing the new items
      gives the old queue back. */
  lemma SpliceInverse(q: seq<Item>, i: nat, added: seq<Item>)
    requires i < |q|
    ensures Splice(q, i, added)[..i + 1] == q[..i + 1]
    ensures Splice(q, i, added)[i + 1..i + 1 + |added|] == added
    ensures Splice(q, i, added)[..i + 1] + Splice(q, i, added)[i + 1 + |added|..] == q
  {
    var r := Splice(q, i, added);
    assert r[..i + 1] == q[..i + 1];
    assert r[i + 1..i + 1 + |added|] == added;
    assert r[i + 1 + |added|..] == q[i + 1..];
  }

  /** What remains after the current item is the new items, then the old rest. */
  lemma SpliceRest(q: seq<Item>, i: nat, added: seq<Item>)
    requires i < |q|
    ensures Splice(q, i, added)[i + 1..] == added + q[i + 1..]
  {
    var r := Splice(q, i, added);
    assert r == q[..i + 1] + (added + q[i + 1..]);
  }

  /** With the cursor on the first of three items, two new items land
      between it and the second. */
  lemma SpliceAfterFirst(a: Item, b: Item, c: Item, x: Item, y: Item)
    ensures Splice([a, b, c], 0, [x, y]) == [a, x, y, b, c]
  {
  }

  // ------------------------------------------------------ one command

  /** One turn of the loop on `item`: the prompt, then either the skip notice,
      or the command's result and, for a `#feedback` command, the model's
      answer to it. Also gives the commands that answer adds to the queue. */
  function Step(w: World, s: Session, item: Item): (r: (Session, seq<Item>))
    ensures r.0.asked == s.asked + [item]
    ensures s.calls <= r.0.calls <= s.calls + 1
    ensures r.0.calls == s.calls ==> r.1 == []
  {
    var asked := s.asked + [item];
    if Confirmed(w.answer(|s.asked|)) then
      var content := ResultContent(Execute(w.shell(|s.ran|, item.command)));
      var history := s.history + [Entry(System, content)];
      var ran := s.ran + [item.command];
      if item.needsFeedback then
        var reply := ResponseText(w.client(s.calls, FeedbackQuery(content)));
        (Session(history + [Entry(Assistant, reply)], asked, ran, s.calls + 1), Extract(reply))
      else
        (Session(history, asked, ran, s.calls), [])
    else
      (Session(s.history + [Entry(System, SkipNotice)], asked, s.ran, s.calls), [])
  }

  /** A turn runs the item's command exactly when the answer at the prompt
      lowers to `y`, and gives it the next shell slot; a skipped item runs nothing. */
  lemma StepRunsIffConfirmed(w: World, s: Session, item: Item)
    ensures var r := Step(w, s, item).0;
      && (Confirmed(w.answer(|s.asked|)) ==> r.ran == s.ran + [item.command])
      && (!Confirmed(w.answer(|s.asked|)) ==> r.ran == s.ran)
  {
  }

  /** A turn keeps the history and appends one system entry, which reads back
      as the command's result when it ran and is the skip notice otherwise,
      and then one assistant entry exactly when a `#feedback` command ran. */
  lemma StepEntries(w: World, s: Session, item: Item)
    ensures var r := Step(w, s, item).0;
      && |r.history| == |s.history| + 1 + (r.calls - s.calls)
      && r.history[..|s.history|] == s.history
      && (r.calls == s.calls + 1 <==> Confirmed(w.answer(|s.asked|)) && item.needsFeedback)
      && r.history[|s.history|].role == System
      && (Confirmed(w.answer(|s.asked|)) ==>
            ParseResultContent(r.history[|s.history|].content)
              == Some(Execute(w.shell(|s.ran|, item.command))))
      && (!Confirmed(w.answer(|s.asked|)) ==> r.history[|s.history|].content == SkipNotice)
      && (r.calls == s.calls + 1 ==> r.history[|s.history| + 1].role == Assistant)
  {
    var r := Step(w, s, item).0;
    if Confirmed(w.answer(|s.asked|)) {
      var content := ResultContent(Execute(w.shell(|s.ran|, item.command)));
      ResultContentRoundTrip(Execute(w.shell(|s.ran|, item.command)));
      if item.needsFeedback {
        var reply := ResponseText(w.client(s.calls, FeedbackQuery(content)));
        assert r.history == s.history + [Entry(System, content), Entry(Assistant, reply)];
      } else {
        assert r.history == s.history + [Entry(System, content)];
      }
    } else {
      assert r.history == s.history + [Entry(System, SkipNotice)];
    }
  }

  /** The commands a turn queues are those of the model's answer to the
      feedback query, which carries the command's result. */
  lemma StepQueues(w: World, s: Session, item: Item)
    ensures var (r, added) := Step(w, s, item);
      r.calls == s.calls + 1 ==>
        && added == Extract(r.history[|r.history| - 1].content)
        && r.history[|r.history| - 1].content == ResponseText(w.client(s.calls,
             FeedbackQuery(ResultContent(Execute(w.shell(|s.ran|, item.command))))))
  {
  }

  // ------------------------------------------------------ the whole queue

  /** From the `quiet`-th query on, the model's answers hold no command:
      the hypothesis under which the loop of `run` ends. */
  ghost predicate Quiet(w: World, quiet: nat) {
    forall k: nat, q: string :: quiet <= k ==> Extract(ResponseText(w.client(k, q))) == []
  }

  /** Queries still to come before the model stops proposing commands. */
  function Pressure(s: Session, quiet: nat): nat {
    if s.calls < quiet then quiet - s.calls else 0
  }

  /** A turn either sends a query (using up pressure) or queues nothing. */
  lemma StepQuiet(w: World, s: Session, item: Item, quiet: nat)
    requires Quiet(w, quiet)
    ensures Pressure(Step(w, s, item).0, quiet) < Pressure(s, quiet) || Step(w, s, item).1 == []
  {
  }

  /** The work-list reading of the loop: take the first pending item, take
      its turn, and put the commands it queues in front of the rest. */
  function Drain(w: World, s: Session, pending: seq<Item>, quiet: nat): Session
    requires Quiet(w, quiet)
    decreases Pressure(s, quiet), |pending|
  {
    if |pending| == 0 then s
    else
      var (s', added) := Step(w, s, pending[0]);
      StepQuiet(w, s, pending[0], quiet);
      Drain(w, s', added + pending[1..], quiet)
  }

  /** One turn of the work list. */
  lemma DrainStep(w: World, s: Session, pending: seq<Item>, quiet: nat)
    requires Quiet(w, quiet) && |pending| > 0
    ensures Drain(w, s, pending, quiet)
      == Drain(w, Step(w, s, pending[0]).0, Step(w, s, pending[0]).1 + pending[1..], quiet)
  {
  }

  /** The work list only appends: history, prompts and runs all keep their
      prefix; every turn adds one entry, plus one for each query sent; and a
      command runs only after a prompt, a query only after a run. */
  lemma {:induction false} DrainGrows(w: World, s: Session, pending: seq<Item>, quiet: nat)
    requires Quiet(w, quiet)
    ensures var r := Drain(w, s, pending, quiet);
      && |r.history| >= |s.history| && r.history[..|s.history|] == s.history
      && |r.asked| >= |s.asked| && r.asked[..|s.asked|] == s.asked
      && |r.ran| >= |s.ran| && r.ran[..|s.ran|] == s.ran
      && r.calls >= s.calls
      && |r.history| - |s.history| == (|r.asked| - |s.asked|) + (r.calls - s.calls)
      && r.calls - s.calls <= |r.ran| - |s.ran| <= |r.asked| - |s.asked|
    decreases Pressure(s, quiet), |pending|
  {
    if |pending| > 0 {
      var (s', added) := Step(w, s, pending[0]);
      StepQuiet(w, s, pending[0], quiet);
      StepEntries(w, s, pending[0]);
      StepRunsIffConfirmed(w, s, pending[0]);
      DrainGrows(w, s', added + pending[1..], quiet);
      DrainStep(w, s, pending, quiet);
      var r := Drain(w, s, pending, quiet);
      assert r.history[..|s.history|] == r.history[..|s'.history|][..|s.history|];
      assert r.asked[..|s.asked|] == r.asked[..|s'.asked|][..|s.asked|];
      assert r.ran[..|s.ran|] == r.ran[..|s'.ran|][..|s.ran|];
    }
  }

  /** `a` occurs in `b` in order, possibly with other items in between. */
  predicate Embeds(a: seq<Item>, b: seq<Item>)
    decreases |b|
  {
    |a| == 0 || (|b| > 0 && ((a[0] == b[0] && Embeds(a[1..], b[1..])) || Embeds(a, b[1..])))
  }

  lemma EmbedsCons(a: seq<Item>, x: Item, b: seq<Item>)
    requires Embeds(a, b)
    ensures Embeds(a, [x] + b)
  {
    assert ([x] + b)[1..] == b;
  }

  /** Dropping items from the front of the pattern keeps it embedded. */
  lemma {:induction false} EmbedsDropFront(x: seq<Item>, y: seq<Item>, b: seq<Item>)
    requires Embeds(x + y, b)
    ensures Embeds(y, b)
    decreases |b|
  {
    if |x| > 0 && |y| > 0 {
      var xy := x + y;
      if xy[0] == b[0] && Embeds(xy[1..], b[1..]) {
        assert xy[1..] == x[1..] + y;
        EmbedsDropFront(x[1..], y, b[1..]);
      } else {
        EmbedsDropFront(x, y, b[1..]);
      }
      EmbedsCons(y, b[0], b[1..]);
      assert [b[0]] + b[1..] == b;
    } else if |x| == 0 {
      assert x + y == y;
    }
  }

  /** The prompts asked so far stay a prefix of those asked later. */
  lemma {:induction false} DrainAskedGrows(w: World, s: Session, pending: seq<Item>, quiet: nat)
    requires Quiet(w, quiet)
    ensures var r := Drain(w, s, pending, quiet);
      |r.asked| >= |s.asked| && r.asked[..|s.asked|] == s.asked
    decreases Pressure(s, quiet), |pending|
  {
    if |pending| > 0 {
      var (s', added) := Step(w, s, pending[0]);
      StepQuiet(w, s, pending[0], quiet);
      DrainAskedGrows(w, s', added + pending[1..], quiet);
      DrainStep(w, s, pending, quiet);
      var r := Drain(w, s, pending, quiet);
      assert r.asked[..|s.asked|] == r.asked[..|s'.asked|][..|s.asked|];
    }
  }

  /** After a prefix ending in `x`, the rest starts with `x`. */
  lemma PrefixThen(r: seq<Item>, a: seq<Item>, x: Item)
    requires |r| >= |a| + 1 && r[..|a| + 1] == a + [x]
    ensures r[|a|..] == [x] + r[|a| + 1..]
  {
    assert r[|a|] == (a + [x])[|a|];
  }

  /** An item put in front of an embedding of the rest embeds the whole. */
  lemma EmbedsHead(a: seq<Item>, b: seq<Item>)
    requires |a| > 0 && Embeds(a[1..], b)
    ensures Embeds(a, [a[0]] + b)
  {
    assert ([a[0]] + b)[1..] == b;
  }

  /** Every pending item is offered at the prompt, in order: what the work
      list asks embeds everything that was pending when it started. */
  lemma {:induction false} DrainAsksPending(w: World, s: Session, pending: seq<Item>, quiet: nat)
    requires Quiet(w, quiet)
    ensures var r := Drain(w, s, pending, quiet);
      |r.asked| >= |s.asked| && Embeds(pending, r.asked[|s.asked|..])
    decreases Pressure(s, quiet), |pending|
  {
    var r := Drain(w, s, pending, quiet);
    DrainAskedGrows(w, s, pending, quiet);
    if |pending| > 0 {
      var (s', added) := Step(w, s, pending[0]);
      StepQuiet(w, s, pending[0], quiet);
      DrainStep(w, s, pending, quiet);
      DrainAsksPending(w, s', added + pending[1..], quiet);
      DrainAskedGrows(w, s', added + pending[1..], quiet);
      EmbedsDropFront(added, pending[1..], r.asked[|s'.asked|..]);
      PrefixThen(r.asked, s.asked, pending[0]);
      EmbedsHead(pending, r.asked[|s'.asked|..]);
    }
  }

  // ------------------------------------------------------ run and clear_history

  /** The session after the first exchange: the query and the model's
      answer recorded, nothing asked or run yet, one query sent. */
  function Opened(history: History, query: string, response: string): (s: Session)
    ensures |s.history| == |history| + 2 && s.history[..|history|] == history
    ensures s.history[|history|..] == [Entry(User, query), Entry(Assistant, response)]
    ensures s.asked == [] && s.ran == []
  {
    Session(history + [Entry(User, query), Entry(Assistant, response)], [], [], 1)
  }

  /** One pass of the loop body keeps the loop's invariants: the work list
      still ends where it did, the items offered so far are the queue up to
      the cursor, and either pressure drops or nothing was queued. */
  lemma CursorStep(w: World, s: Session, commands: seq<Item>, i: nat, quiet: nat)
    requires Quiet(w, quiet) && i < |commands| && s.asked == commands[..i]
    ensures var (next, added) := Step(w, s, commands[i]);
      var rest := Splice(commands, i, added);
      && Drain(w, next, rest[i + 1..], quiet) == Drain(w, s, commands[i..], quiet)
      && next.asked == rest[..i + 1]
      && Pressure(next, quiet) <= Pressure(s, quiet)
      && (Pressure(next, quiet) < Pressure(s, quiet) || |rest| == |commands|)
  {
    var (next, added) := Step(w, s, commands[i]);
    StepQuiet(w, s, commands[i], quiet);
    DrainStep(w, s, commands[i..], quiet);
    SpliceRest(commands, i, added);
    SpliceInverse(commands, i, added);
    assert commands[..i + 1] == commands[..i] + [commands[i]];
    assert commands[i..][1..] == commands[i + 1..];
  }

  /** Once the cursor has passed the whole queue, the session is the work
      list's, and the queue is exactly the items it offered. */
  lemma CursorDone(w: World, s: Session, s0: Session, commands: seq<Item>, pending: seq<Item>, quiet: nat)
    requires Quiet(w, quiet) && s0.asked == []
    requires Drain(w, s, commands[|commands|..], quiet) == Drain(w, s0, pending, quiet)
    requires s.asked == commands
    ensures s == Drain(w, s0, pending, quiet)
    ensures Drain(w, s0, pending, quiet).asked == commands
    ensures Embeds(pending, commands)
  {
    assert commands[|commands|..] == [];
    DrainAsksPending(w, s0, pending, quiet);
  }

  /** `CmdAgent.run(query, execute=...)` on a history: returns the model's
      first answer and the new history. `queue` is the command list as the
      loop leaves it, with every spliced-in command in place: each of its
      positions is offered at the prompt exactly once, in order, and the
      commands of the first answer keep their order in it. */
  method Run(history: History, query: string, execute: bool, w: World, ghost quiet: nat)
    returns (response: string, log: History, queue: seq<Item>)
    requires Quiet(w, quiet)
    ensures response == ResponseText(w.client(0, query))
    ensures |log| >= |history| + 2
    ensures log[..|history| + 2] == history + [Entry(User, query), Entry(Assistant, response)]
    ensures !execute ==> log == history + [Entry(User, query), Entry(Assistant, response)]
    ensures !execute ==> queue == []
    ensures execute ==> log == Drain(w, Opened(history, query, response), Extract(response), quiet).history
    ensures execute ==> Drain(w, Opened(history, query, response), Extract(response), quiet).asked == queue
    ensures execute ==> Embeds(Extract(response), queue)
  {
    queue := [];
    log := history + [Entry(User, query)];
    response := ResponseText(w.client(0, query));
    log := log + [Entry(Assistant, response)];
    if execute {
      var commands := Extract(response);
      var s := Opened(history, query, response);
      ghost var s0 := s;
      var i := 0;
      while i < |commands|
        invariant i <= |commands|
        invariant Drain(w, s, commands[i..], quiet) == Drain(w, s0, Extract(response), quiet)
        invariant s.asked == commands[..i]
        decreases Pressure(s, quiet), |commands| - i
      {
        var (next, added) := Step(w, s, commands[i]);
        CursorStep(w, s, commands, i, quiet);
        commands := Splice(commands, i, added);
        s := next;
        i := i + 1;
      }
      CursorDone(w, s, s0, commands, Extract(response), quiet);
      DrainGrows(w, s0, Extract(response), quiet);
      log := s.history;
      queue := commands;
    }
  }

  /** `CmdAgent.clear_history` followed by a run: the history then starts
      with exactly that run's query and answer. */
  lemma ClearThenRun(h: History, w: World, query: string, response: string, quiet: nat)
    requires Quiet(w, quiet)
    ensures var r := Drain(w, Opened(Clear(h), query, response), Extract(response), quiet);
      |r.history| >= 2 && r.history[..2] == [Entry(User, query), Entry(Assistant, response)]
  {
    DrainGrows(w, Opened(Clear(h), query, response), Extract(response), quiet);
  }
}
