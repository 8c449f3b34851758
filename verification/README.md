# cmd-clever: the command loop of `CmdAgent`, in Dafny

`CmdAgent` (cmdclever/agent.py) asks a language model for help with a shell
task. It pulls the commands the model wrote in fenced `execute` blocks out of
the answer. It offers each command to the user and runs the confirmed ones.
For a block marked `#feedback`, it sends the command's result back to the
model and queues the commands of that second answer right after the current
one. This project models that core and proves properties of it:

- `extract_commands`, the regular expression
  ``` ```execute(\s+#feedback)?\s*(.*?)\s*``` ``` under `re.DOTALL` and
  `re.findall`, then the stripping of both groups (module `Extractor`);
- the mapping in `execute_command` from a process outcome to the
  `(success, output)` pair (module `Executor`);
- the texts the loop writes into the conversation history, and
  `clear_history` (module `Conversation`);
- `run`: the cursor over a command list that grows by splicing, the
  confirmation prompt, the history appends, the feedback round trips and
  the returned first answer (module `Controller`);
- whitespace, `strip()`, `lower()` and decimal rendering (module `Text`);
- concrete answers and what is extracted from them (module `Scenarios`).

The regular expression is modelled twice. `Extractor.MatchAt` and
`Extractor.Scan` form a left-to-right scanner. `Extractor.IsParse`,
`Precedes`, `Chosen` and `FindAll` state declaratively what Python's
backtracking matcher and `findall` report. `IsParse` is membership in the
pattern's language with the group boundaries made explicit. `Precedes` is
the order in which backtracking tries alternatives: greedy group 1, greedy
`\s*`, lazy `.*?`, then greedy `\s*`. The two readings are proved equal
(`MatchAtIff`, `ScanFindAll`), and the properties of `extract_commands` are
proved against the declarative reading.

In `run`, everything outside the agent is an input, held in a
`Controller.World`. The world gives the `k`-th answer typed at the prompt,
the outcome of the `k`-th command given to the shell, and the model's `k`-th
reply. `Controller.Drain` is a work-list reading of the loop: process the
first pending item, then put the commands it queues in front of the rest.
`Controller.Run` is the source's index-and-splice loop, proved to produce
exactly the history `Drain` produces.

The source's loop need not end: a model that keeps answering feedback
queries with new commands keeps it going. `Run` and `Drain` therefore
assume `Controller.Quiet(w, quiet)`: from the `quiet`-th query on, the
model's answers hold no command. The loop's measure is the pair
(queries left before that point, items left in the queue).

Three facts about the code shape the model:
- Termination. The cursor moves forward one item per turn. But a
  `#feedback` command that runs splices the commands of the model's answer
  in right after the cursor (cmdclever/agent.py:445-451). The loop therefore
  ends only once feedback answers stop adding commands, or once the user
  stops confirming `#feedback` commands; hence `Quiet`.
- Confirmation. The answer typed at the prompt is lower-cased and compared
  with `'y'` (cmdclever/agent.py:391-393).
- Feedback query. `_get_response` is given only the feedback query text, not
  the conversation history (cmdclever/agent.py:430). The model's client
  therefore sees the query and its index, nothing more.

## Model

| member | source | states |
|---|---|---|
| Extractor.FindFence | cmdclever/agent.py:176 | the lazy body stops at the first closing fence at or after a position: the result is a fence and no fence starts before it; with no result, no fence starts anywhere after the position |
| Extractor.MatchAtIff | cmdclever/agent.py:176-177 | the scanner's match at a position is exactly the parse backtracking reports there: a parse of the pattern that no other parse from the same start precedes |
| Extractor.ScanFindAll | cmdclever/agent.py:177 | the scanner reports what `findall` reports: nothing if nothing matches from the position on; otherwise the chosen match at the leftmost matching start, then what the search finds from that match's end |
| Extractor.FindAllUnique | cmdclever/agent.py:177 | what `findall` reports is fixed by the text: two match lists that both meet the declarative reading from one position are the same list |
| Extractor.ExtractIsFindAll | cmdclever/agent.py:166-190 | for the match list `findall` reports, the scanner's matches are that list, and the result has one item per reported match, in the same order: the stripped group 2 together with whether the stripped group 1 is non-empty |
| Extractor.ExtractEmptyIff | cmdclever/agent.py:176-190 | the result is empty exactly when no `execute` tag is followed, at or after its end, by a closing fence; such text gives an empty list, not an error |
| Extractor.MatchesInOrder | cmdclever/agent.py:177-183 | a reported match ends no later than any later one starts: blocks come out in text order and never overlap |
| Extractor.MatchesChained | cmdclever/agent.py:177 | each match ends no later than the next one starts |
| Extractor.TagEndIffMarker | cmdclever/agent.py:176 | group 1 takes part exactly when one or more whitespace characters and then `#feedback` follow the tag |
| Extractor.ChosenFlag | cmdclever/agent.py:176-182 | a reported match's flag is set exactly when whitespace and then `#feedback` follow its tag |
| Extractor.ChosenCommand | cmdclever/agent.py:176-183 | a reported match's command is its group 2 unchanged: already stripped, and containing no closing fence |
| Extractor.ExtractedCommandsShape | cmdclever/agent.py:176-183 | every extracted command is stripped at both ends and contains no closing fence, and its flag is set exactly when whitespace and `#feedback` follow its tag |
| Extractor.ExtractedCommandShape | cmdclever/agent.py:176-183 | the same for the command at one position of the result |
| Extractor.RenderRoundTrip | cmdclever/agent.py:176-183 | commands written as blocks in the layout the agent's instructions ask for (tag, optional ` #feedback`, newline, command, newline, fence) are extracted back exactly, flags included, with adjacent blocks neither merged nor split |
| Scenarios.ProseThenBlocks | cmdclever/agent.py:176-183 | prose without backticks in front of such blocks changes nothing |
| Scenarios.ProseThenBlock | cmdclever/agent.py:176-183 | `run: ` followed by a block holding `ls -la` gives the single command `ls -la` without feedback |
| Scenarios.PlainBlock | cmdclever/agent.py:176-183 | a block holding `ls -la` gives that command without feedback |
| Scenarios.FeedbackBlock | cmdclever/agent.py:176-183 | a block opened with `execute #feedback` gives its command with feedback |
| Scenarios.AdjacentBlocks | cmdclever/agent.py:176-183 | two blocks written back to back give two commands, in order |
| Scenarios.TwoBlocks | cmdclever/agent.py:176-183 | any two blocks in the instructed layout, back to back, give back their two items |
| Scenarios.TightBlock | cmdclever/agent.py:176-183 | a tag glued to a stripped, backtick-free command glued to a fence gives that command without feedback |
| Scenarios.EmptyBlock | cmdclever/agent.py:176-183 | a block with nothing in it gives one empty command without feedback |
| Scenarios.GluedMarker | cmdclever/agent.py:176-183 | `#feedback` right after the tag, with no whitespace before it, is not the marker: it stays in the command and the flag is not set |
| Text.Strip | cmdclever/agent.py:182-183 | `str.strip()` gives a slice of the input that is cut off only by whitespace at both ends and starts and ends with a non-whitespace character; it is empty exactly for blank text |
| Text.StripUnique | cmdclever/agent.py:182-183 | that slice is the only one: any slice cut off only by whitespace and itself stripped is the result of `strip()` |
| Text.StripIdempotent | cmdclever/agent.py:183 | stripping twice is stripping once |
| Text.ConfirmedIff | cmdclever/agent.py:391-393 | the lowered answer equals `y` exactly when the answer is `y` or `Y` |
| Text.IntDecimalRoundTrip | cmdclever/agent.py:233 | the return code written in a failure report reads back as that code, negative codes included |
| Executor.Execute | cmdclever/agent.py:192-237 | the mapping is total, since a failed launch is a result and not an exception; the result reports success exactly when the process exited with code 0 |
| Executor.ExecuteRecover | cmdclever/agent.py:225-237 | the output can be read back into what the outcome was: standard output under code 0, the code and standard error under any other code, or the launch failure's message |
| Executor.ExecuteSameIff | cmdclever/agent.py:225-237 | two outcomes give the same result exactly when they agree on the code and the stream the result keeps, or on the launch failure's message |
| Conversation.ResultContentRoundTrip | cmdclever/agent.py:406 | the result entry `Command execution succeeded/failed:` plus the output between fences reads back as the result it records |
| Conversation.ResultContentInjective | cmdclever/agent.py:406 | different results give different result entries |
| Conversation.SkipNoticeIsNoResult | cmdclever/agent.py:461-467 | the skip notice never reads as a command's result |
| Conversation.FeedbackQueryRoundTrip | cmdclever/agent.py:424 | the feedback query carries the result entry unchanged between its fixed opening and closing sentences |
| Conversation.Clear | cmdclever/agent.py:485-490 | clearing leaves an empty history |
| Controller.Splice | cmdclever/agent.py:448-451 | splicing grows the queue by exactly the number of new commands |
| Controller.SpliceInverse | cmdclever/agent.py:448-451 | positions up to the cursor are unchanged, the new commands follow in their own order, and removing them gives the old queue back |
| Controller.SpliceRest | cmdclever/agent.py:451 | after the cursor come the new commands, then the old rest of the queue shifted right |
| Controller.SpliceAfterFirst | cmdclever/agent.py:451 | with the cursor on `A` in `[A, B, C]`, new items `[X, Y]` give `[A, X, Y, B, C]` |
| Controller.Step | cmdclever/agent.py:379-470 | each turn asks about exactly one item, sends at most one query, and queues commands only when it sends one |
| Controller.StepRunsIffConfirmed | cmdclever/agent.py:391-398 | the item's command runs exactly when the answer lowers to `y`, in the next shell slot; otherwise nothing runs |
| Controller.StepEntries | cmdclever/agent.py:406-467 | a turn keeps the history and appends one system entry, which reads back as the result when the command ran and is the skip notice otherwise, then one assistant entry exactly when a `#feedback` command ran |
| Controller.StepQueues | cmdclever/agent.py:417-451 | the queued commands are those extracted from the model's answer to the feedback query, and that answer is the last history entry |
| Controller.DrainGrows | cmdclever/agent.py:379-470 | history, prompts and runs only grow at the end; each turn adds one entry plus one per query; a command runs only after a prompt and a query follows only a run |
| Controller.DrainAsksPending | cmdclever/agent.py:379-470 | every pending item is offered at the prompt, in order, whatever feedback adds in between |
| Controller.CursorStep | cmdclever/agent.py:378-470 | one pass of the loop body keeps the work list's outcome, makes the items offered so far exactly the queue up to and including the cursor, and either uses up a query or leaves the queue's length unchanged |
| Controller.CursorDone | cmdclever/agent.py:378-470 | once the cursor has passed the whole queue, the session is the work list's, the items offered are exactly the final queue, and the first answer's commands keep their order in it |
| Controller.Opened | cmdclever/agent.py:351-360 | the run keeps the earlier history and appends exactly two entries, the user's query and then the model's answer, before anything is offered or run |
| Controller.Run | cmdclever/agent.py:333-483 | returns the first answer however many feedback rounds follow; the history starts with the old history, the query and that answer; without execution it grows by exactly those two entries; with execution it is the work list's history, and every position of the final command queue is offered at the prompt exactly once, in order, with the first answer's commands keeping their order in it |
| Controller.ClearThenRun | cmdclever/agent.py:485-490 | after clearing, the history of the next run starts with exactly its query and answer |

## Left out

- Running commands: `subprocess.run` with `shell=True` in `os.getcwd()`. Its outcome is an input, either an exit code with the captured streams or a launch failure with its message.
- The model client: `_get_model`, `_create_agent`, streaming and the normalisation of reply chunks in `_get_response`. A reply is an input, either text or a failure message. `Controller.ResponseText` models the one piece of logic kept: a failure becomes `Error getting response: ` plus the message.
- The `stream` argument of `run`: it changes only how a reply is gathered.
- `_get_instructions`: a fixed prompt. The block layout it asks for is `Extractor.Render`.
- `save_conversation` and `load_conversation`: file and JSON I/O.
- Everything printed, including the verbose log and the environment checks of `__init__`.
- End of input or an interrupt at the confirmation prompt: the answers are a total function of the prompt's index.
- The command line (cmdclever/cli/main.py), the standalone REPL (cmd_agent.py) and the example script: interface plumbing around `CmdAgent`.
- Controller.Run: assumes `Quiet`, so it says nothing about a model that keeps proposing commands in its feedback answers. On such a model the source loops forever only while the user keeps confirming the `#feedback` commands; the model also says nothing about the runs that end because the user declines them.
- Text.Lower: folds only the ASCII letters. For the confirmation test this is exact, since no character other than `Y` lower-cases to `y`.
- Text.IsSpace: one fixed set of whitespace characters (those `str.isspace` accepts) stands for both `\s` and `str.strip()`.
- The source splices only `if new_commands`. Splicing an empty list leaves the queue unchanged, so the model always splices.
