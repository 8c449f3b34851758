/** The conversation history the agent keeps, and the fixed texts it
    writes into it while working through commands. */
module Conversation {
  import opened Wrappers
  import opened Text
  import opened Executor

  datatype Role = User | Assistant | System

  /** One `{"role": ..., "content": ...}` entry of `conversation_history`. */
  datatype Entry = Entry(role: Role, content: string)

  type History = seq<Entry>

  const SkipNotice: string := "Command execution skipped by user."

  const Succeeded: string := "Command execution succeeded:\n\n```\n"
  const Failed: string := "Command execution failed:\n\n```\n"
  const ResultEnd: string := "\n```"

  /** The system entry recording an executed command: the verdict, then the
      output between fences. */
  function ResultContent(r: ExecResult): string {
    (if r.success then Succeeded else Failed) + r.output + ResultEnd
  }

  const FeedbackIntro: string := "I executed the command and got the following result:\n\n"
  const FeedbackOutro: string := "\n\nPlease analyze this output and provide further guidance or commands if needed."

  /** The query sent back to the model for a command that asked for feedback. */
  function FeedbackQuery(content: string): string {
    FeedbackIntro + content + FeedbackOutro
  }

  /** Reads a result entry back, or `None` for any other text. */
  function ParseResultContent(s: string): Option<ExecResult> {
    if |s| >= |Succeeded| + |ResultEnd| && SliceIs(s, 0, Succeeded)
      && SliceIs(s, |s| - |ResultEnd|, ResultEnd)
    then Some(ExecResult(true, s[|Succeeded|..|s| - |ResultEnd|]))
    else if |s| >= |Failed| + |ResultEnd| && SliceIs(s, 0, Failed)
      && SliceIs(s, |s| - |ResultEnd|, ResultEnd)
    then Some(ExecResult(false, s[|Failed|..|s| - |ResultEnd|]))
    else None
  }

  /** Where the verdict of a result entry ends. */
  function VerdictLength(success: bool): nat {
    if success then |Succeeded| else |Failed|
  }

  /** The pieces of a result entry. */
  lemma ResultContentLayout(r: ExecResult)
    ensures |ResultContent(r)| == VerdictLength(r.success) + |r.output| + |ResultEnd|
    ensures SliceIs(ResultContent(r), 0, if r.success then Succeeded else Failed)
    ensures SliceIs(ResultContent(r), |ResultContent(r)| - |ResultEnd|, ResultEnd)
    ensures ResultContent(r)[VerdictLength(r.success)..|ResultContent(r)| - |ResultEnd|] == r.output
  {
    var v := if r.success then Succeeded else Failed;
    var s := ResultContent(r);
    assert s == v + r.output + ResultEnd;
    assert s[..|v|] == v;
    assert s[|s| - |ResultEnd|..] == ResultEnd;
    assert s[|v|..|s| - |ResultEnd|] == r.output;
  }

  /** A failure entry never starts like a success entry. */
  lemma FailedIsNotSucceeded(s: string)
    requires SliceIs(s, 0, Failed)
    ensures !SliceIs(s, 0, Succeeded)
  {
    SliceAt(s, 0, Failed, 18);
    NoSliceAt(s, 0, Succeeded, 18);
  }

  /** Every result entry reads back as the result it records. */
  lemma ResultContentRoundTrip(r: ExecResult)
    ensures ParseResultContent(ResultContent(r)) == Some(r)
  {
    ResultContentLayout(r);
    if !r.success {
      FailedIsNotSucceeded(ResultContent(r));
    }
  }

  /** The skip notice is never mistaken for a command's result. */
  lemma SkipNoticeIsNoResult()
    ensures ParseResultContent(SkipNotice) == None
  {
    NoSliceAt(SkipNotice, |SkipNotice| - |ResultEnd|, ResultEnd, 0);
  }

  /** Different results give different entries. */
  lemma ResultContentInjective(r1: ExecResult, r2: ExecResult)
    ensures ResultContent(r1) == ResultContent(r2) <==> r1 == r2
  {
    ResultContentRoundTrip(r1);
    ResultContentRoundTrip(r2);
  }

  /** Reads a feedback query back into the result entry it reports. */
  function ParseFeedbackQuery(s: string): Option<string> {
    if |s| >= |FeedbackIntro| + |FeedbackOutro|
      && SliceIs(s, 0, FeedbackIntro) && SliceIs(s, |s| - |FeedbackOutro|, FeedbackOutro)
    then Some(s[|FeedbackIntro|..|s| - |FeedbackOutro|])
    else None
  }

  /** The feedback query carries the result entry unchanged. */
  lemma FeedbackQueryRoundTrip(content: string)
    ensures ParseFeedbackQuery(FeedbackQuery(content)) == Some(content)
  {
    var s := FeedbackQuery(content);
    assert s[..|FeedbackIntro|] == FeedbackIntro;
    assert s[|s| - |FeedbackOutro|..] == FeedbackOutro;
    assert s[|FeedbackIntro|..|s| - |FeedbackOutro|] == content;
  }

  /** `CmdAgent.clear_history`. */
  function Clear(h: History): (r: History)
    ensures |r| == 0
  {
    []
  }
}
