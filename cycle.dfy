/**
 * The skeleton of one bot run (runCycle and startBot in oro1.js): the swap phase and the
 * add-liquidity phase, each a counted loop of actions run through withRetry with a random
 * delay after every action but the last, a delay between the phases, the report lines the
 * actions push into the shared summary array, and the final status line.
 *
 * What each action yields is taken as given (the outcome its withRetry call returned);
 * the delays are trace events. The repetition count of a phase is the length of its
 * sequence of outcomes (4 swaps and 8 liquidity additions in the shipped configuration).
 */
module Cycle {
  import opened Wrappers
  import opened Utility
  import opened Retry

  /** config.swap.repetitions and config.addLp.repetitions */
  const SwapRepetitions: nat := 4
  const LiquidityRepetitions: nat := 8

  /** The summary array that runCycle and startBot push report lines into. */
  class ReportSummary {
    var lines: seq<string>

    constructor()
      ensures lines == []
    {
      lines := [];
    }

    /** reportSummary.push(line) */
    method Push(line: string)
      modifies this
      ensures lines == old(lines) + [line]
    {
      lines := lines + [line];
    }
  }

  datatype Phase = SwapPhase | LiquidityPhase

  /** Action i of a phase (its withRetry call and report line), or a sleep(getRandomDelay()). */
  datatype CycleEvent = Action(phase: Phase, index: nat) | Delay

  /**
   * One action as the report sees it: the text its failure line starts with and the
   * outcome of its withRetry call.
   */
  datatype Task = Task(failureLead: string, outcome: Outcome<string>)

  /** The add-liquidity choice of one LP action: the pool drawn and the outcome. */
  datatype LiquidityTask = LiquidityTask(pool: string, outcome: Outcome<string>)

  const SwapFailureLead: string := "❌ Gagal melakukan swap acak: "

  function LiquidityFailureLead(pool: string): string {
    "❌ Gagal Add LP untuk " + pool + ": "
  }

  function SwapTasks(swaps: seq<Outcome<string>>): (tasks: seq<Task>)
    ensures |tasks| == |swaps|
    ensures forall i :: 0 <= i < |swaps| ==> tasks[i] == Task(SwapFailureLead, swaps[i])
  {
    seq(|swaps|, i requires 0 <= i < |swaps| => Task(SwapFailureLead, swaps[i]))
  }

  function LiquidityTasks(lps: seq<LiquidityTask>): (tasks: seq<Task>)
    ensures |tasks| == |lps|
    ensures forall i :: 0 <= i < |lps| ==> tasks[i] == Task(LiquidityFailureLead(lps[i].pool), lps[i].outcome)
  {
    seq(|lps|, i requires 0 <= i < |lps| => Task(LiquidityFailureLead(lps[i].pool), lps[i].outcome))
  }

  /**
   * The lines one action pushes: its result when that is a non-empty string (the
   * `if (result)` test), or the failure lead followed by the message withRetry threw.
   */
  function EntryOf(t: Task): (r: seq<string>)
    ensures |r| <= 1
    ensures r == [] <==> t.outcome == Success("")
    ensures t.outcome.Exhausted? && LeadIsFailure(t) ==> IsFailureLine(r[0])
  {
    match t.outcome
    case Success(result) => if result == "" then [] else [result]
    case Exhausted(lastError) => [t.failureLead + ExhaustedMessage(MaxRetries, lastError)]
  }

  /** The lines a phase pushes, action after action. */
  function Entries(tasks: seq<Task>): seq<string> {
    if tasks == [] then [] else Entries(tasks[..|tasks| - 1]) + EntryOf(tasks[|tasks| - 1])
  }

  /** The events of the first k rounds of a phase with n actions. */
  function PhaseRounds(phase: Phase, n: nat, k: nat): seq<CycleEvent>
    requires k <= n
  {
    if k == 0 then []
    else PhaseRounds(phase, n, k - 1) + [Action(phase, k - 1)] + (if k - 1 < n - 1 then [Delay] else [])
  }

  function PhaseTrace(phase: Phase, n: nat): seq<CycleEvent> {
    PhaseRounds(phase, n, n)
  }

  /** The swap phase, then, when there are liquidity actions, one delay and the liquidity phase. */
  function CycleTrace(swaps: nat, liquidity: nat): seq<CycleEvent> {
    PhaseTrace(SwapPhase, swaps) + (if liquidity > 0 then [Delay] + PhaseTrace(LiquidityPhase, liquidity) else [])
  }

  predicate IsFailureLine(line: string) {
    |line| > 0 && line[0] == '❌'
  }

  /** reportSummary.some(msg => msg.startsWith('❌')) */
  function HasFailedTasks(lines: seq<string>): bool {
    if lines == [] then false
    else IsFailureLine(lines[0]) || HasFailedTasks(lines[1..])
  }

  /** `some` is true exactly when some line starts with the cross. */
  lemma {:induction false} HasFailedTasksMeaning(lines: seq<string>)
    ensures HasFailedTasks(lines) <==> exists k :: 0 <= k < |lines| && IsFailureLine(lines[k])
    decreases |lines|
  {
    if lines != [] {
      HasFailedTasksMeaning(lines[1..]);
      assert forall k :: 1 <= k < |lines| ==> lines[k] == lines[1..][k - 1];
    }
  }

  const SuccessStatus: string := "\n*Status Akhir: Berhasil* 👍"
  const PartialStatus: string := "\n*Status Akhir: Selesai dengan beberapa kegagalan* ⚠️"

  /** The line of the catch path: it ends with the error's message and opens with a newline, not the cross. */
  function FatalLine(message: string): (r: string)
    ensures |r| > |message| && r[|r| - |message|..] == message
    ensures !IsFailureLine(r)
  {
    var lead := "\n❌ *Status Akhir: Gagal Total*\n- Alasan: ";
    var r := lead + message;
    assert r[0] == lead[0] == '\n';
    assert r[|r| - |message|..] == message;
    r
  }

  /** The wallet line: the short address between "- Wallet: *" and "*", never a failure line. */
  function WalletLine(address: string): (r: string)
    ensures |r| == 12 + |ShortAddress(Some(address))|
    ensures r[11..|r| - 1] == ShortAddress(Some(address))
    ensures !IsFailureLine(r)
  {
    var lead, short := "- Wallet: *", ShortAddress(Some(address));
    var r := lead + short + "*";
    assert |lead| == 11 && r[0] == '-';
    assert r[11..|r| - 1] == short;
    r
  }

  /**
   * The line startBot pushes after the cycle: the success line exactly when no failed task
   * was found, and never itself a failure line.
   */
  function StatusLine(failed: bool): (r: string)
    ensures r == SuccessStatus <==> !failed
    ensures r == SuccessStatus || r == PartialStatus
    ensures !IsFailureLine(r)
  {
    assert SuccessStatus[16] == 'B' && PartialStatus[16] == 'S';
    assert SuccessStatus[0] == PartialStatus[0] == '\n';
    if failed then PartialStatus else SuccessStatus
  }

  /** The wallet line and the lines of both phases, in the order startBot pushes them. */
  function CycleLines(address: string, swaps: seq<Outcome<string>>, lps: seq<LiquidityTask>): seq<string> {
    [WalletLine(address)] + Entries(SwapTasks(swaps)) + Entries(LiquidityTasks(lps))
  }

  /** The summary a successful setup sends: the cycle's lines and the status line. */
  function RunReport(address: string, swaps: seq<Outcome<string>>, lps: seq<LiquidityTask>): seq<string> {
    var lines := CycleLines(address, swaps, lps);
    lines + [StatusLine(HasFailedTasks(lines))]
  }

  /** The status line is the success line exactly when no line before it starts with the cross. */
  lemma StatusLineRule(before: seq<string>)
    ensures var sent := before + [StatusLine(HasFailedTasks(before))];
      (sent[|sent| - 1] == SuccessStatus <==> forall k :: 0 <= k < |sent| - 1 ==> !IsFailureLine(sent[k]))
  {
    var sent := before + [StatusLine(HasFailedTasks(before))];
    HasFailedTasksMeaning(before);
    assert SuccessStatus[16] == 'B' && PartialStatus[16] == 'S';
    assert forall k :: 0 <= k < |sent| - 1 ==> sent[k] == before[k];
  }

  /** One phase of runCycle: run each action, push its lines, and delay unless it was the last. */
  method RunPhase(report: ReportSummary, phase: Phase, tasks: seq<Task>) returns (trace: seq<CycleEvent>)
    modifies report
    ensures report.lines == old(report.lines) + Entries(tasks)
    ensures trace == PhaseTrace(phase, |tasks|)
  {
    trace := [];
    for i := 0 to |tasks|
      invariant report.lines == old(report.lines) + Entries(tasks[..i])
      invariant trace == PhaseRounds(phase, |tasks|, i)
    {
      trace := trace + [Action(phase, i)];
      match tasks[i].outcome {
        case Success(result) =>
          if result != "" {
            report.Push(result);
          }
        case Exhausted(lastError) =>
          report.Push(tasks[i].failureLead + ExhaustedMessage(MaxRetries, lastError));
      }
      assert tasks[..i + 1][..i] == tasks[..i];
      if i < |tasks| - 1 {
        trace := trace + [Delay];
      }
    }
    assert tasks[..|tasks|] == tasks;
  }

  /** runCycle(client, address, onReset, reportSummary) */
  method RunCycle(report: ReportSummary, swaps: seq<Outcome<string>>, lps: seq<LiquidityTask>)
    returns (trace: seq<CycleEvent>)
    modifies report
    ensures report.lines == old(report.lines) + Entries(SwapTasks(swaps)) + Entries(LiquidityTasks(lps))
    ensures trace == CycleTrace(|swaps|, |lps|)
  {
    trace := [];
    if |swaps| > 0 {
      trace := RunPhase(report, SwapPhase, SwapTasks(swaps));
    }
    if |lps| > 0 {
      trace := trace + [Delay];
      var rest := RunPhase(report, LiquidityPhase, LiquidityTasks(lps));
      trace := trace + rest;
    }
  }

  /**
   * startBot: set up the wallet (`setup` is what initializeClient yielded), push the
   * wallet line, run the cycle and push the status line; or, when the setup throws,
   * push the fatal line. Returns the lines sent to the report and the process exit code.
   */
  method StartBot(setup: Result<Session, string>, swaps: seq<Outcome<string>>, lps: seq<LiquidityTask>)
    returns (sent: seq<string>, exitCode: int)
    ensures setup.Err? ==> sent == [FatalLine(setup.error)] && exitCode == 1
    ensures setup.Ok? ==> sent == RunReport(setup.value.address, swaps, lps) && exitCode == 0
  {
    var report := new ReportSummary();
    match setup
    case Err(message) =>
      report.Push(FatalLine(message));
      sent, exitCode := report.lines, 1;
    case Ok(session) =>
      report.Push(WalletLine(session.address));
      assert report.lines == [WalletLine(session.address)];
      var _ := RunCycle(report, swaps, lps);
      ghost var lines := CycleLines(session.address, swaps, lps);
      assert report.lines == lines;
      var failed := HasFailedTasks(report.lines);
      report.Push(StatusLine(failed));
      sent, exitCode := report.lines, 0;
      assert sent == lines + [StatusLine(HasFailedTasks(lines))];
  }

  /**
   * Delay placement within a phase of n actions: events alternate, action i sits at
   * position 2i and a delay at 2i + 1, and the phase ends with its last action, so a
   * delay follows action i exactly when i < n - 1.
   */
  lemma {:induction false} PhaseRoundsShape(phase: Phase, n: nat, k: nat)
    requires k <= n
    ensures |PhaseRounds(phase, n, k)| == if k == n && n > 0 then 2 * k - 1 else 2 * k
    ensures forall p :: 0 <= p < |PhaseRounds(phase, n, k)| ==>
      PhaseRounds(phase, n, k)[p] == if p % 2 == 0 then Action(phase, p / 2) else Delay
  {
    if k > 0 {
      PhaseRoundsShape(phase, n, k - 1);
      var t := PhaseRounds(phase, n, k);
      var before := PhaseRounds(phase, n, k - 1);
      assert |before| == 2 * (k - 1);
      forall p | 0 <= p < |t|
        ensures t[p] == if p % 2 == 0 then Action(phase, p / 2) else Delay
      {
        if p < |before| {
          assert t[p] == before[p];
        }
      }
    }
  }

  lemma PhaseTraceShape(phase: Phase, n: nat)
    ensures |PhaseTrace(phase, n)| == if n == 0 then 0 else 2 * n - 1
    ensures forall p :: 0 <= p < |PhaseTrace(phase, n)| ==>
      PhaseTrace(phase, n)[p] == if p % 2 == 0 then Action(phase, p / 2) else Delay
    ensures forall i :: 0 <= i < n ==> (2 * i + 1 < |PhaseTrace(phase, n)| <==> i < n - 1)
  {
    PhaseRoundsShape(phase, n, n);
  }

  /**
   * The liquidity phase, when it has actions, starts after exactly one delay that follows
   * the swap phase's last action (or opens the cycle when there are no swaps).
   */
  lemma DelayBeforeLiquidity(swaps: nat, liquidity: nat)
    requires liquidity > 0
    ensures var t := CycleTrace(swaps, liquidity);
      var m := |PhaseTrace(SwapPhase, swaps)|;
      && m + 1 < |t| && t[m] == Delay && t[m + 1] == Action(LiquidityPhase, 0)
      && (m > 0 ==> t[m - 1] == Action(SwapPhase, swaps - 1))
  {
    PhaseTraceShape(SwapPhase, swaps);
    PhaseTraceShape(LiquidityPhase, liquidity);
    var m := |PhaseTrace(SwapPhase, swaps)|;
    if m > 0 {
      assert (m - 1) % 2 == 0 && (m - 1) / 2 == swaps - 1;
    }
  }

  /** Entries of a concatenation. */
  lemma {:induction false} EntriesAppend(a: seq<Task>, b: seq<Task>)
    ensures Entries(a + b) == Entries(a) + Entries(b)
    decreases |b|
  {
    if b == [] {
      assert a + b == a;
    } else {
      var init, last := b[..|b| - 1], b[|b| - 1];
      assert b == init + [last];
      calc {
        Entries(a + b);
        { assert a + b == (a + init) + [last]; }
        Entries((a + init) + [last]);
        { EntriesSnoc(a + init, last); }
        Entries(a + init) + EntryOf(last);
        { EntriesAppend(a, init); }
        (Entries(a) + Entries(init)) + EntryOf(last);
        Entries(a) + (Entries(init) + EntryOf(last));
        { EntriesSnoc(init, last); }
        Entries(a) + Entries(b);
      }
    }
  }

  lemma EntriesSnoc(init: seq<Task>, last: Task)
    ensures Entries(init + [last]) == Entries(init) + EntryOf(last)
  {
    var c := init + [last];
    assert c[..|c| - 1] == init && c[|c| - 1] == last;
  }

  /** With non-empty results, every action pushes exactly one line, in order. */
  lemma {:induction false} OneEntryPerAction(tasks: seq<Task>)
    requires forall i :: 0 <= i < |tasks| && tasks[i].outcome.Success? ==> tasks[i].outcome.value != ""
    ensures |Entries(tasks)| == |tasks|
    ensures forall i :: 0 <= i < |tasks| ==> EntryOf(tasks[i]) == [Entries(tasks)[i]]
    decreases |tasks|
  {
    if tasks != [] {
      var init := tasks[..|tasks| - 1];
      OneEntryPerAction(init);
      forall i | 0 <= i < |tasks|
        ensures EntryOf(tasks[i]) == [Entries(tasks)[i]]
      {
        if i < |init| {
          assert tasks[i] == init[i];
        }
      }
    }
  }

  /** A task whose report line counts as a failure: an exhausted retry, or a result starting with the cross. */
  predicate ReportsFailure(t: Task) {
    t.outcome.Exhausted? || (t.outcome.Success? && IsFailureLine(t.outcome.value))
  }

  predicate LeadIsFailure(t: Task) {
    |t.failureLead| > 0 && t.failureLead[0] == '❌'
  }

  /** The lines of a phase contain a failure line exactly when one of its actions reports a failure. */
  lemma {:induction false} FailureLines(tasks: seq<Task>)
    requires forall i :: 0 <= i < |tasks| ==> LeadIsFailure(tasks[i])
    ensures HasFailedTasks(Entries(tasks)) <==> exists i :: 0 <= i < |tasks| && ReportsFailure(tasks[i])
    decreases |tasks|
  {
    if tasks != [] {
      var init, last := tasks[..|tasks| - 1], tasks[|tasks| - 1];
      FailureLines(init);
      var e, x := Entries(init), EntryOf(last);
      assert Entries(tasks) == e + x;
      assert ReportsFailure(last) <==> exists k :: 0 <= k < |x| && IsFailureLine(x[k]) by {
        assert LeadIsFailure(last);
        match last.outcome
        case Exhausted(lastError) =>
          assert x == [last.failureLead + ExhaustedMessage(MaxRetries, lastError)];
          assert x[0][0] == last.failureLead[0];
          assert IsFailureLine(x[0]);
        case Success(result) =>
          if result != "" {
            assert x == [result];
            assert IsFailureLine(result) <==> IsFailureLine(x[0]);
          } else {
            assert x == [];
          }
      }
      assert (exists i :: 0 <= i < |tasks| && ReportsFailure(tasks[i]))
         <==> (exists i :: 0 <= i < |init| && ReportsFailure(init[i])) || ReportsFailure(last) by {
        if exists i :: 0 <= i < |tasks| && ReportsFailure(tasks[i]) {
          var i :| 0 <= i < |tasks| && ReportsFailure(tasks[i]);
          if i < |init| {
            assert init[i] == tasks[i];
          }
        }
        if exists i :: 0 <= i < |init| && ReportsFailure(init[i]) {
          var i :| 0 <= i < |init| && ReportsFailure(init[i]);
          assert tasks[i] == init[i];
        }
      }
      HasFailedTasksAppend(e, x);
    }
  }

  lemma HasFailedTasksAppend(a: seq<string>, b: seq<string>)
    ensures HasFailedTasks(a + b) <==> HasFailedTasks(a) || HasFailedTasks(b)
  {
    var c := a + b;
    HasFailedTasksMeaning(a);
    HasFailedTasksMeaning(b);
    HasFailedTasksMeaning(c);
    if HasFailedTasks(c) {
      var k :| 0 <= k < |c| && IsFailureLine(c[k]);
      if k >= |a| {
        assert c[k] == b[k - |a|];
      }
    }
    if HasFailedTasks(a) {
      var k :| 0 <= k < |a| && IsFailureLine(a[k]);
      assert c[k] == a[k];
    }
    if HasFailedTasks(b) {
      var k :| 0 <= k < |b| && IsFailureLine(b[k]);
      assert c[k + |a|] == b[k];
    }
  }

  /**
   * The final status is "Berhasil" exactly when no swap and no liquidity action reports a
   * failure: every withRetry call returned, and no returned result starts with the cross.
   */
  lemma StatusRule(address: string, swaps: seq<Outcome<string>>, lps: seq<LiquidityTask>)
    ensures !HasFailedTasks(CycleLines(address, swaps, lps))
        <==> ((forall i :: 0 <= i < |swaps| ==> !ReportsFailure(SwapTasks(swaps)[i]))
              && (forall i :: 0 <= i < |lps| ==> !ReportsFailure(LiquidityTasks(lps)[i])))
  {
    var wallet := WalletLine(address);
    assert wallet[0] == '-';
    HasFailedTasksMeaning([wallet]);
    FailureLines(SwapTasks(swaps));
    FailureLines(LiquidityTasks(lps));
    HasFailedTasksAppend([wallet], Entries(SwapTasks(swaps)));
    HasFailedTasksAppend([wallet] + Entries(SwapTasks(swaps)), Entries(LiquidityTasks(lps)));
  }

  /**
   * What a successful run sends: the cycle's lines followed by one status line, which is
   * "Berhasil" exactly when no earlier line starts with the cross, that is exactly when no
   * action threw and no result starts with the cross, and "Selesai dengan beberapa
   * kegagalan" otherwise.
   */
  lemma FinalStatus(address: string, swaps: seq<Outcome<string>>, lps: seq<LiquidityTask>)
    ensures var r := RunReport(address, swaps, lps);
      && |r| >= 2 && r[..|r| - 1] == CycleLines(address, swaps, lps)
      && (r[|r| - 1] == SuccessStatus || r[|r| - 1] == PartialStatus)
      && (r[|r| - 1] == SuccessStatus <==> forall k :: 0 <= k < |r| - 1 ==> !IsFailureLine(r[k]))
      && (r[|r| - 1] == SuccessStatus <==>
            (forall i :: 0 <= i < |swaps| ==> !ReportsFailure(SwapTasks(swaps)[i]))
            && (forall i :: 0 <= i < |lps| ==> !ReportsFailure(LiquidityTasks(lps)[i])))
  {
    var lines := CycleLines(address, swaps, lps);
    var r := RunReport(address, swaps, lps);
    assert r[..|r| - 1] == lines;
    StatusLineRule(lines);
    StatusRule(address, swaps, lps);
  }

  /**
   * The configured cycle, 4 swaps and 8 liquidity additions: 7 swap-phase events, the delay
   * between the phases and 15 liquidity-phase events.
   */
  lemma ConfiguredCycle()
    ensures var t := CycleTrace(SwapRepetitions, LiquidityRepetitions);
      && |t| == 7 + 1 + 15
      && t[6] == Action(SwapPhase, 3) && t[7] == Delay && t[8] == Action(LiquidityPhase, 0)
      && t[22] == Action(LiquidityPhase, 7)
  {
    PhaseTraceShape(SwapPhase, SwapRepetitions);
    PhaseTraceShape(LiquidityPhase, LiquidityRepetitions);
    var t := CycleTrace(SwapRepetitions, LiquidityRepetitions);
    var lp := PhaseTrace(LiquidityPhase, LiquidityRepetitions);
    assert t[8] == lp[0] && t[22] == lp[14];
  }
}
