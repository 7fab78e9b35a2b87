/**
 * The retry/reconnect controller withRetry (oro1.js:204-243). One action is tried up to
 * maxRetries + 1 times with the working client and address; an error whose message
 * contains "account sequence mismatch" makes it call the reconnection callback and, when
 * that succeeds, switch to the new client/address and wait the quarantine time instead of
 * the normal backoff. A failure of the final attempt is re-thrown.
 *
 * The action and the callback are scripted: `action(i, session)` is what the action does
 * on attempt i with that session, and `onReset(n)` is what the n-th reconnection (counted
 * from 0) yields. Waits are recorded as trace events; no time passes.
 */
module Retry {
  import opened Decimal

  /** config.retry.maxRetries */
  const MaxRetries: nat := 5
  /** config.retry.delaySeconds: the normal backoff */
  const DelaySeconds: nat := 34
  /** config.retry.sequenceMismatchDelaySeconds: the quarantine after a reconnection */
  const SequenceMismatchDelaySeconds: nat := 60

  /** The marker the chain client puts in the error of an out-of-order transaction. */
  const SequenceMismatch: string := "account sequence mismatch"

  /** A signing client handle and the account address it signs for. */
  datatype Session = Session(client: nat, address: string)

  /** One run of the action: it returns a value or throws an error with a message. */
  datatype Attempt<V> = Done(value: V) | Failed(message: string)

  /** One call of the reconnection callback. */
  datatype ResetOutcome = Reconnected(session: Session) | ResetFailed(message: string)

  /** What the controller does, in order: run the action, call the reset callback, wait. */
  datatype Event =
    | Invoke(attempt: nat, session: Session)
    | Reset
    | Quarantine   // sleep(sequenceMismatchDelaySeconds)
    | Backoff      // sleep(delaySeconds)

  datatype EventKind = InvokeKind | ResetKind | QuarantineKind | BackoffKind

  /** withRetry returns the action's value or throws after the final attempt. */
  datatype Outcome<V> = Success(value: V) | Exhausted(lastError: string)

  datatype Run<V> = Run(outcome: Outcome<V>, trace: seq<Event>)

  /** The message of the error withRetry throws when it gives up. */
  function ExhaustedMessage(maxRetries: nat, lastError: string): string {
    "Aksi gagal setelah " + NatToString(maxRetries) + " percobaan: " + lastError
  }

  /**
   * The parts of that message: the fixed lead, the decimal text of maxRetries (which reads
   * back to it), " percobaan: " and the last error's message at the end.
   */
  lemma ExhaustedMessageParts(maxRetries: nat, lastError: string)
    ensures var r, n := ExhaustedMessage(maxRetries, lastError), NatToString(maxRetries);
      && |r| == 19 + |n| + 12 + |lastError|
      && r[..19] == "Aksi gagal setelah "
      && r[19..19 + |n|] == n && ParseDigits(r[19..19 + |n|]) == maxRetries
      && r[19 + |n|..19 + |n| + 12] == " percobaan: "
      && r[|r| - |lastError|..] == lastError
  {
    var lead, n, mid := "Aksi gagal setelah ", NatToString(maxRetries), " percobaan: ";
    var r := ExhaustedMessage(maxRetries, lastError);
    ParseNatToString(maxRetries);
    assert |lead| == 19 && |mid| == 12;
    assert r == lead + (n + (mid + lastError));
    assert r[..19] == lead;
    assert r[19..19 + |n|] == n;
    assert r[19 + |n|..19 + |n| + 12] == mid;
    assert r[|r| - |lastError|..] == lastError;
  }

  /** String.prototype.includes: `part` occurs somewhere in `s`. */
  function Includes(s: string, part: string): (b: bool)
    ensures part == [] ==> b
    ensures b ==> |part| <= |s|
  {
    assert part == [] ==> OccursAt(s, part, 0);
    exists i | 0 <= i <= |s| - |part| :: OccursAt(s, part, i)
  }

  /** Whatever surrounds it, a message holding `part` includes it. */
  lemma IncludesFound(pre: string, part: string, post: string)
    ensures Includes(pre + part + post, part)
  {
    var s := pre + part + post;
    assert s[|pre|..|pre| + |part|] == part;
    assert OccursAt(s, part, |pre|);
  }

  /** A message that includes `part` is some text, `part`, and some more text. */
  lemma IncludesSplit(s: string, part: string) returns (pre: string, post: string)
    requires Includes(s, part)
    ensures s == pre + part + post
  {
    var i :| 0 <= i <= |s| - |part| && OccursAt(s, part, i);
    pre, post := s[..i], s[i + |part|..];
    assert s == pre + s[i..i + |part|] + post;
  }

  predicate OccursAt(s: string, part: string, i: int) {
    0 <= i <= |s| - |part| && s[i..i + |part|] == part
  }

  function KindOf(e: Event): EventKind {
    match e
    case Invoke(_, _) => InvokeKind
    case Reset => ResetKind
    case Quarantine => QuarantineKind
    case Backoff => BackoffKind
  }

  /** How many events of a kind a trace holds. */
  function Count(t: seq<Event>, k: EventKind): nat {
    if t == [] then 0 else (if KindOf(t[0]) == k then 1 else 0) + Count(t[1..], k)
  }

  lemma CountCons(e: Event, t: seq<Event>, k: EventKind)
    ensures Count([e] + t, k) == (if KindOf(e) == k then 1 else 0) + Count(t, k)
  {
    assert ([e] + t)[1..] == t;
  }

  lemma {:induction false} CountAppend(a: seq<Event>, b: seq<Event>, k: EventKind)
    ensures Count(a + b, k) == Count(a, k) + Count(b, k)
    decreases |a|
  {
    if a == [] {
      assert a + b == b;
    } else {
      assert (a + b)[1..] == a[1..] + b;
      CountAppend(a[1..], b, k);
    }
  }

  function Prepend<V>(prefix: seq<Event>, r: Run<V>): Run<V> {
    Run(r.outcome, prefix + r.trace)
  }

  lemma PrependTwice<V>(a: seq<Event>, b: seq<Event>, r: Run<V>)
    ensures Prepend(a, Prepend(b, r)) == Prepend(a + b, r)
  {
    assert a + (b + r.trace) == (a + b) + r.trace;
  }

  /**
   * The controller from attempt i on, with working session s and `resets` reconnections
   * already made: the reference the loop of WithRetry is proved against.
   */
  function RunFrom<V>(maxRetries: nat, i: nat, s: Session, resets: nat,
                      action: (nat, Session) -> Attempt<V>, onReset: nat -> ResetOutcome): (r: Run<V>)
    requires i <= maxRetries
    ensures |r.trace| >= 1 && r.trace[0] == Invoke(i, s)
    decreases maxRetries - i
  {
    match action(i, s)
    case Done(v) => Run(Success(v), [Invoke(i, s)])
    case Failed(msg) =>
      if i == maxRetries then Run(Exhausted(msg), [Invoke(i, s)])
      else if Includes(msg, SequenceMismatch) then
        match onReset(resets)
        case Reconnected(renewed) =>
          Prepend([Invoke(i, s), Reset, Quarantine], RunFrom(maxRetries, i + 1, renewed, resets + 1, action, onReset))
        case ResetFailed(_) =>
          Prepend([Invoke(i, s), Reset, Backoff], RunFrom(maxRetries, i + 1, s, resets + 1, action, onReset))
      else
        Prepend([Invoke(i, s), Backoff], RunFrom(maxRetries, i + 1, s, resets, action, onReset))
  }

  /** One failed, non-final round of RunFrom: its events and the state the next round starts from. */
  lemma Unfold<V>(maxRetries: nat, i: nat, s: Session, resets: nat,
                  action: (nat, Session) -> Attempt<V>, onReset: nat -> ResetOutcome)
    returns (prefix: seq<Event>, next: Session, resets': nat)
    requires i < maxRetries && action(i, s).Failed?
    ensures RunFrom(maxRetries, i, s, resets, action, onReset)
         == Prepend(prefix, RunFrom(maxRetries, i + 1, next, resets', action, onReset))
    ensures 2 <= |prefix| <= 3 && prefix[0] == Invoke(i, s)
    ensures !Includes(action(i, s).message, SequenceMismatch) ==>
      prefix == [Invoke(i, s), Backoff] && next == s && resets' == resets
    ensures Includes(action(i, s).message, SequenceMismatch) ==>
      && resets' == resets + 1
      && match onReset(resets)
         case Reconnected(renewed) => prefix == [Invoke(i, s), Reset, Quarantine] && next == renewed
         case ResetFailed(_) => prefix == [Invoke(i, s), Reset, Backoff] && next == s
    ensures Count(prefix, InvokeKind) == 1
    ensures Count(prefix, QuarantineKind) + Count(prefix, BackoffKind) == 1
    ensures Count(prefix, ResetKind) == resets' - resets
  {
    prefix, next, resets' := [Invoke(i, s), Backoff], s, resets;
    if Includes(action(i, s).message, SequenceMismatch) {
      resets' := resets + 1;
      match onReset(resets)
      case Reconnected(renewed) =>
        prefix, next := [Invoke(i, s), Reset, Quarantine], renewed;
      case ResetFailed(_) =>
        prefix := [Invoke(i, s), Reset, Backoff];
    }
    var last := prefix[|prefix| - 1];
    assert last == Quarantine || last == Backoff;
    if |prefix| == 3 {
      assert prefix == [prefix[0]] + ([Reset] + ([last] + []));
      CountCons(Reset, [last] + [], InvokeKind);
      CountCons(Reset, [last] + [], ResetKind);
      CountCons(Reset, [last] + [], QuarantineKind);
      CountCons(Reset, [last] + [], BackoffKind);
    } else {
      assert prefix == [prefix[0]] + ([last] + []);
    }
    CountCons(last, [], InvokeKind);
    CountCons(last, [], ResetKind);
    CountCons(last, [], QuarantineKind);
    CountCons(last, [], BackoffKind);
    CountCons(prefix[0], prefix[1..], InvokeKind);
    CountCons(prefix[0], prefix[1..], ResetKind);
    CountCons(prefix[0], prefix[1..], QuarantineKind);
    CountCons(prefix[0], prefix[1..], BackoffKind);
  }

  /** withRetry(client, address, action, onReset) */
  method WithRetry<V>(maxRetries: nat, session: Session,
                      action: (nat, Session) -> Attempt<V>, onReset: nat -> ResetOutcome)
    returns (outcome: Outcome<V>, trace: seq<Event>)
    ensures Run(outcome, trace) == RunFrom(maxRetries, 0, session, 0, action, onReset)
    ensures 1 <= Count(trace, InvokeKind) <= maxRetries + 1
    ensures outcome.Exhausted? ==> Count(trace, InvokeKind) == maxRetries + 1
    ensures Count(trace, QuarantineKind) + Count(trace, BackoffKind) == Count(trace, InvokeKind) - 1
  {
    var current := session;
    var resets := 0;
    trace := [];
    var i := 0;
    while i <= maxRetries
      invariant i <= maxRetries
      invariant RunFrom(maxRetries, 0, session, 0, action, onReset)
             == Prepend(trace, RunFrom(maxRetries, i, current, resets, action, onReset))
      decreases maxRetries - i
    {
      ghost var before := trace;
      var attempt := action(i, current);
      trace := trace + [Invoke(i, current)];
      if attempt.Done? {
        outcome := Success(attempt.value);
        AttemptBounds(maxRetries, 0, session, 0, action, onReset);
        return;
      }
      if i == maxRetries {
        outcome := Exhausted(attempt.message);
        AttemptBounds(maxRetries, 0, session, 0, action, onReset);
        return;
      }
      ghost var round, next, resets' := Unfold(maxRetries, i, current, resets, action, onReset);
      if Includes(attempt.message, SequenceMismatch) {
        trace := trace + [Reset];
        var reset := onReset(resets);
        resets := resets + 1;
        if reset.Reconnected? {
          current := reset.session;
          trace := trace + [Quarantine];
          i := i + 1;
          assert current == next && resets == resets';
          assert trace == before + round;
          PrependTwice(before, round, RunFrom(maxRetries, i, current, resets, action, onReset));
          continue;
        }
      }
      trace := trace + [Backoff];
      i := i + 1;
      assert current == next && resets == resets';
      assert trace == before + round;
      PrependTwice(before, round, RunFrom(maxRetries, i, current, resets, action, onReset));
    }
    assert false;
  }

  /**
   * The action runs at least once and at most once per remaining attempt, all of them when
   * the controller gives up; every run but the last is followed by exactly one wait.
   */
  lemma {:induction false} AttemptBounds<V>(maxRetries: nat, i: nat, s: Session, resets: nat,
                                           action: (nat, Session) -> Attempt<V>, onReset: nat -> ResetOutcome)
    requires i <= maxRetries
    ensures var r := RunFrom(maxRetries, i, s, resets, action, onReset);
      && 1 <= Count(r.trace, InvokeKind) <= maxRetries + 1 - i
      && (r.outcome.Exhausted? ==> Count(r.trace, InvokeKind) == maxRetries + 1 - i)
      && Count(r.trace, QuarantineKind) + Count(r.trace, BackoffKind) == Count(r.trace, InvokeKind) - 1
    decreases maxRetries - i
  {
    if i < maxRetries && action(i, s).Failed? {
      var prefix, next, resets' := Unfold(maxRetries, i, s, resets, action, onReset);
      var rest := RunFrom(maxRetries, i + 1, next, resets', action, onReset);
      AttemptBounds(maxRetries, i + 1, next, resets', action, onReset);
      CountAppend(prefix, rest.trace, InvokeKind);
      CountAppend(prefix, rest.trace, QuarantineKind);
      CountAppend(prefix, rest.trace, BackoffKind);
    }
  }

  /**
   * The trace opens with attempt i on the given session and closes with an attempt, and
   * that last attempt decides: its value is returned, or, when it is attempt maxRetries
   * and failed, its error is.
   */
  lemma {:induction false} LastAttemptDecides<V>(maxRetries: nat, i: nat, s: Session, resets: nat,
                                                 action: (nat, Session) -> Attempt<V>, onReset: nat -> ResetOutcome)
    requires i <= maxRetries
    ensures var r := RunFrom(maxRetries, i, s, resets, action, onReset);
      && |r.trace| >= 1 && r.trace[0] == Invoke(i, s) && r.trace[|r.trace| - 1].Invoke?
      && var last := r.trace[|r.trace| - 1];
      && (r.outcome.Success? ==> action(last.attempt, last.session) == Done(r.outcome.value))
      && (r.outcome.Exhausted? ==>
            last.attempt == maxRetries && action(last.attempt, last.session) == Failed(r.outcome.lastError))
    decreases maxRetries - i
  {
    if i < maxRetries && action(i, s).Failed? {
      var prefix, next, resets' := Unfold(maxRetries, i, s, resets, action, onReset);
      LastAttemptDecides(maxRetries, i + 1, next, resets', action, onReset);
    }
  }

  /** Attempts are numbered in order: the attempt at position p is i plus the attempts before it. */
  lemma AttemptsInOrder<V>(maxRetries: nat, i: nat, s: Session, resets: nat,
                           action: (nat, Session) -> Attempt<V>, onReset: nat -> ResetOutcome)
    requires i <= maxRetries
    ensures var t := RunFrom(maxRetries, i, s, resets, action, onReset).trace;
      forall p :: 0 <= p < |t| && t[p].Invoke? ==> t[p].attempt == i + Count(t[..p], InvokeKind)
  {
    var t := RunFrom(maxRetries, i, s, resets, action, onReset).trace;
    forall p | 0 <= p < |t| && t[p].Invoke?
      ensures t[p].attempt == i + Count(t[..p], InvokeKind)
    {
      AttemptNumberAt(maxRetries, i, s, resets, action, onReset, p);
    }
  }

  lemma {:induction false} AttemptNumberAt<V>(maxRetries: nat, i: nat, s: Session, resets: nat,
                                              action: (nat, Session) -> Attempt<V>, onReset: nat -> ResetOutcome, p: nat)
    requires i <= maxRetries && p < |RunFrom(maxRetries, i, s, resets, action, onReset).trace|
    ensures var t := RunFrom(maxRetries, i, s, resets, action, onReset).trace;
      t[p].Invoke? ==> t[p].attempt == i + Count(t[..p], InvokeKind)
    decreases maxRetries - i
  {
    var t := RunFrom(maxRetries, i, s, resets, action, onReset).trace;
    if i < maxRetries && action(i, s).Failed? {
      var prefix, next, resets' := Unfold(maxRetries, i, s, resets, action, onReset);
      var rt := RunFrom(maxRetries, i + 1, next, resets', action, onReset).trace;
      assert t == prefix + rt;
      if p >= |prefix| {
        var q := p - |prefix|;
        AttemptNumberAt(maxRetries, i + 1, next, resets', action, onReset, q);
        assert t[p] == rt[q];
        assert t[..p] == prefix + rt[..q];
        CountAppend(prefix, rt[..q], InvokeKind);
      } else if p > 0 {
        assert !t[p].Invoke?;
      }
    } else {
      assert |t| == 1;
    }
  }

  /** Every attempt before the last one failed, and none of them was attempt maxRetries. */
  lemma {:induction false} EarlierAttemptsFail<V>(maxRetries: nat, i: nat, s: Session, resets: nat,
                                                  action: (nat, Session) -> Attempt<V>, onReset: nat -> ResetOutcome)
    requires i <= maxRetries
    ensures var t := RunFrom(maxRetries, i, s, resets, action, onReset).trace;
      forall p :: 0 <= p < |t| - 1 && t[p].Invoke? ==>
        t[p].attempt < maxRetries && action(t[p].attempt, t[p].session).Failed?
    decreases maxRetries - i
  {
    var t := RunFrom(maxRetries, i, s, resets, action, onReset).trace;
    if i < maxRetries && action(i, s).Failed? {
      var prefix, next, resets' := Unfold(maxRetries, i, s, resets, action, onReset);
      var rt := RunFrom(maxRetries, i + 1, next, resets', action, onReset).trace;
      assert t == prefix + rt;
      EarlierAttemptsFail(maxRetries, i + 1, next, resets', action, onReset);
      forall p | 0 <= p < |t| - 1 && t[p].Invoke?
        ensures t[p].attempt < maxRetries && action(t[p].attempt, t[p].session).Failed?
      {
        if p >= |prefix| {
          assert t[p] == rt[p - |prefix|];
        } else {
          assert p == 0;
        }
      }
    } else {
      assert |t| == 1;
    }
  }

  /**
   * What follows a failed attempt at position p that is not the final one, with `resets`
   * reconnections made before the trace began: a mismatch error calls the reset callback
   * (its n-th call for the n-th reset) and, on success, waits the quarantine delay and
   * retries with the new session; a failed reset, or any other error, waits the normal
   * delay and retries with the same session.
   */
  ghost predicate Recovers(t: seq<Event>, p: nat, resets: nat, onReset: nat -> ResetOutcome, mismatch: bool)
    requires p < |t| && t[p].Invoke?
  {
    var j, s := t[p].attempt, t[p].session;
    if !mismatch then
      p + 2 < |t| && t[p + 1] == Backoff && t[p + 2] == Invoke(j + 1, s)
    else
      && p + 3 < |t| && t[p + 1] == Reset
      && match onReset(resets + Count(t[..p], ResetKind))
         case Reconnected(renewed) => t[p + 2] == Quarantine && t[p + 3] == Invoke(j + 1, renewed)
         case ResetFailed(_) => t[p + 2] == Backoff && t[p + 3] == Invoke(j + 1, s)
  }

  /** Position p of t, when it is a failed attempt below maxRetries, is followed by the recovery policy. */
  ghost predicate RecoversAt<V>(t: seq<Event>, p: nat, maxRetries: nat, resets: nat,
                                action: (nat, Session) -> Attempt<V>, onReset: nat -> ResetOutcome)
    requires p < |t|
  {
    t[p].Invoke? && t[p].attempt < maxRetries && action(t[p].attempt, t[p].session).Failed? ==>
      Recovers(t, p, resets, onReset, Includes(action(t[p].attempt, t[p].session).message, SequenceMismatch))
  }

  /** Every failed attempt before attempt maxRetries is followed by the recovery policy. */
  lemma FailuresRecover<V>(maxRetries: nat, i: nat, s: Session, resets: nat,
                           action: (nat, Session) -> Attempt<V>, onReset: nat -> ResetOutcome)
    requires i <= maxRetries
    ensures var t := RunFrom(maxRetries, i, s, resets, action, onReset).trace;
      forall p :: 0 <= p < |t| ==> RecoversAt(t, p, maxRetries, resets, action, onReset)
  {
    var t := RunFrom(maxRetries, i, s, resets, action, onReset).trace;
    forall p | 0 <= p < |t|
      ensures RecoversAt(t, p, maxRetries, resets, action, onReset)
    {
      RecoversAtPosition(maxRetries, i, s, resets, action, onReset, p);
    }
  }

  lemma {:induction false} RecoversAtPosition<V>(maxRetries: nat, i: nat, s: Session, resets: nat,
                                                 action: (nat, Session) -> Attempt<V>, onReset: nat -> ResetOutcome, p: nat)
    requires i <= maxRetries && p < |RunFrom(maxRetries, i, s, resets, action, onReset).trace|
    ensures RecoversAt(RunFrom(maxRetries, i, s, resets, action, onReset).trace, p, maxRetries, resets, action, onReset)
    decreases maxRetries - i
  {
    var t := RunFrom(maxRetries, i, s, resets, action, onReset).trace;
    if i < maxRetries && action(i, s).Failed? {
      var prefix, next, resets' := Unfold(maxRetries, i, s, resets, action, onReset);
      var rt := RunFrom(maxRetries, i + 1, next, resets', action, onReset).trace;
      assert t == prefix + rt;
      if p >= |prefix| {
        RecoversAtPosition(maxRetries, i + 1, next, resets', action, onReset, p - |prefix|);
        ShiftRecoversAt(prefix, rt, p - |prefix|, maxRetries, resets, resets', action, onReset);
      } else if p == 0 {
        FirstRoundRecovers(maxRetries, i, s, resets, action, onReset);
      } else {
        assert !t[p].Invoke?;
      }
    } else {
      assert |t| == 1;
    }
  }

  /** A failed attempt i below maxRetries opens the trace and is followed by the recovery policy. */
  lemma FirstRoundRecovers<V>(maxRetries: nat, i: nat, s: Session, resets: nat,
                              action: (nat, Session) -> Attempt<V>, onReset: nat -> ResetOutcome)
    requires i < maxRetries && action(i, s).Failed?
    ensures var t := RunFrom(maxRetries, i, s, resets, action, onReset).trace;
      |t| >= 1 && t[0] == Invoke(i, s) && Recovers(t, 0, resets, onReset, Includes(action(i, s).message, SequenceMismatch))
  {
    var t := RunFrom(maxRetries, i, s, resets, action, onReset).trace;
    var prefix, next, resets' := Unfold(maxRetries, i, s, resets, action, onReset);
    var rt := RunFrom(maxRetries, i + 1, next, resets', action, onReset).trace;
    LastAttemptDecides(maxRetries, i + 1, next, resets', action, onReset);
    assert t == prefix + rt;
    assert t[..0] == [];
    assert t[|prefix|] == rt[0] == Invoke(i + 1, next);
    if |prefix| == 3 {
      assert t[1] == prefix[1] && t[2] == prefix[2];
    } else {
      assert t[1] == prefix[1];
    }
  }

  lemma ShiftRecoversAt<V>(prefix: seq<Event>, rt: seq<Event>, q: nat, maxRetries: nat, resets: nat, resets': nat,
                           action: (nat, Session) -> Attempt<V>, onReset: nat -> ResetOutcome)
    requires q < |rt| && resets' == resets + Count(prefix, ResetKind)
    requires RecoversAt(rt, q, maxRetries, resets', action, onReset)
    ensures RecoversAt(prefix + rt, q + |prefix|, maxRetries, resets, action, onReset)
  {
    assert (prefix + rt)[q + |prefix|] == rt[q];
    if rt[q].Invoke? && rt[q].attempt < maxRetries && action(rt[q].attempt, rt[q].session).Failed? {
      ShiftRecovers(prefix, rt, q, resets, resets', onReset,
                    Includes(action(rt[q].attempt, rt[q].session).message, SequenceMismatch));
    }
  }

  lemma ShiftCount(prefix: seq<Event>, rt: seq<Event>, q: nat)
    requires q <= |rt|
    ensures Count((prefix + rt)[..q + |prefix|], ResetKind) == Count(prefix, ResetKind) + Count(rt[..q], ResetKind)
  {
    assert (prefix + rt)[..q + |prefix|] == prefix + rt[..q];
    CountAppend(prefix, rt[..q], ResetKind);
  }

  /** Recovers at position q of a trace holds at q + |prefix| once a round is put in front. */
  lemma ShiftRecovers(prefix: seq<Event>, rt: seq<Event>, q: nat, resets: nat, resets': nat,
                      onReset: nat -> ResetOutcome, mismatch: bool)
    requires q < |rt| && rt[q].Invoke?
    requires resets' == resets + Count(prefix, ResetKind)
    requires Recovers(rt, q, resets', onReset, mismatch)
    ensures Recovers(prefix + rt, q + |prefix|, resets, onReset, mismatch)
  {
    var t, p := prefix + rt, q + |prefix|;
    ShiftCount(prefix, rt, q);
    var n := resets + Count(t[..p], ResetKind);
    assert n == resets' + Count(rt[..q], ResetKind);
    assert t[p] == rt[q];
    assert t[p + 1] == rt[q + 1] && t[p + 2] == rt[q + 2];
    if mismatch {
      assert t[p + 3] == rt[q + 3];
      match onReset(n)
      case Reconnected(renewed) =>
        assert t[p + 2] == Quarantine && t[p + 3] == Invoke(t[p].attempt + 1, renewed);
      case ResetFailed(_) =>
        assert t[p + 2] == Backoff && t[p + 3] == Invoke(t[p].attempt + 1, t[p].session);
    } else {
      assert t[p + 1] == Backoff && t[p + 2] == Invoke(t[p].attempt + 1, t[p].session);
    }
  }

  /**
   * An action that fails with some other error on attempts i .. n - 1 and succeeds on
   * attempt n <= maxRetries runs n - i + 1 times, backs off after each failure, never
   * resets, and its value is returned.
   */
  lemma {:induction false} FailsThenSucceeds<V>(maxRetries: nat, i: nat, n: nat, s: Session, resets: nat,
                                                action: (nat, Session) -> Attempt<V>, onReset: nat -> ResetOutcome, v: V)
    requires i <= n <= maxRetries
    requires forall j :: i <= j < n ==> action(j, s).Failed? && !Includes(action(j, s).message, SequenceMismatch)
    requires action(n, s) == Done(v)
    ensures var r := RunFrom(maxRetries, i, s, resets, action, onReset);
      && r.outcome == Success(v)
      && Count(r.trace, InvokeKind) == n - i + 1
      && Count(r.trace, BackoffKind) == n - i
      && Count(r.trace, ResetKind) == 0
    decreases n - i
  {
    if i < n {
      var prefix, next, resets' := Unfold(maxRetries, i, s, resets, action, onReset);
      var rest := RunFrom(maxRetries, i + 1, next, resets', action, onReset);
      FailsThenSucceeds(maxRetries, i + 1, n, s, resets, action, onReset, v);
      CountAppend(prefix, rest.trace, InvokeKind);
      CountAppend(prefix, rest.trace, BackoffKind);
      CountAppend(prefix, rest.trace, ResetKind);
    }
  }

  /** An action that fails on every attempt, whatever the session, makes the controller give up. */
  lemma {:induction false} AlwaysFails<V>(maxRetries: nat, i: nat, s: Session, resets: nat,
                                          action: (nat, Session) -> Attempt<V>, onReset: nat -> ResetOutcome)
    requires i <= maxRetries
    requires forall j, session :: i <= j <= maxRetries ==> action(j, session).Failed?
    ensures RunFrom(maxRetries, i, s, resets, action, onReset).outcome.Exhausted?
    decreases maxRetries - i
  {
    if i < maxRetries {
      var prefix, next, resets' := Unfold(maxRetries, i, s, resets, action, onReset);
      AlwaysFails(maxRetries, i + 1, next, resets', action, onReset);
    }
  }

  /**
   * A mismatch on the first attempt, a successful reconnection and a success with the new
   * session: reset, quarantine, and the second attempt runs with the renewed session.
   */
  lemma RecoveredMismatch<V>(maxRetries: nat, a: Session, b: Session, message: string, v: V,
                             action: (nat, Session) -> Attempt<V>, onReset: nat -> ResetOutcome)
    requires maxRetries >= 1
    requires action(0, a) == Failed(message) && Includes(message, SequenceMismatch)
    requires onReset(0) == Reconnected(b) && action(1, b) == Done(v)
    ensures RunFrom(maxRetries, 0, a, 0, action, onReset)
         == Run(Success(v), [Invoke(0, a), Reset, Quarantine, Invoke(1, b)])
  {
  }

  /** How long a wait event sleeps, in seconds (none for the other events). */
  function WaitSeconds(e: Event): (d: nat)
    ensures d > 0 <==> e == Quarantine || e == Backoff
  {
    match e
    case Quarantine => SequenceMismatchDelaySeconds
    case Backoff => DelaySeconds
    case _ => 0
  }

  /** The seconds a trace spends asleep. */
  function TotalWait(t: seq<Event>): nat {
    if t == [] then 0 else WaitSeconds(t[0]) + TotalWait(t[1..])
  }

  lemma {:induction false} TotalWaitByKind(t: seq<Event>)
    ensures TotalWait(t) == DelaySeconds * Count(t, BackoffKind) + SequenceMismatchDelaySeconds * Count(t, QuarantineKind)
    decreases |t|
  {
    if t != [] {
      TotalWaitByKind(t[1..]);
    }
  }

  /**
   * Every retry sleeps delaySeconds (34) or, after a reconnection, sequenceMismatchDelaySeconds
   * (60): a run with n retries sleeps between 34n and 60n seconds, and at most
   * 60 * (maxRetries - i) seconds from attempt i on.
   */
  lemma WaitBounds<V>(maxRetries: nat, i: nat, s: Session, resets: nat,
                      action: (nat, Session) -> Attempt<V>, onReset: nat -> ResetOutcome)
    requires i <= maxRetries
    ensures var t := RunFrom(maxRetries, i, s, resets, action, onReset).trace;
      var retries := Count(t, InvokeKind) - 1;
      && DelaySeconds * retries <= TotalWait(t) <= SequenceMismatchDelaySeconds * retries
      && TotalWait(t) <= SequenceMismatchDelaySeconds * (maxRetries - i)
  {
    var t := RunFrom(maxRetries, i, s, resets, action, onReset).trace;
    AttemptBounds(maxRetries, i, s, resets, action, onReset);
    TotalWaitByKind(t);
  }
}
