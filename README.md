# Oroswap testnet bot: verified model of its deterministic core

The bot in `oro1.js` swaps at random on two Oroswap pairs of ZIGChain's testnet (ORO/ZIG and
ZIG/BEE) and adds liquidity to them. Around its SDK calls it holds a small core of exact logic,
and this project models that core in Dafny and proves properties of it:

- **Belief price** (`Pricing`, built on `Decimal` and `Pool`). `calculateBeliefPrice` checks the
  pool's two-asset answer, finds both denominations with `Array.prototype.find`, rejects a zero
  "to" reserve, divides `amountFrom * 10^18` by `amountTo` in BigInt, and writes the quotient
  with exactly 18 fractional digits. It does this through `toString`, `slice` and `padStart`.
- **Paired liquidity** (`Liquidity`). This is the ZIG amount that `addLiquidity` pairs with a token
  amount: `tokenMicro * zigReserve / tokenReserve`, truncated.
- **Retry and reconnect controller** (`Retry`). `withRetry` is a counted loop of at most
  `maxRetries + 1` attempts. A "sequence mismatch" error triggers a reconnection callback and a
  quarantine wait. Any other error, or a failed reconnection, triggers the normal backoff. A
  failure on the final attempt is re-thrown.
- **Run skeleton** (`Cycle`). `runCycle` has a swap phase and a liquidity phase. Each action's
  report line is pushed into the shared summary array, and a delay follows every action but the
  last of its phase. `startBot` adds the wallet line and the final status line, whose rule is
  "success if and only if no line starts with ❌". It also has a fatal path.
- **Display helpers** (`Utility`): `getShortAddress` and `getSymbolFromDenom`.

The summary array is a class, `Cycle.ReportSummary`, that the methods push into. Two methods
hold loops: `Retry.WithRetry`, and `Cycle.RunPhase`, which is one phase loop of `runCycle`.
`WithRetry` is proved equal to the recursive reference function `Retry.RunFrom`. `RunPhase` is
proved to push `Cycle.Entries` and to produce `Cycle.PhaseTrace`. `Cycle.RunCycle` and
`Cycle.StartBot` are methods built on `RunPhase`. Their results are given by `Cycle.CycleTrace`
and by `Cycle.RunReport`, a plain function that is not recursive. The behaviour is then proved
about these functions.

Parameters stand in for everything the core receives from outside:

- the pool query answer;
- the outcome of each action attempt and of each reconnection, given as total functions of the
  attempt index (or reset count) and the session;
- the per-action outcomes of a cycle;
- the result of `initializeClient`.

Waits appear as trace events. No time passes.

## Model

| member | source | states |
|---|---|---|
| Pool.Find | oro1.js:131-132 | `find` with the bot's predicate: it returns the first native entry for the denomination exactly when one exists before any CW20 entry. It returns `undefined` exactly when every entry is native with another denomination. It throws exactly when a CW20 entry is reached first. |
| Pricing.LookupReserves | oro1.js:127-139 | The pool is refused exactly when `assets` is missing or its length is not 2. "Not found" happens exactly when a lookup misses and neither throws. Otherwise it yields the amounts of the first matching entries. |
| Pricing.CalculateBeliefPrice | oro1.js:126-155 | Lookup errors propagate. The zero-reserve error happens exactly when the "to" reserve is 0. Every success is a fixed-point string with 18 fractional digits that reads back to `floor(amountFrom * 10^18 / amountTo)` for the first matching entries. |
| Pricing.BeliefPriceSucceeds | oro1.js:138-154 | Two matching native entries and a positive "to" reserve always give `Ok` with the formatted quotient. |
| Pricing.FormatPriceRoundTrip | oro1.js:145-154 | The price text has one point followed by exactly 18 digits. Deleting the point and reading the digits gives q. The integer part is the text of q / 10^18. The fraction is q mod 10^18 padded on the left with zeros. The integer part is "0" exactly when q < 10^18. |
| Pricing.BeliefPriceQuotient | oro1.js:145-146 | BigInt division truncates: `q * amountTo <= amountFrom * 10^18 < (q + 1) * amountTo`. |
| Pricing.FormatPrice | oro1.js:149-154 | The price text is fixed point with 18 fractional digits, and it reads back to the quotient it was made from. |
| Pricing.ExamplePrice | oro1.js:126-155 | Reserves of 1000 ZIG and 500 ORO (in micro units) give the ZIG-to-ORO price "2.000000000000000000". |
| Decimal.FormatFixedRoundTrip | oro1.js:149-154 | The `slice`/`padStart` formatting with k ≥ 1 fractional digits, for any k: the same round trip, its integer and fraction parts, and the "0" rule, with k in place of 18. |
| Decimal.NatToString | oro1.js:149 | BigInt `toString` of a non-negative value: at least one character, all decimal digits, and no leading zero unless the text is "0". |
| Decimal.PadStartZeros | oro1.js:153 | `padStart(target, '0')`: the length is the larger of the text's length and the target. The text itself ends the result, only zeros come before it, and digits stay digits. |
| Decimal.FormatFixed | oro1.js:149-154 | Both branches, the `slice` split and the "0." with `padStart`, give a fixed-point string: at least one digit, one point, then exactly k digits. |
| Decimal.ParseNatToString | oro1.js:149 | The decimal text that BigInt `toString` produces reads back to the number. |
| Decimal.LengthBound | oro1.js:150 | For k ≥ 1, the text of n has at most k digits exactly when n < 10^k. This is the test that decides which formatting branch runs. |
| Decimal.LowDigitsPadded | oro1.js:153 | `padStart(k, '0')` applied to the text of n < 10^k gives exactly the k low digits of n. |
| Decimal.SplitDigits | oro1.js:151 | For n ≥ 10^k, `slice(0, -k)` and `slice(-k)` split the text of n into the text of n / 10^k and the k low digits. |
| Liquidity.PairedAmount | oro1.js:185 | The truncated ratio: `r * tokenReserve <= tokenMicro * zigReserve < (r + 1) * tokenReserve`. |
| Liquidity.ZigMicroNeeded | oro1.js:180-185 | A missing `assets`, a failed lookup or a CW20 entry reached first is a TypeError, exactly. A zero token reserve is a division RangeError, exactly. Otherwise the result is the paired amount for the first matching entries. |
| Liquidity.PairedAmountMonotone | oro1.js:185 | For fixed reserves, more tokens never need less ZIG. |
| Liquidity.PairedAmountStrict | oro1.js:185 | If the ZIG reserve is at least the token reserve, more tokens need strictly more ZIG. |
| Liquidity.PairedAmountNotStrict | oro1.js:185 | Otherwise truncation can keep the amount the same: 0 and 1 token against reserves 1 and 2 both need 0. |
| Liquidity.ExampleLiquidity | oro1.js:180-185 | 10 ORO (10,000,000 micro units) against reserves of 1000 ZIG and 500 ORO need 20,000,000 micro ZIG. |
| Utility.SymbolFromDenom | oro1.js:79-84 | Each known denomination maps to its own ticker, in both directions of the equivalence. Anything else maps to "UNKNOWN". |
| Utility.SymbolRoundTrip | oro1.js:46-50 | The ticker map inverts the `chainInfo.denoms` table. |
| Utility.ShortAddress | oro1.js:64 | The result is "N/A" exactly for a missing or empty address. An address of at least 6 characters gives its first 6 characters, "...", and its last 4; from 10 characters on that is 13 characters. A shorter address gives all of itself, "...", and its last 4 characters, or all of itself when it has fewer than 4. |
| Utility.SliceHead | oro1.js:64 | `slice(0, n)`: a prefix of the string with n characters, or the whole string when it is shorter. |
| Utility.SliceTail | oro1.js:64 | `slice(-n)`: a suffix of the string with n characters, or the whole string when it is shorter. |
| Utility.ShortAddressOfShort | oro1.js:64 | For addresses of at most 4 characters, both slices return the whole address. |
| Retry.WithRetry | oro1.js:204-243 | The loop's outcome and trace equal the reference run `RunFrom` from attempt 0. It makes between 1 and maxRetries + 1 attempts, all of them when it gives up. There is exactly one wait per attempt except the last. |
| Retry.RunFrom | oro1.js:208-241 | The reference run, branch by branch as the loop body is written. Its trace is never empty and opens with attempt i on the session it was given. |
| Retry.Includes | oro1.js:220 | `includes`: the empty text is included in every message, and an included text is never longer than the message. |
| Retry.IncludesFound | oro1.js:220 | A message holding the marker anywhere is detected as including it, whatever text surrounds it. |
| Retry.IncludesSplit | oro1.js:220 | Conversely, a message that includes the marker is some text, the marker, and some more text. |
| Retry.ExhaustedMessage | oro1.js:217 | The message thrown after the final attempt. Its parts are stated by `Retry.ExhaustedMessageParts`. |
| Retry.ExhaustedMessageParts | oro1.js:217 | The thrown message is "Aksi gagal setelah ", the decimal text of maxRetries (which reads back to it), " percobaan: ", and the last error's message at the end. |
| Retry.WaitBounds | oro1.js:227-239 | Each retry sleeps either delaySeconds (34) or, after a reconnection, sequenceMismatchDelaySeconds (60). A run with n retries sleeps between 34n and 60n seconds, and at most 60 * (maxRetries - i) seconds from attempt i on. |
| Retry.TotalWaitByKind | oro1.js:229-239 | A trace sleeps 34 seconds per backoff and 60 per quarantine. |
| Retry.AttemptBounds | oro1.js:208-217 | From attempt i, the action runs between 1 and maxRetries + 1 − i times, and all of them when the outcome is a throw. Waits number one less than attempts. |
| Retry.LastAttemptDecides | oro1.js:210-217 | The trace starts with attempt i on the given session and ends with an attempt. A success returns that attempt's value. A throw happens only after attempt maxRetries failed, and it carries that error. No reset or wait follows the final attempt, even on a mismatch. |
| Retry.AttemptsInOrder | oro1.js:208 | Attempt numbers count up by one per attempt. A mismatch, even one followed by `continue`, uses up an attempt. |
| Retry.EarlierAttemptsFail | oro1.js:210-217 | Every attempt before the last one failed and was not attempt maxRetries, so the value returned belongs to the first successful attempt. |
| Retry.FailuresRecover | oro1.js:219-241 | After each failed non-final attempt: a mismatch calls the n-th reset. If the reset succeeds, one quarantine wait follows and the next attempt uses the new session. If it fails, one backoff follows and the old session is kept. Any other error gives one backoff and keeps the same session. |
| Retry.FailsThenSucceeds | oro1.js:208-241 | An action that fails with a non-mismatch error n − i times and then succeeds runs n − i + 1 times, backs off n − i times, never resets, and its value is returned. |
| Retry.AlwaysFails | oro1.js:213-217 | An action that fails on every attempt makes `withRetry` throw. |
| Retry.RecoveredMismatch | oro1.js:219-230 | A mismatch, a successful reconnection and a success give the trace: attempt, reset, quarantine, then the second attempt with the renewed session. |
| Cycle.ReportSummary.Push | oro1.js:309 | `push` appends exactly one line. |
| Cycle.EntryOf | oro1.js:308-313 | One action pushes at most one line. It pushes none exactly when it returned the empty result. An action that threw pushes a line starting with ❌ whenever its lead does. |
| Cycle.Entries | oro1.js:297-313 | The lines a phase pushes: the `EntryOf` lines of its actions, in order. `Cycle.RunPhase` is proved to push exactly these, and `Cycle.EntriesAppend` splits them. |
| Cycle.RunPhase | oro1.js:297-320 | One phase loop: the pushed lines are the phase's entries, and the trace is the phase's reference trace. |
| Cycle.RunCycle | oro1.js:291-355 | Swap lines, then liquidity lines, are appended to the summary. The trace is the swap phase, then (when there are liquidity actions) one delay and the liquidity phase. |
| Cycle.PhaseTraceShape | oro1.js:315-319 | Actions and delays alternate: action i at position 2i and a delay at 2i + 1. A phase of n actions has 2n − 1 events, so a delay follows action i exactly when i < n − 1. |
| Cycle.DelayBeforeLiquidity | oro1.js:323-326 | When there are liquidity actions, exactly one delay separates the swap phase's last action from the first liquidity action. |
| Cycle.ConfiguredCycle | oro1.js:295-349 | The configured 4 swaps and 8 liquidity additions give 7 swap-phase events, one delay and 15 liquidity-phase events, with the delay right after the fourth swap. |
| Cycle.EntriesAppend | oro1.js:308-313 | The lines of two runs of actions, one after the other, are the first run's lines followed by the second's. |
| Cycle.OneEntryPerAction | oro1.js:308-313 | When every returned result is non-empty, each action pushes exactly one line, in order, whether it succeeded or failed. |
| Cycle.FailureLines | oro1.js:310-313 | A phase's lines hold a line starting with ❌ exactly when one of its actions threw or returned a result starting with ❌. |
| Cycle.HasFailedTasksMeaning | oro1.js:381 | `some(msg => msg.startsWith('❌'))` is true exactly when some line starts with ❌. |
| Cycle.HasFailedTasks | oro1.js:381 | `some(msg => msg.startsWith('❌'))`, element by element. Its meaning is stated by `Cycle.HasFailedTasksMeaning`. |
| Cycle.StatusRule | oro1.js:374-386 | The status is "Berhasil" exactly when no swap and no liquidity action reports a failure. |
| Cycle.WalletLine | oro1.js:372-375 | The wallet line is the short address between "- Wallet: *" and "*", and it does not start with ❌. |
| Cycle.StatusLine | oro1.js:382-386 | The status line is the success line exactly when no failed task was found, and otherwise the partial line. It does not start with ❌ itself. |
| Cycle.FatalLine | oro1.js:392 | The fatal line ends with the error's message. It opens with a newline, so it does not start with ❌. |
| Cycle.StartBot | oro1.js:357-396 | A setup failure sends only the fatal line and exits with code 1. Otherwise it sends the report `RunReport` (the wallet line, the cycle's lines and the status line those lines call for) and exits with 0. |
| Cycle.StatusLineRule | oro1.js:381-386 | The pushed status line is "Berhasil" exactly when no line before it starts with ❌. |
| Cycle.FinalStatus | oro1.js:370-386 | The report of a successful setup is the wallet line and the cycle's lines, followed by one status line. That line is "Berhasil" or "Selesai dengan beberapa kegagalan". It is "Berhasil" exactly when no earlier line starts with ❌, and exactly when no swap or liquidity action threw or returned a result starting with ❌. |

## Left out

- `toMicroUnitsString`, `getBalance` and the balance comparisons in `autoSwap`, `handleAddLiquidity` and `addLiquidity` are left out. So are the random amounts, percentages, pair and pool choices, and `getRandomDelay`. They are JavaScript floating point and `Math.random`. The liquidity model takes `tokenMicro` as a given natural number. The cycle model takes the chosen pool and each action's outcome as given.
- The `@cosmjs` calls are left out: wallet derivation, `connectWithSigner`, `queryContractSmart` and `execute`. These are opaque network calls. The pool answer, the action outcomes and the reconnection results are parameters instead.
- `sleep` and real time are left out. Waits are trace events. A retry wait's length in seconds is given by `Retry.WaitSeconds`, and the random delay between cycle actions (`Cycle.CycleEvent.Delay`) has no length in the model.
- `addLog`, console colouring, `process.exit` and `sendTelegramReport` are left out. `startBot` returns the lines it would send and the exit code instead. `telegram_reporter.js` is not part of this model: it is an HTTP post of the joined lines.
- `oro.js` is not part of this model. It is an older floating-point variant of the same bot.
- Parsing of BigInt strings is left out. Pool amounts are natural numbers, as a well-formed Uint128 string yields. A malformed amount string, which would make `BigInt` throw a SyntaxError, is not modelled.
- Strings are sequences of Unicode code points, not UTF-16 code units. This matters only for lengths of non-ASCII text, and neither the addresses passed to `getShortAddress` nor the denominations contain any.
- Retry.WithRetry: the reconnected session stays inside one `withRetry` call. `runCycle` passes its own `client` and `address` parameters to every call, so the next action starts again from the session the cycle began with. The model reflects this: every action's outcome is given independently.
- Retry.WithRetry: the text of the thrown error says `maxRetries` attempts ("Aksi gagal setelah 5 percobaan"), although `maxRetries + 1` attempts were made. The model keeps this text as written (`Retry.ExhaustedMessage`) and proves the true attempt count.
- Liquidity.PairedAmountMonotone: truncation makes the paired ZIG amount only non-decreasing in `tokenMicro`, not strictly increasing. Strictness is proved only when the ZIG reserve is at least the token reserve, and `Liquidity.PairedAmountNotStrict` shows the other case.
- The phase repetition counts are given by the lengths of the outcome sequences. The configured values are 4 swaps and 8 liquidity additions (`Cycle.SwapRepetitions` and `Cycle.LiquidityRepetitions`). The `> 0` guards of `runCycle` are modelled for any count.
- Cycle.StartBot: only `initializeClient` is taken to throw inside the `try`. `runCycle` catches the error of every action, and `sendTelegramReport` catches its own, so a fatal line never follows a wallet line.
