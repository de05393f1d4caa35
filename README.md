# Launch terminal: a model of the scripted launch sequence

The landing page (`Home` in `src/app/page.tsx`) shows a fake terminal. When the
visitor presses the launch button, a chain of timer callbacks walks a fixed
script of entries. A **system entry** adds one status line to the history. A
**user entry** is typed into the partial line one character at a time. It is
then moved into the history as a typed line and followed by a response line.
An entry flagged `final` schedules the celebration (confetti) and the redirect.
Once the cursor passes the last entry, the page marks the launch complete. A
separate interval toggles the blinking cursor the whole time.

The project models this sequencer:

- `script.dfy`, module `LaunchScript`: the `Entry` (`Command`) and `Line`
  (`CommandHistoryItem`) datatypes, the page's own 20-entry table
  `LaunchCommands`, and the fallback rules for the status and response texts.
  It also holds the pure specification: `Lines(e)` (what one entry adds),
  `Expected(script)` (the in-order flattening) and `Celebrations(script)`,
  with lemmas about them.
- `home.dfy`, module `Page`: class `Home`. Its fields are the React state
  (`launching`, `history`, `currentLine`, `showCursor`, `complete`) and the
  effect's closure variables (`cursor` for `currentCommandIndex`, `typed` for
  `typedCommand`, `charIndex`). The field `pending` says which callback the
  timers run next. The counter `celebrations` counts how often the
  celebration and redirect were scheduled. There is one method per callback.
  `Valid()` is the invariant they all keep: the history equals
  `Expected(script[..cursor])`, plus the finished typed line of the entry in
  progress, and the partial line is exactly the prefix of length `charIndex`.
- `eventloop.dfy`, module `EventLoop`: the timer queue, modelled as the order
  in which it runs callbacks. `RunLaunch` presses the button some number of
  times and then runs the pending callback until none is left. It proves that
  a complete run leaves `Expected(script)` as the history, fires the
  celebration `Celebrations(script)` times and marks the launch complete. It
  also proves that extra clicks change nothing. `BlinkFor` runs the blink
  interval.

Two points where the code is more specific than a loose reading of the
page's behaviour. The model follows the code in both:

- The `final` flag is only examined for system entries (line 80 is inside
  the `isSystem` branch). A user entry flagged `final` would fire nothing.
- The celebration and redirect are scheduled by the entry flagged `final`,
  not by reaching the end of the script. In the page's own table, that entry
  is the last one and a system entry (`LaunchCommandsFinal`).

## Model

| member | source | states |
|---|---|---|
| `LaunchScript.SystemText` | src/app/page.tsx:76-77 | a status line shows the entry's `text` when set and non-empty, otherwise its `command`; it is empty only if the command is |
| `LaunchScript.ResponseText` | src/app/page.tsx:110-114 | the response shows `response` when set and non-empty, otherwise `"> " + command + " executed successfully"`; it is never empty |
| `LaunchScript.ExpectedAppend` | src/app/page.tsx:71-127 | the transcript of a script is built entry by entry: running `a` then `b` yields the transcript of `a` followed by that of `b` |
| `LaunchScript.ExpectedSnoc` | src/app/page.tsx:77-117 | handling one more entry appends exactly that entry's lines and keeps all earlier lines |
| `LaunchScript.ExpectedLength` | src/app/page.tsx:76-117 | a complete transcript has one line per entry plus one response line per user entry |
| `LaunchScript.ExpectedTypedLines` | src/app/page.tsx:107-114 | the non-system lines of a transcript are exactly the typed commands, in script order; all responses and status lines are system lines |
| `LaunchScript.ExpectedUserPairs` | src/app/page.tsx:104-114 | in a script of user entries, line 2k of the transcript is command k (not system) and line 2k+1 is its response (system) |
| `LaunchScript.ExpectedExample` | src/app/page.tsx:71-118 | a status entry "A" then a command "hi" with response "ok" give the transcript A (system), hi (typed), ok (system) |
| `LaunchScript.CelebrationsAppend` | src/app/page.tsx:76-86 | the number of celebrations of a concatenated script is the sum over its parts |
| `LaunchScript.CelebrationsNone` | src/app/page.tsx:80-86 | a script with no final system entry never schedules the celebration |
| `LaunchScript.CelebrationsFinalLast` | src/app/page.tsx:80-86 | a script whose only final entry is its last, a system entry, schedules the celebration exactly once |
| `LaunchScript.LaunchCommandsFinal` | src/app/page.tsx:34-55 | the page's table has 20 entries; only the last is final, and it is a system entry, so the celebration fires exactly once |
| `Page.Home.constructor` | src/app/page.tsx:26-30 | a fresh page is not launching, has an empty history and partial line, shows the cursor, and is not complete |
| `Page.Home.Activate` | src/app/page.tsx:190-191 | activation switches `launching` on and arms the first `typeNextCommand` with the cursor at 0; when already launching it changes nothing |
| `Page.Home.TypeNextCommand` | src/app/page.tsx:71-127 | at the end of the script it sets `complete` and nothing else. On a system entry it appends one system line, leaves the partial line alone, counts the celebration iff the entry is final, and advances the cursor by one. On a user entry it reveals the first character, or finishes at once when the command is empty |
| `Page.Home.TypeCharacter` | src/app/page.tsx:98-107 | while characters remain, the partial line grows by exactly the next character and stays the prefix of length `charIndex`; at the end it is cleared, and exactly one typed line with the full command is appended |
| `Page.Home.AddResponse` | src/app/page.tsx:110-117 | appends exactly one system line with the response text, then advances the cursor by one |
| `Page.Home.Blink` | src/app/page.tsx:58-61 | negates `showCursor`, changes no other field and keeps the sequencer invariant |
| `EventLoop.RunLaunch` | src/app/page.tsx:67-132 | with no click nothing happens; with one or more clicks the run terminates complete, the history equals `Expected(script)` and the celebration fires `Celebrations(script)` times, however many clicks |
| `EventLoop.LaunchPage` | src/app/page.tsx:34-132 | on the page's own script, one or more clicks give the full transcript, mark the launch complete and schedule the celebration and redirect exactly once |
| `EventLoop.BlinkFor` | src/app/page.tsx:58-61 | on a fresh page, after n blink ticks the cursor is visible exactly when n is even, so two ticks restore it |

## Left out

- Timer durations are not modelled: the per-entry `delay`, the 300 ms response wait, the 500 ms and 2000 ms effect delays, and the random 30-70 ms typing interval. They only decide when a callback runs. The model keeps the order of callbacks and keeps `delay` as inert data.
- Randomness, wall-clock time and interleaving with real time are not modelled. The blink interval is a separate method that may run at any point. Its frame shows it touches only `showCursor`.
- `triggerConfetti` and the click burst in `handleLaunch` are not modelled. They use floating-point particle maths, `Date.now`, `setInterval` and the foreign `canvas-confetti` module. Scheduling the celebration is only counted, in `celebrations`.
- The redirect to the external site is not modelled. It is browser navigation, counted together with the celebration. The model also does not stop at the redirect: the sequence runs to its end in any case.
- Auto-scrolling the terminal, the JSX markup, `framer-motion` animation, the page head and the CSS are not modelled. They are presentation only.
- The dynamic import of the confetti module and React's re-render and dependency mechanics are not modelled, beyond the rule that the effect starts a run only when `launching` changes.
- `Page.Home.TypeCharacter`: characters are Unicode scalar values, while JavaScript's `length` and `charAt` count UTF-16 code units. The two agree on the typed commands of the page's table, which are ASCII, but not on commands with characters outside the Basic Multilingual Plane.
