/** The launch script of the terminal landing page: its entries, the history
    lines each entry produces, and the transcript a complete run leaves behind. */
module LaunchScript {

  datatype Option<+T> = None | Some(value: T)

  /** One entry of the script. `isSystem` and `final` stand for optional flags
      whose absence reads as false; `delay` only decides when the next entry
      starts and plays no part in what is shown. */
  datatype Entry = Entry(
    command: string,
    delay: nat,
    isSystem: bool,
    final: bool,
    response: Option<string>,
    text: Option<string>)

  /** One line of the rendered history. */
  datatype Line = Line(text: string, isSystem: bool)

  /** `o || fallback` on an optional string: a missing or empty string is falsy. */
  function OrElse(o: Option<string>, fallback: string): string
  {
    if o.Some? && o.value != "" then o.value else fallback
  }

  /** The text of the line a system entry shows: its `text` when that is set
      and not empty, otherwise its `command`. */
  function SystemText(e: Entry): (r: string)
    ensures e.text.Some? && e.text.value != "" ==> r == e.text.value
    ensures e.text.None? || e.text.value == "" ==> r == e.command
    ensures r == "" ==> e.command == ""
  {
    OrElse(e.text, e.command)
  }

  /** The canned reply shown when a typed command has no response of its own. */
  function SuccessMessage(command: string): string
  {
    "> " + command + " executed successfully"
  }

  /** The response line after a typed command: its `response` when that is set
      and not empty, otherwise the success message. It is never empty. */
  function ResponseText(e: Entry): (r: string)
    ensures e.response.Some? && e.response.value != "" ==> r == e.response.value
    ensures e.response.None? || e.response.value == "" ==> r == SuccessMessage(e.command)
    ensures r != ""
  {
    OrElse(e.response, SuccessMessage(e.command))
  }

  /** The lines one entry adds to the history: one system line for a system
      entry, the typed command and its response for a user entry. */
  function Lines(e: Entry): seq<Line>
  {
    if e.isSystem then [Line(SystemText(e), true)]
    else [Line(e.command, false), Line(ResponseText(e), true)]
  }

  /** The transcript a complete run over `script` produces, entry by entry in order. */
  function Expected(script: seq<Entry>): seq<Line>
  {
    if script == [] then [] else Lines(script[0]) + Expected(script[1..])
  }

  /** How many times running `script` fires the celebration and redirect:
      once per entry that is both a system entry and flagged final (the flag
      is only looked at on system entries). */
  function Celebrations(script: seq<Entry>): nat
  {
    if script == [] then 0
    else (if script[0].isSystem && script[0].final then 1 else 0) + Celebrations(script[1..])
  }

  /** The number of user (typed) entries in `script`. */
  function UserCount(script: seq<Entry>): nat
  {
    if script == [] then 0 else (if script[0].isSystem then 0 else 1) + UserCount(script[1..])
  }

  /** The commands of the user entries of `script`, in order. */
  function UserCommands(script: seq<Entry>): seq<string>
  {
    if script == [] then []
    else (if script[0].isSystem then [] else [script[0].command]) + UserCommands(script[1..])
  }

  /** The texts of the non-system (typed) lines of a history, in order. */
  function TypedTexts(lines: seq<Line>): seq<string>
  {
    if lines == [] then []
    else (if lines[0].isSystem then [] else [lines[0].text]) + TypedTexts(lines[1..])
  }

  /** The transcript of a concatenation is the concatenation of the transcripts. */
  lemma {:induction false} ExpectedAppend(a: seq<Entry>, b: seq<Entry>)
    ensures Expected(a + b) == Expected(a) + Expected(b)
  {
    if a == [] {
      assert a + b == b;
    } else {
      assert (a + b)[1..] == a[1..] + b;
      ExpectedAppend(a[1..], b);
    }
  }

  /** Running one more entry appends exactly that entry's lines. */
  lemma ExpectedSnoc(s: seq<Entry>, e: Entry)
    ensures Expected(s + [e]) == Expected(s) + Lines(e)
  {
    ExpectedAppend(s, [e]);
    assert [e][1..] == [];
  }

  lemma {:induction false} CelebrationsAppend(a: seq<Entry>, b: seq<Entry>)
    ensures Celebrations(a + b) == Celebrations(a) + Celebrations(b)
  {
    if a == [] {
      assert a + b == b;
    } else {
      assert (a + b)[1..] == a[1..] + b;
      CelebrationsAppend(a[1..], b);
    }
  }

  lemma CelebrationsSnoc(s: seq<Entry>, e: Entry)
    ensures Celebrations(s + [e]) == Celebrations(s) + (if e.isSystem && e.final then 1 else 0)
  {
    CelebrationsAppend(s, [e]);
    assert [e][1..] == [];
  }

  /** A script with no final system entry never fires the celebration. */
  lemma {:induction false} CelebrationsNone(s: seq<Entry>)
    requires forall i :: 0 <= i < |s| ==> !(s[i].isSystem && s[i].final)
    ensures Celebrations(s) == 0
  {
    if s != [] {
      CelebrationsNone(s[1..]);
    }
  }

  /** A script whose only final system entry is its last fires the celebration exactly once. */
  lemma {:induction false} CelebrationsFinalLast(s: seq<Entry>)
    requires s != []
    requires s[|s| - 1].isSystem && s[|s| - 1].final
    requires forall i :: 0 <= i < |s| - 1 ==> !s[i].final
    ensures Celebrations(s) == 1
  {
    var init := s[..|s| - 1];
    assert s == init + [s[|s| - 1]];
    CelebrationsNone(init);
    CelebrationsSnoc(init, s[|s| - 1]);
  }

  /** A transcript has one line per entry plus one response line per user entry. */
  lemma {:induction false} ExpectedLength(s: seq<Entry>)
    ensures |Expected(s)| == |s| + UserCount(s)
  {
    if s != [] {
      ExpectedLength(s[1..]);
    }
  }

  lemma {:induction false} TypedTextsAppend(a: seq<Line>, b: seq<Line>)
    ensures TypedTexts(a + b) == TypedTexts(a) + TypedTexts(b)
  {
    if a == [] {
      assert a + b == b;
    } else {
      assert (a + b)[1..] == a[1..] + b;
      TypedTextsAppend(a[1..], b);
    }
  }

  /** The only non-system lines of a transcript are the typed commands, in
      script order: responses and status lines are all system lines. */
  lemma {:induction false} ExpectedTypedLines(s: seq<Entry>)
    ensures TypedTexts(Expected(s)) == UserCommands(s)
  {
    if s != [] {
      TypedTextsAppend(Lines(s[0]), Expected(s[1..]));
      ExpectedTypedLines(s[1..]);
      if !s[0].isSystem {
        var l := Lines(s[0]);
        assert l[1..] == [Line(ResponseText(s[0]), true)];
        assert TypedTexts(l) == [s[0].command];
      }
    }
  }

  /** Line `2 * k` of the transcript of an all-user script is the k-th command,
      and line `2 * k + 1` is its response. */
  lemma {:induction false} ExpectedUserPairs(s: seq<Entry>, k: nat)
    requires forall i :: 0 <= i < |s| ==> !s[i].isSystem
    requires k < |s|
    ensures |Expected(s)| == 2 * |s|
    ensures Expected(s)[2 * k] == Line(s[k].command, false)
    ensures Expected(s)[2 * k + 1] == Line(ResponseText(s[k]), true)
  {
    var head, tail := Lines(s[0]), Expected(s[1..]);
    assert Expected(s) == head + tail;
    assert head == [Line(s[0].command, false), Line(ResponseText(s[0]), true)];
    if |s| == 1 {
      assert s[1..] == [];
    } else {
      ExpectedUserPairs(s[1..], if k == 0 then 0 else k - 1);
      if k > 0 {
        assert s[1..][k - 1] == s[k];
        assert Expected(s)[2 * k] == tail[2 * (k - 1)];
        assert Expected(s)[2 * k + 1] == tail[2 * (k - 1) + 1];
      }
    }
  }

  /** The worked example: a status line followed by a typed command with its own response. */
  lemma ExpectedExample()
    ensures Expected([
      Entry("A", 100, true, false, None, None),
      Entry("hi", 50, false, false, Some("ok"), None)])
      == [Line("A", true), Line("hi", false), Line("ok", true)]
  {
  }

  /** The script the page runs. */
  function LaunchCommands(): seq<Entry>
  {
    [
      Entry("sudo initialize-fest-environment", 2000, false, false, None, None),
      Entry("npm install --save fest-dependencies", 2000, false, false, None, None),
      Entry("Loading event modules... [████████░░] 80%", 1000, true, false, None, None),
      Entry("Loading event modules... [██████████] 100%", 800, true, false, None, None),
      Entry("Configuring stage lights... [██████░░░░] 60%", 1000, true, false, None, None),
      Entry("Configuring stage lights... [██████████] 100%", 800, true, false, None, None),
      Entry("Setting up sound system... [███░░░░░░░] 30%", 1000, true, false, None, None),
      Entry("Setting up sound system... [███████░░░] 70%", 800, true, false, None, None),
      Entry("Setting up sound system... [██████████] 100%", 800, true, false, None, None),
      Entry("Preparing confetti launchers... [█████░░░░░] 50%", 1000, true, false, None, None),
      Entry("Preparing confetti launchers... [██████████] 100%", 800, true, false, None, None),
      Entry("chmod +x launch.sh && ./launch.sh", 1500, false, false, None, None),
      Entry("> Initializing security protocols...", 800, true, false, None, None),
      Entry("> Establishing network connections...", 800, true, false, None, None),
      Entry("> Creating access tokens...", 800, true, false, None, None),
      Entry("npm run launch-event --force --no-cache", 1500, false, false, None, None),
      Entry("Launching Hostel Fest 2025...", 1000, true, false, None, None),
      Entry("[INFO] Launch sequence initiated", 800, true, false, None, None),
      Entry("[INFO] Server nodes connected", 800, true, false, None, None),
      Entry("[SUCCESS] LAUNCH SUCCESSFUL! Redirecting...", 1500, true, true, None, None)
    ]
  }

  /** In the page's own script exactly one entry is final, it is the last one
      and a system entry, so a run fires the celebration exactly once. */
  lemma LaunchCommandsFinal()
    ensures |LaunchCommands()| == 20
    ensures LaunchCommands()[19].isSystem && LaunchCommands()[19].final
    ensures forall i :: 0 <= i < 19 ==> !LaunchCommands()[i].final
    ensures Celebrations(LaunchCommands()) == 1
  {
    CelebrationsFinalLast(LaunchCommands());
  }
}
