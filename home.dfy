/** The state of the terminal page and the timer callbacks of its launch effect. */
module Page {
  import opened LaunchScript

  /** Which callback of the launch effect is scheduled to run next. */
  datatype Pending =
    | Idle        // not launched yet: nothing is scheduled
    | NextEntry   // `typeNextCommand` will process the entry at the cursor
    | NextChar    // `typeCharacter` will reveal the next character, or finish the command
    | Response    // the response line of the command at the cursor will be added
    | Finished    // the cursor reached the end and nothing more is scheduled

  /** The page component: its React state, the closure variables of the launch
      effect, and the callback its timers will run next. */
  class Home {
    const script: seq<Entry>

    // React state of the page
    var launching: bool
    var history: seq<Line>
    var currentLine: string
    var showCursor: bool
    var complete: bool

    // closure variables of the launch effect
    var cursor: nat
    var typed: string
    var charIndex: nat

    // the armed timer, and how many times the celebration and redirect were scheduled
    var pending: Pending
    var celebrations: nat

    /** The invariant of the launch sequence: the history is the transcript of
        the entries before the cursor, plus the typed command of the entry in
        progress once it is finished; the partial line is the prefix typed so far. */
    ghost predicate Valid()
      reads this
    {
      && cursor <= |script|
      && (pending == Idle <==> !launching)
      && (pending == Idle ==> cursor == 0)
      && (complete <==> pending == Finished)
      && (pending == Finished ==> cursor == |script|)
      && (pending == NextChar || pending == Response ==> cursor < |script| && !script[cursor].isSystem)
      && (pending == NextChar ==>
            charIndex <= |script[cursor].command|
            && typed == script[cursor].command[..charIndex]
            && currentLine == typed)
      && (pending != NextChar ==> currentLine == "")
      && history == Expected(script[..cursor])
                    + (if pending == Response then [Line(script[cursor].command, false)] else [])
      && celebrations == Celebrations(script[..cursor])
    }

    /** Characters of the command in progress that are still to be revealed. */
    ghost function TypingLeft(): nat
      reads this
      requires Valid()
    {
      if pending == NextChar then |script[cursor].command| - charIndex else 0
    }

    /** The page as first rendered: not launching, empty history, cursor shown. */
    constructor (script: seq<Entry>)
      ensures Valid()
      ensures this.script == script
      ensures !launching && pending == Idle && !complete
      ensures history == [] && currentLine == "" && showCursor
      ensures celebrations == 0
    {
      this.script := script;
      launching, history, currentLine, showCursor, complete := false, [], "", true, false;
      cursor, typed, charIndex := 0, "", 0;
      pending, celebrations := Idle, 0;
    }

    /** The launch button. Setting `launching` starts the effect only when it
        changes, so a second activation starts no second run. */
    method Activate()
      requires Valid()
      modifies this
      ensures Valid()
      ensures launching
      ensures old(launching) ==> unchanged(this)
      ensures !old(launching) ==>
        && pending == NextEntry && cursor == 0 && history == [] && celebrations == 0
        && currentLine == old(currentLine) && showCursor == old(showCursor) && !complete
    {
      if !launching {
        launching := true;
        cursor := 0;
        pending := NextEntry;
      }
    }

    /** `typeNextCommand`: at the end of the script mark the launch complete;
        on a system entry append its line, schedule the celebration if it is
        final, and move on; on a user entry start typing it (the first
        character is revealed at once). */
    method TypeNextCommand()
      requires Valid() && pending == NextEntry
      modifies this
      ensures Valid()
      ensures launching && showCursor == old(showCursor)
      ensures complete <==> old(cursor) == |script|
      ensures old(cursor) == |script| ==>
        && pending == Finished && cursor == old(cursor)
        && history == old(history) && currentLine == old(currentLine)
        && celebrations == old(celebrations)
      ensures old(cursor) < |script| && script[old(cursor)].isSystem ==>
        && history == old(history) + [Line(SystemText(script[old(cursor)]), true)]
        && cursor == old(cursor) + 1 && pending == NextEntry
        && currentLine == old(currentLine)
        && celebrations == old(celebrations) + (if script[old(cursor)].final then 1 else 0)
      ensures old(cursor) < |script| && !script[old(cursor)].isSystem ==>
        && cursor == old(cursor) && celebrations == old(celebrations)
        && (script[cursor].command == "" ==>
              pending == Response && currentLine == ""
              && history == old(history) + [Line(script[cursor].command, false)])
        && (script[cursor].command != "" ==>
              pending == NextChar && charIndex == 1
              && currentLine == script[cursor].command[..1] && history == old(history))
    {
      if cursor < |script| {
        var entry := script[cursor];
        if entry.isSystem {
          ExpectedSnoc(script[..cursor], entry);
          CelebrationsSnoc(script[..cursor], entry);
          assert script[..cursor + 1] == script[..cursor] + [entry];
          history := history + [Line(SystemText(entry), true)];
          if entry.final {
            celebrations := celebrations + 1;
          }
          cursor := cursor + 1;
        } else {
          typed, charIndex := "", 0;
          pending := NextChar;
          TypeCharacter();
        }
      } else {
        complete := true;
        pending := Finished;
      }
    }

    /** `typeCharacter`: reveal one more character of the command in
        progress, or, once all are shown, clear the partial line and append the
        command to the history. */
    method TypeCharacter()
      requires Valid() && pending == NextChar
      modifies this
      ensures Valid()
      ensures cursor == old(cursor) && celebrations == old(celebrations)
      ensures launching && !complete && showCursor == old(showCursor)
      ensures old(charIndex) < |script[cursor].command| ==>
        && charIndex == old(charIndex) + 1 && pending == NextChar
        && currentLine == old(currentLine) + [script[cursor].command[old(charIndex)]]
        && currentLine == script[cursor].command[..charIndex]
        && history == old(history)
      ensures old(charIndex) == |script[cursor].command| ==>
        && pending == Response && currentLine == ""
        && history == old(history) + [Line(script[cursor].command, false)]
    {
      var full := script[cursor].command;
      if charIndex < |full| {
        assert full[..charIndex + 1] == full[..charIndex] + [full[charIndex]];
        typed := typed + [full[charIndex]];
        currentLine := typed;
        charIndex := charIndex + 1;
      } else {
        currentLine := "";
        history := history + [Line(full, false)];
        pending := Response;
      }
    }

    /** The response timer: append the response line of the command at the
        cursor and move on to the next entry. */
    method AddResponse()
      requires Valid() && pending == Response
      modifies this
      ensures Valid()
      ensures history == old(history) + [Line(ResponseText(script[old(cursor)]), true)]
      ensures cursor == old(cursor) + 1 && pending == NextEntry
      ensures currentLine == old(currentLine) && celebrations == old(celebrations)
      ensures launching && !complete && showCursor == old(showCursor)
    {
      var entry := script[cursor];
      ExpectedSnoc(script[..cursor], entry);
      CelebrationsSnoc(script[..cursor], entry);
      assert script[..cursor + 1] == script[..cursor] + [entry];
      history := history + [Line(ResponseText(entry), true)];
      cursor := cursor + 1;
      pending := NextEntry;
    }

    /** The blink interval: flip the cursor's visibility and touch nothing else. */
    method Blink()
      modifies this`showCursor
      ensures showCursor == !old(showCursor)
      ensures old(Valid()) ==> Valid()
    {
      showCursor := !showCursor;
    }
  }
}
