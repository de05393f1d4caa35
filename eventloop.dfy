/** The browser's timer queue, reduced to the order in which it runs the page's
    callbacks: each callback runs only once the one before it has committed its
    effect, so a run is a sequence of steps. */
module EventLoop {
  import opened LaunchScript
  import opened Page

  /** Orders the callbacks that can follow one another for the same entry. */
  function Rank(p: Pending): nat
  {
    match p
    case NextEntry => 2
    case NextChar => 1
    case _ => 0
  }

  /** A page load: the button is pressed `clicks` times, then the timers run
      until nothing is scheduled. With no click nothing happens; with one or
      more the history is the transcript of the whole script and the
      celebration fires once per final system entry, however many clicks. */
  method RunLaunch(script: seq<Entry>, clicks: nat) returns (transcript: seq<Line>, celebrations: nat, complete: bool)
    ensures clicks == 0 ==> transcript == [] && celebrations == 0 && !complete
    ensures clicks > 0 ==> transcript == Expected(script) && celebrations == Celebrations(script) && complete
  {
    var home := new Home(script);
    var i := 0;
    while i < clicks
      invariant 0 <= i <= clicks
      invariant home.Valid() && home.script == script
      invariant home.launching <==> i > 0
      invariant home.history == [] && home.celebrations == 0 && !home.complete
      invariant i > 0 ==> home.pending == NextEntry && home.cursor == 0
    {
      home.Activate();
      i := i + 1;
    }
    if home.launching {
      while !home.complete
        invariant home.Valid() && home.script == script && home.launching
        decreases |script| - home.cursor, Rank(home.pending), home.TypingLeft()
      {
        match home.pending
        case NextEntry => home.TypeNextCommand();
        case NextChar => home.TypeCharacter();
        case Response => home.AddResponse();
      }
      assert script[..home.cursor] == script;
    }
    transcript, celebrations, complete := home.history, home.celebrations, home.complete;
  }

  /** The page as shipped, running its own script: one or more clicks give
      the full transcript and exactly one celebration and redirect. */
  method LaunchPage(clicks: nat) returns (transcript: seq<Line>, celebrations: nat, complete: bool)
    ensures clicks == 0 ==> transcript == [] && celebrations == 0 && !complete
    ensures clicks > 0 ==> transcript == Expected(LaunchCommands()) && celebrations == 1 && complete
  {
    transcript, celebrations, complete := RunLaunch(LaunchCommands(), clicks);
    LaunchCommandsFinal();
  }

  /** The blink interval on a freshly loaded page: after `ticks` ticks the
      cursor is visible exactly when `ticks` is even. */
  method BlinkFor(script: seq<Entry>, ticks: nat) returns (visible: bool)
    ensures visible <==> ticks % 2 == 0
  {
    var home := new Home(script);
    var i := 0;
    while i < ticks
      invariant 0 <= i <= ticks
      invariant home.showCursor <==> i % 2 == 0
    {
      home.Blink();
      i := i + 1;
    }
    visible := home.showCursor;
  }
}
