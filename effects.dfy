/** The effects of the script's operations, as functions from the state of
    the run before a call to its result and the state after it. The methods
    of Autoclicker.Desktop perform the same steps on an object and are proved
    to agree with these functions. */
module Effects {
  import opened Outcomes
  import opened Windows
  import opened Screen

  /** The side effects the script asks of the window manager and of mouse
      and keyboard synthesis. */
  datatype Action =
    | Restore(window: Window)
    | Activate(window: Window)
    | MoveTo(target: Point)
    | Click(target: Point)
    | Scroll(clicks: int)
    | Hotkey(keys: seq<string>)

  /** What a run has done so far: the number of matcher polls made, the
      clock in milliseconds, and the actions issued, oldest first. */
  datatype World = World(polls: nat, clock: int, log: seq<Action>)

  /** The result of one call together with the state after it. */
  datatype Effect<T> = Effect(result: Outcome<T>, after: World)

  /** Nothing is taken back: actions are only appended, and neither the poll
      counter nor the clock runs backwards. */
  predicate Extends(w: World, w': World)
  {
    w.log <= w'.log && w.polls <= w'.polls && w.clock <= w'.clock
  }

  /** The actions issued between two states of a run. */
  function Added(w: World, w': World): (a: seq<Action>)
    requires w.log <= w'.log
  {
    w'.log[|w.log|..]
  }

  function Sleep(w: World, ms: nat): (w': World)
  {
    w.(clock := w.clock + ms)
  }

  function Scrolls(log: seq<Action>): (n: nat)
  {
    if log == [] then 0 else (if log[0].Scroll? then 1 else 0) + Scrolls(log[1..])
  }

  function Clicks(log: seq<Action>): (n: nat)
  {
    if log == [] then 0 else (if log[0].Click? then 1 else 0) + Clicks(log[1..])
  }

  /** The constants an iteration of the process loop works with: the app
      window's partial title, the app's download button image, its scroll
      amount and timeout in seconds, and the browser page's download button
      image and its timeout in seconds. */
  datatype Settings = Settings(
    appTitle: string, appButton: string, appScroll: int, appTimeout: int,
    browserButton: string, browserTimeout: int)

  /** The values the script uses. */
  const Script := Settings("Nexus Mods App", "nexus_app_download.png", 900, 1, "nexus_page_download.png", 10)

  /** The hotkey that closes the browser tab. */
  const CloseTab := ["ctrl", "w"]

  /** time.sleep(1), in milliseconds. */
  const PauseMs := 1000

  /** activate_window_by_partial_title: on a found window, restore it,
      activate it and move the mouse to its centre; on WindowNotFound, do
      nothing. */
  function ActivateWindow(windows: seq<Window>, query: string, w: World): (e: Effect<()>)
    ensures Extends(w, e.after) && e.after.polls == w.polls && e.after.clock == w.clock
  {
    match FindWindow(windows, query)
    case Raised(f) => Effect(Raised(f), w)
    case Ok(win) => Effect(Ok(()), w.(log := w.log + [Restore(win), Activate(win), MoveTo(Centre(win))]))
  }

  predicate Within(p: Point, win: Window)
  {
    win.left <= p.x <= win.left + win.width && win.top <= p.y <= win.top + win.height
  }

  /** Activation fails, without any action, exactly when no window matches;
      otherwise it restores and activates the first matching window and moves
      the mouse to a point inside it. */
  lemma ActivateWindowTargetsFirstMatch(windows: seq<Window>, query: string, w: World)
    ensures var e := ActivateWindow(windows, query, w);
      && (e.result.Raised? <==> forall j :: 0 <= j < |windows| ==> !TitleMatches(windows[j], query))
      && (e.result.Raised? ==> e == Effect(Raised(WindowNotFound), w))
      && (e.result.Ok? ==>
            exists i :: FirstMatchAt(windows, query, i) &&
              Added(w, e.after) == [Restore(windows[i]), Activate(windows[i]), MoveTo(Centre(windows[i]))] &&
              (0 <= windows[i].width && 0 <= windows[i].height ==> Within(Centre(windows[i]), windows[i])))
  {
    FindWindowFailsIffNoMatch(windows, query);
    FindWindowResultIsFirstMatch(windows, query);
    var e := ActivateWindow(windows, query, w);
    if e.result.Ok? {
      var i :| FirstMatchAt(windows, query, i) && windows[i] == FindWindow(windows, query).value;
      assert Added(w, e.after) == [Restore(windows[i]), Activate(windows[i]), MoveTo(Centre(windows[i]))];
    }
  }

  /** find_on_screen: a search from the run's next poll, started at the
      current clock, with the timeout given in seconds. */
  function FindOnScreen(m: Matcher, image: string, timeout: int, w: World): (e: Effect<Point>)
    ensures Extends(w, e.after) && e.after.log == w.log
    ensures e.result == Raised(ButtonNotFound) ==> e.after.clock - w.clock >= timeout * 1000
    ensures e.result.Ok? ==> e.after.clock - w.clock < timeout * 1000
    ensures timeout <= 0 ==> e == Effect(Raised(ButtonNotFound), w)
    ensures e.result.Raised? ==> e.result.fault == ButtonNotFound || e.result.fault == Foreign
  {
    var s := Search(m, image, w.polls, timeout * 1000, w.clock, w.clock);
    SearchResultMeaning(m, image, w.polls, timeout * 1000, w.clock, w.clock);
    Effect(s.result, World(s.polls, s.clock, w.log))
  }

  /** click_button_on_screen: one click at the location the search returned;
      when the search raises, no click and the same exception. */
  function ClickButton(m: Matcher, image: string, timeout: int, w: World): (e: Effect<()>)
    ensures Extends(w, e.after)
    ensures var found := FindOnScreen(m, image, timeout, w);
      && e.after.polls == found.after.polls && e.after.clock == found.after.clock
      && (e.result.Ok? <==> found.result.Ok?)
      && (found.result.Raised? ==> e.result == Raised(found.result.fault) && Added(w, e.after) == [])
      && (found.result.Ok? ==> Added(w, e.after) == [Click(found.result.value)])
  {
    var found := FindOnScreen(m, image, timeout, w);
    match found.result
    case Raised(f) => Effect(Raised(f), found.after)
    case Ok(p) => Effect(Ok(()), found.after.(log := found.after.log + [Click(p)]))
  }

  /** click_button_with_fallback: a first attempt; only on ButtonNotFound a
      scroll down by scroll_amount and a second attempt whose outcome is the
      call's. */
  function ClickWithFallback(m: Matcher, image: string, scrollAmount: int, timeout: int, w: World): (e: Effect<()>)
    ensures Extends(w, e.after)
  {
    var first := ClickButton(m, image, timeout, w);
    if first.result == Raised(ButtonNotFound) then
      ClickButton(m, image, timeout, first.after.(log := first.after.log + [Scroll(-scrollAmount)]))
    else first
  }

  /** A successful first attempt means no scroll; a first ButtonNotFound means
      exactly one scroll, by -scroll_amount, issued before anything else of
      the second attempt, and then the call is that one second attempt, whose
      exception propagates; no other failure scrolls; there is never a second
      scroll, never more than one click, and a click exactly when the call
      succeeds. A ButtonNotFound from the call comes only after two full
      timeouts, and nothing but ButtonNotFound or a matcher exception is
      raised. */
  lemma FallbackScrollsAtMostOnce(m: Matcher, image: string, scrollAmount: int, timeout: int, w: World)
    ensures var e := ClickWithFallback(m, image, scrollAmount, timeout, w);
      var first := ClickButton(m, image, timeout, w);
      var added := Added(w, e.after);
      && |added| <= 2 && Scrolls(added) <= 1 && Clicks(added) <= 1
      && (first.result.Ok? ==> e == first && Scrolls(added) == 0)
      && (Scrolls(added) == 1 <==> first.result == Raised(ButtonNotFound))
      && (Scrolls(added) == 1 ==> added[0] == Scroll(-scrollAmount))
      && (first.result.Raised? && first.result.fault != ButtonNotFound ==> e == first)
      && (first.result == Raised(ButtonNotFound) ==>
            e == ClickButton(m, image, timeout, first.after.(log := first.after.log + [Scroll(-scrollAmount)])))
      && (e.result.Ok? <==> Clicks(added) == 1)
      && (e.result.Raised? ==> e.result.fault == ButtonNotFound || e.result.fault == Foreign)
      && (e.result == Raised(ButtonNotFound) ==> 2 * (timeout * 1000) <= e.after.clock - w.clock)
  {
    var e := ClickWithFallback(m, image, scrollAmount, timeout, w);
    var first := ClickButton(m, image, timeout, w);
    var firstAdded := Added(w, first.after);
    if first.result.Ok? {
      var p := FindOnScreen(m, image, timeout, w).result.value;
      assert firstAdded == [Click(p)];
      assert Scrolls(firstAdded) == 0 && Clicks(firstAdded) == 1;
    } else if first.result == Raised(ButtonNotFound) {
      var scrolled := first.after.(log := first.after.log + [Scroll(-scrollAmount)]);
      var second := ClickButton(m, image, timeout, scrolled);
      assert firstAdded == [];
      var added := Added(w, e.after);
      assert added == [Scroll(-scrollAmount)] + Added(scrolled, e.after);
      assert Scrolls(added) == 1 + Scrolls(Added(scrolled, e.after)) && Clicks(added) == Clicks(Added(scrolled, e.after)) by {
        assert added[1..] == Added(scrolled, e.after);
      }
      if second.result.Ok? {
        var p := FindOnScreen(m, image, timeout, scrolled).result.value;
        assert Added(scrolled, e.after) == [Click(p)];
        assert Scrolls([Click(p)]) == 0 && Clicks([Click(p)]) == 1;
      }
    }
  }

  /** What the loop head observes before one iteration, and the window
      manager's state during that iteration: the stop flag, the open windows
      in enumeration order, and the active window (None when there is none). */
  datatype Round = Round(stopSet: bool, windows: seq<Window>, active: Option<Window>)

  /** Extends is transitive. */
  lemma ExtendsTransitive(w: World, w': World, w'': World)
    requires Extends(w, w') && Extends(w', w'')
    ensures Extends(w, w'') && Added(w, w'') == Added(w, w') + Added(w', w'')
  {
  }

  /** The body of one iteration of run_process_loop, up to and including the
      ctrl+w that closes the browser tab: activate the app window, click its
      download button with the scroll fallback, then the browser steps. Each
      failure skips the rest. */
  function Iteration(cfg: Settings, m: Matcher, browser: string, round: Round, w: World): (e: Effect<()>)
    ensures Extends(w, e.after)
  {
    var app := ActivateWindow(round.windows, cfg.appTitle, w);
    if app.result.Raised? then app
    else
      var fallback := ClickWithFallback(m, cfg.appButton, cfg.appScroll, cfg.appTimeout, app.after);
      if fallback.result.Raised? then fallback
      else
        ExtendsTransitive(w, app.after, fallback.after);
        var rest := BrowserSteps(cfg, m, browser, round, fallback.after);
        ExtendsTransitive(w, fallback.after, rest.after);
        rest
  }

  /** The second half of an iteration: pause, look up the browser, check
      that the active window is the browser (no active window passes), click
      the page's download button and close the tab with ctrl+w. */
  function BrowserSteps(cfg: Settings, m: Matcher, browser: string, round: Round, w: World): (e: Effect<()>)
    ensures Extends(w, e.after)
  {
    var rested := Sleep(w, PauseMs);
    match FindWindow(round.windows, browser)
    case Raised(f) => Effect(Raised(f), rested)
    case Ok(b) =>
      if round.active.Some? && round.active.value.title != b.title then
        Effect(Raised(WindowNotActive), rested)
      else
        var page := ClickButton(m, cfg.browserButton, cfg.browserTimeout, rested);
        if page.result.Raised? then page
        else Effect(Ok(()), page.after.(log := page.after.log + [Hotkey(CloseTab)]))
  }

  /** In the browser steps, ctrl+w follows a successful page click and
      nothing else; a failure issues nothing but what a failed search does
      (nothing); WindowNotActive is raised exactly when the browser is found
      and there is an active window whose title differs from the browser's,
      and then neither the page click nor ctrl+w is issued. */
  lemma BrowserStepsOrder(cfg: Settings, m: Matcher, browser: string, round: Round, w: World)
    ensures var e := BrowserSteps(cfg, m, browser, round, w);
      var added := Added(w, e.after);
      && (e.result.Ok? ==> |added| == 2 && added[0].Click? && added[1] == Hotkey(CloseTab))
      && (e.result.Raised? ==> added == [])
      && (e.result == Raised(WindowNotActive) <==>
            round.active.Some? && FindWindow(round.windows, browser).Ok? &&
            round.active.value.title != FindWindow(round.windows, browser).value.title)
  {
    var e := BrowserSteps(cfg, m, browser, round, w);
    var rested := Sleep(w, PauseMs);
    FindWindowFailsIffNoMatch(round.windows, browser);
    match FindWindow(round.windows, browser)
    case Raised(f) =>
      assert e == Effect(Raised(WindowNotFound), rested);
    case Ok(b) =>
      if !(round.active.Some? && round.active.value.title != b.title) {
        var page := ClickButton(m, cfg.browserButton, cfg.browserTimeout, rested);
        if page.result.Ok? {
          assert Added(w, e.after) == Added(rested, page.after) + [Hotkey(CloseTab)];
        }
      }
  }

  /** The fallback click issues nothing but scrolls and clicks, two actions
      at most and one scroll at most. */
  lemma FallbackIssuesScrollsAndClicks(m: Matcher, image: string, scrollAmount: int, timeout: int, w: World)
    ensures var added := Added(w, ClickWithFallback(m, image, scrollAmount, timeout, w).after);
      |added| <= 2 && Scrolls(added) <= 1 &&
      forall i :: 0 <= i < |added| ==> added[i].Scroll? || added[i].Click?
  {
    FallbackScrollsAtMostOnce(m, image, scrollAmount, timeout, w);
    var added := Added(w, ClickWithFallback(m, image, scrollAmount, timeout, w).after);
    if |added| == 2 {
      assert Scrolls(added) == 1;
      assert Clicks(added) == 1;
      assert added == [added[0], added[1]];
    }
  }

  /** ctrl+w is sent exactly when the iteration succeeds. */
  lemma IterationClosesTabOnlyOnSuccess(cfg: Settings, m: Matcher, browser: string, round: Round, w: World)
    ensures var e := Iteration(cfg, m, browser, round, w);
      Hotkey(CloseTab) in Added(w, e.after) <==> e.result.Ok?
  {
    var e := Iteration(cfg, m, browser, round, w);
    var app := ActivateWindow(round.windows, cfg.appTitle, w);
    if app.result.Raised? {
      assert Added(w, e.after) == [];
      return;
    }
    var appAdded := Added(w, app.after);
    var win := FindWindow(round.windows, cfg.appTitle).value;
    assert appAdded == [Restore(win), Activate(win), MoveTo(Centre(win))];
    var fallback := ClickWithFallback(m, cfg.appButton, cfg.appScroll, cfg.appTimeout, app.after);
    FallbackIssuesScrollsAndClicks(m, cfg.appButton, cfg.appScroll, cfg.appTimeout, app.after);
    var fbAdded := Added(app.after, fallback.after);
    ExtendsTransitive(w, app.after, fallback.after);
    assert Hotkey(CloseTab) !in appAdded + fbAdded;
    if fallback.result.Ok? {
      var rest := BrowserSteps(cfg, m, browser, round, fallback.after);
      BrowserStepsOrder(cfg, m, browser, round, fallback.after);
      ExtendsTransitive(w, fallback.after, rest.after);
      assert Added(w, e.after) == appAdded + fbAdded + Added(fallback.after, rest.after);
    }
  }

  /** A successful fallback click issues the click alone, or the scroll by
      -scroll_amount followed by the click. */
  lemma FallbackSuccessShape(m: Matcher, image: string, scrollAmount: int, timeout: int, w: World)
    ensures var e := ClickWithFallback(m, image, scrollAmount, timeout, w);
      var added := Added(w, e.after);
      e.result.Ok? ==>
        (|added| == 1 && added[0].Click?) ||
        (|added| == 2 && added[0] == Scroll(-scrollAmount) && added[1].Click?)
  {
    var e := ClickWithFallback(m, image, scrollAmount, timeout, w);
    var first := ClickButton(m, image, timeout, w);
    if first.result.Ok? {
      var p := FindOnScreen(m, image, timeout, w).result.value;
      assert Added(w, e.after) == [Click(p)];
    } else if first.result == Raised(ButtonNotFound) && e.result.Ok? {
      var scrolled := first.after.(log := first.after.log + [Scroll(-scrollAmount)]);
      var p := FindOnScreen(m, image, timeout, scrolled).result.value;
      assert Added(w, e.after) == [Scroll(-scrollAmount), Click(p)];
    }
  }

  /** The actions of a successful iteration, put together from those of its
      three parts: activation, the fallback click and the browser steps. */
  lemma {:induction false} SuccessLogShape(win: Window, amount: int, fb: seq<Action>, rest: seq<Action>)
    requires (|fb| == 1 && fb[0].Click?) || (|fb| == 2 && fb[0] == Scroll(-amount) && fb[1].Click?)
    requires |rest| == 2 && rest[0].Click? && rest[1] == Hotkey(CloseTab)
    ensures var added := [Restore(win), Activate(win), MoveTo(Centre(win))] + fb + rest;
      && 6 <= |added| <= 7
      && added[0] == Restore(win) && added[1] == Activate(win) && added[2] == MoveTo(Centre(win))
      && (|added| == 7 ==> added[3] == Scroll(-amount))
      && added[|added| - 3].Click? && added[|added| - 2].Click? && added[|added| - 1] == Hotkey(CloseTab)
      && Scrolls(added) <= 1
  {
    var prefix := [Restore(win), Activate(win), MoveTo(Centre(win))];
    NoScrolls(prefix);
    NoScrolls(rest);
    ScrollsAppend(prefix, fb);
    ScrollsAppend(prefix + fb, rest);
    assert Scrolls(fb) == (if fb[0].Scroll? then 1 else 0) + Scrolls(fb[1..]);
    if |fb| == 2 {
      NoScrolls(fb[1..]);
    }
  }

  /** A successful iteration restores, activates and points at the first
      window matching the app title, clicks the app's button (after at most
      one scroll, by -scroll_amount), clicks the page's button and ends with
      ctrl+w. */
  lemma IterationSuccessShape(cfg: Settings, m: Matcher, browser: string, round: Round, w: World)
    ensures var e := Iteration(cfg, m, browser, round, w);
      var added := Added(w, e.after);
      e.result.Ok? ==>
        var win := FindWindow(round.windows, cfg.appTitle).value;
        && 6 <= |added| <= 7
        && added[0] == Restore(win) && added[1] == Activate(win) && added[2] == MoveTo(Centre(win))
        && (|added| == 7 ==> added[3] == Scroll(-cfg.appScroll))
        && added[|added| - 3].Click? && added[|added| - 2].Click? && added[|added| - 1] == Hotkey(CloseTab)
        && Scrolls(added) <= 1
  {
    var e := Iteration(cfg, m, browser, round, w);
    if e.result.Ok? {
      var app := ActivateWindow(round.windows, cfg.appTitle, w);
      var win := FindWindow(round.windows, cfg.appTitle).value;
      assert Added(w, app.after) == [Restore(win), Activate(win), MoveTo(Centre(win))];
      var fallback := ClickWithFallback(m, cfg.appButton, cfg.appScroll, cfg.appTimeout, app.after);
      FallbackSuccessShape(m, cfg.appButton, cfg.appScroll, cfg.appTimeout, app.after);
      ExtendsTransitive(w, app.after, fallback.after);
      var rest := BrowserSteps(cfg, m, browser, round, fallback.after);
      BrowserStepsOrder(cfg, m, browser, round, fallback.after);
      ExtendsTransitive(w, fallback.after, rest.after);
      SuccessLogShape(win, cfg.appScroll, Added(app.after, fallback.after), Added(fallback.after, rest.after));
    }
  }

  /** A missing app window means nothing at all is done, and WindowNotActive
      is raised only when there is an active window whose title differs from
      the browser's. */
  lemma IterationFailsEarly(cfg: Settings, m: Matcher, browser: string, round: Round, w: World)
    ensures var e := Iteration(cfg, m, browser, round, w);
      && (FindWindow(round.windows, cfg.appTitle).Raised? ==> e == Effect(Raised(WindowNotFound), w))
      && (e.result == Raised(WindowNotActive) ==>
            round.active.Some? && FindWindow(round.windows, browser).Ok? &&
            round.active.value.title != FindWindow(round.windows, browser).value.title)
  {
    FindWindowFailsIffNoMatch(round.windows, cfg.appTitle);
    var app := ActivateWindow(round.windows, cfg.appTitle, w);
    if app.result.Ok? {
      var fallback := ClickWithFallback(m, cfg.appButton, cfg.appScroll, cfg.appTimeout, app.after);
      FallbackScrollsAtMostOnce(m, cfg.appButton, cfg.appScroll, cfg.appTimeout, app.after);
      if fallback.result.Ok? {
        BrowserStepsOrder(cfg, m, browser, round, fallback.after);
      } else {
        assert fallback.result.fault != WindowNotActive by {
          var first := ClickButton(m, cfg.appButton, cfg.appTimeout, app.after);
          if first.result == Raised(ButtonNotFound) {
            var scrolled := first.after.(log := first.after.log + [Scroll(-cfg.appScroll)]);
            assert fallback == ClickButton(m, cfg.appButton, cfg.appTimeout, scrolled);
          }
        }
      }
    }
  }

  /** A failed step ends the iteration with that step's effect: a failed
      activation, or a failed fallback click after a successful activation,
      is the whole iteration, with no pause, browser lookup or page click
      after it. A failed iteration never sends ctrl+w; it issues at most the
      app click, and none at all when the failure is the app click's. */
  lemma IterationFailureSkipsRest(cfg: Settings, m: Matcher, browser: string, round: Round, w: World)
    ensures var e := Iteration(cfg, m, browser, round, w);
      var app := ActivateWindow(round.windows, cfg.appTitle, w);
      var fb := ClickWithFallback(m, cfg.appButton, cfg.appScroll, cfg.appTimeout, app.after);
      var added := Added(w, e.after);
      && (app.result.Raised? ==> e == app && added == [])
      && (app.result.Ok? && fb.result.Raised? ==> e == fb && Clicks(added) == 0)
      && (e.result.Raised? ==> Clicks(added) <= 1 && Hotkey(CloseTab) !in added)
  {
    var e := Iteration(cfg, m, browser, round, w);
    var app := ActivateWindow(round.windows, cfg.appTitle, w);
    if app.result.Ok? {
      var win := FindWindow(round.windows, cfg.appTitle).value;
      var appAdded := Added(w, app.after);
      assert appAdded == [Restore(win), Activate(win), MoveTo(Centre(win))];
      NoClicks(appAdded);
      var fb := ClickWithFallback(m, cfg.appButton, cfg.appScroll, cfg.appTimeout, app.after);
      FallbackScrollsAtMostOnce(m, cfg.appButton, cfg.appScroll, cfg.appTimeout, app.after);
      FallbackIssuesScrollsAndClicks(m, cfg.appButton, cfg.appScroll, cfg.appTimeout, app.after);
      var fbAdded := Added(app.after, fb.after);
      ExtendsTransitive(w, app.after, fb.after);
      ClicksAppend(appAdded, fbAdded);
      assert Hotkey(CloseTab) !in appAdded + fbAdded;
      if fb.result.Ok? && e.result.Raised? {
        var rest := BrowserSteps(cfg, m, browser, round, fb.after);
        BrowserStepsOrder(cfg, m, browser, round, fb.after);
        ExtendsTransitive(w, fb.after, rest.after);
        assert Added(w, e.after) == appAdded + fbAdded + [];
      }
    }
  }

  lemma {:induction false} NoClicks(log: seq<Action>)
    requires forall i :: 0 <= i < |log| ==> !log[i].Click?
    ensures Clicks(log) == 0
    decreases |log|
  {
    if log != [] {
      assert forall i :: 0 <= i < |log| - 1 ==> log[1..][i] == log[i + 1];
      NoClicks(log[1..]);
    }
  }

  lemma {:induction false} ClicksAppend(a: seq<Action>, b: seq<Action>)
    ensures Clicks(a + b) == Clicks(a) + Clicks(b)
    decreases |a|
  {
    if a == [] {
      assert a + b == b;
    } else {
      assert (a + b)[0] == a[0] && (a + b)[1..] == a[1..] + b;
      ClicksAppend(a[1..], b);
    }
  }

  lemma {:induction false} NoScrolls(log: seq<Action>)
    requires forall i :: 0 <= i < |log| ==> !log[i].Scroll?
    ensures Scrolls(log) == 0
    decreases |log|
  {
    if log != [] {
      assert forall i :: 0 <= i < |log| - 1 ==> log[1..][i] == log[i + 1];
      NoScrolls(log[1..]);
    }
  }

  lemma {:induction false} ScrollsAppend(a: seq<Action>, b: seq<Action>)
    ensures Scrolls(a + b) == Scrolls(a) + Scrolls(b)
    decreases |a|
  {
    if a == [] {
      assert a + b == b;
    } else {
      assert (a + b)[0] == a[0] && (a + b)[1..] == a[1..] + b;
      ScrollsAppend(a[1..], b);
    }
  }

  /** How run_process_loop ends: the stop flag was seen at a loop head (or
      the observations ran out), the retry limit was reached (the outer
      handler catches that exception, so the function returns normally), or
      an exception the script does not handle escaped. */
  datatype Exit = Stopped | Aborted(cause: Fault) | Escaped

  /** One started iteration: the retry counter at its loop head, the state
      the iteration body started from, and what it returned or raised. */
  datatype Step = Step(retry: int, start: World, outcome: Outcome<()>)

  datatype Run = Run(exit: Exit, trace: seq<Step>, after: World)

  /** The iteration was followed by another loop-head check. */
  predicate Continues(s: Step, limit: int)
  {
    s.outcome.Ok? || (Counted(s.outcome.fault) && s.retry + 1 < limit)
  }

  function Continue(s: Step, rest: Run): (run: Run)
  {
    rest.(trace := [s] + rest.trace)
  }

  /** The loop from one of its heads on: rounds holds the observations of
      this head and of the later ones, retry the current counter. Running
      out of observations reads as the stop flag set. A success resets the
      counter and pauses; a counted failure increments it, then either
      ends the loop at the limit or pauses; any other exception escapes. */
  function LoopFrom(cfg: Settings, m: Matcher, browser: string, limit: int, rounds: seq<Round>, retry: int, w: World): (run: Run)
    ensures |run.trace| <= |rounds|
    ensures Extends(w, run.after)
    decreases |rounds|
  {
    if rounds == [] || rounds[0].stopSet then Run(Stopped, [], w)
    else
      var it := Iteration(cfg, m, browser, rounds[0], w);
      var step := Step(retry, w, it.result);
      if it.result.Ok? then
        Continue(step, LoopFrom(cfg, m, browser, limit, rounds[1..], 0, Sleep(it.after, PauseMs)))
      else if !Counted(it.result.fault) then Run(Escaped, [step], it.after)
      else if retry + 1 >= limit then Run(Aborted(it.result.fault), [step], it.after)
      else Continue(step, LoopFrom(cfg, m, browser, limit, rounds[1..], retry + 1, Sleep(it.after, PauseMs)))
  }

  /** run_process_loop, with the counter starting at 0; the script runs it
      with the Script settings. */
  function ProcessLoop(cfg: Settings, m: Matcher, browser: string, limit: int, rounds: seq<Round>, w: World): (run: Run)
  {
    LoopFrom(cfg, m, browser, limit, rounds, 0, w)
  }

  /** The retry counter at the loop heads: the first head sees the counter the
      loop started with; after a success the next head sees 0, after a
      counted failure one more than before; every started iteration saw the
      stop flag clear; and every iteration but the last was followed by
      another loop head. */
  lemma {:induction false} LoopCounterRule(cfg: Settings, m: Matcher, browser: string, limit: int, rounds: seq<Round>, retry: int, w: World)
    ensures var run := LoopFrom(cfg, m, browser, limit, rounds, retry, w);
      && (|run.trace| > 0 ==> run.trace[0].retry == retry)
      && (forall k :: 0 <= k < |run.trace| - 1 ==>
            Continues(run.trace[k], limit) &&
            run.trace[k + 1].retry == (if run.trace[k].outcome.Ok? then 0 else run.trace[k].retry + 1))
      && (forall k :: 0 <= k < |run.trace| ==> !rounds[k].stopSet)
    decreases |rounds|
  {
    if rounds != [] && !rounds[0].stopSet {
      var it := Iteration(cfg, m, browser, rounds[0], w);
      var step := Step(retry, w, it.result);
      if Continues(step, limit) {
        var next := if it.result.Ok? then 0 else retry + 1;
        var rest := LoopFrom(cfg, m, browser, limit, rounds[1..], next, Sleep(it.after, PauseMs));
        LoopCounterRule(cfg, m, browser, limit, rounds[1..], next, Sleep(it.after, PauseMs));
        var run := LoopFrom(cfg, m, browser, limit, rounds, retry, w);
        assert run.trace == [step] + rest.trace;
        assert forall k :: 0 < k < |run.trace| ==> run.trace[k] == rest.trace[k - 1] && rounds[k] == rounds[1..][k - 1];
      }
    }
  }

  /** Why the loop ended: a stop at the head after the last iteration (the
      flag set, or no more observations), the last iteration's unhandled
      exception, or the last iteration's counted failure with the counter
      reaching the limit. */
  lemma {:induction false} LoopExit(cfg: Settings, m: Matcher, browser: string, limit: int, rounds: seq<Round>, retry: int, w: World)
    ensures var run := LoopFrom(cfg, m, browser, limit, rounds, retry, w);
      var n := |run.trace|;
      && (run.exit == Stopped ==>
            (n == |rounds| || rounds[n].stopSet) && (n > 0 ==> Continues(run.trace[n - 1], limit)))
      && (run.exit == Escaped ==> n > 0 && run.trace[n - 1].outcome == Raised(Foreign))
      && (run.exit.Aborted? ==>
            n > 0 && run.trace[n - 1].outcome == Raised(run.exit.cause) && Counted(run.exit.cause) &&
            run.trace[n - 1].retry + 1 >= limit)
    decreases |rounds|
  {
    if rounds != [] && !rounds[0].stopSet {
      var it := Iteration(cfg, m, browser, rounds[0], w);
      var step := Step(retry, w, it.result);
      if Continues(step, limit) {
        var next := if it.result.Ok? then 0 else retry + 1;
        var rest := LoopFrom(cfg, m, browser, limit, rounds[1..], next, Sleep(it.after, PauseMs));
        LoopExit(cfg, m, browser, limit, rounds[1..], next, Sleep(it.after, PauseMs));
        var run := LoopFrom(cfg, m, browser, limit, rounds, retry, w);
        assert run.trace == [step] + rest.trace;
        if |rest.trace| < |rounds| - 1 {
          assert rounds[|run.trace|] == rounds[1..][|rest.trace|];
        }
      }
    }
  }

  /** Each traced iteration is the iteration body run on its round's
      observations from its recorded start state, and each start is the
      state the previous iteration left, after the one-second pause. */
  predicate TraceChains(cfg: Settings, m: Matcher, browser: string, rounds: seq<Round>, trace: seq<Step>)
  {
    && |trace| <= |rounds|
    && (forall k :: 0 <= k < |trace| ==> trace[k].outcome == Iteration(cfg, m, browser, rounds[k], trace[k].start).result)
    && (forall k :: 0 <= k < |trace| - 1 ==>
          trace[k + 1].start == Sleep(Iteration(cfg, m, browser, rounds[k], trace[k].start).after, PauseMs))
  }

  /** The trace is the chain of iterations the loop runs, starting from the
      state the loop started in. */
  lemma {:induction false} LoopTraceChains(cfg: Settings, m: Matcher, browser: string, limit: int, rounds: seq<Round>, retry: int, w: World)
    ensures var run := LoopFrom(cfg, m, browser, limit, rounds, retry, w);
      && TraceChains(cfg, m, browser, rounds, run.trace)
      && (|run.trace| > 0 ==> run.trace[0].start == w)
    decreases |rounds|
  {
    if rounds != [] && !rounds[0].stopSet {
      var it := Iteration(cfg, m, browser, rounds[0], w);
      var step := Step(retry, w, it.result);
      if Continues(step, limit) {
        var next := if it.result.Ok? then 0 else retry + 1;
        var w' := Sleep(it.after, PauseMs);
        var rest := LoopFrom(cfg, m, browser, limit, rounds[1..], next, w');
        LoopTraceChains(cfg, m, browser, limit, rounds[1..], next, w');
        var run := LoopFrom(cfg, m, browser, limit, rounds, retry, w);
        assert run.trace == [step] + rest.trace;
        assert forall k :: 0 < k < |run.trace| ==> run.trace[k] == rest.trace[k - 1] && rounds[k] == rounds[1..][k - 1];
      }
    }
  }

  /** The loop does nothing after its last traced iteration but the pause
      that precedes a stop: a run with no iteration is a stop with the state
      untouched, and otherwise the final state is the one the last traced
      iteration left, one second later when the loop then stopped. So an
      abort or an escape ends with the failing iteration, and no further
      iteration runs. */
  lemma {:induction false} LoopEndsWithLastIteration(cfg: Settings, m: Matcher, browser: string, limit: int, rounds: seq<Round>, retry: int, w: World)
    ensures var run := LoopFrom(cfg, m, browser, limit, rounds, retry, w);
      var n := |run.trace|;
      && (n == 0 ==> run.exit == Stopped && run.after == w)
      && (n > 0 ==>
            var last := Iteration(cfg, m, browser, rounds[n - 1], run.trace[n - 1].start).after;
            run.after == if run.exit == Stopped then Sleep(last, PauseMs) else last)
    decreases |rounds|
  {
    if rounds != [] && !rounds[0].stopSet {
      var it := Iteration(cfg, m, browser, rounds[0], w);
      var step := Step(retry, w, it.result);
      var run := LoopFrom(cfg, m, browser, limit, rounds, retry, w);
      if Continues(step, limit) {
        var next := if it.result.Ok? then 0 else retry + 1;
        var w' := Sleep(it.after, PauseMs);
        var rest := LoopFrom(cfg, m, browser, limit, rounds[1..], next, w');
        LoopEndsWithLastIteration(cfg, m, browser, limit, rounds[1..], next, w');
        assert run.trace == [step] + rest.trace && run.exit == rest.exit && run.after == rest.after;
        var n := |run.trace|;
        if n > 1 {
          assert run.trace[n - 1] == rest.trace[n - 2] && rounds[n - 1] == rounds[1..][n - 2];
        }
      } else {
        assert run.trace == [step] && run.after == it.after && run.exit != Stopped;
      }
    }
  }

  /** Every loop head of the trace saw a counter within 0 .. limit - 1. */
  predicate RetriesWithin(trace: seq<Step>, limit: int)
  {
    forall k :: 0 <= k < |trace| ==> 0 <= trace[k].retry < limit
  }

  /** With a limit of at least 1 and a counter below it, the counter at every
      loop head stays within 0 .. limit - 1. */
  lemma {:induction false} LoopRetryBounded(cfg: Settings, m: Matcher, browser: string, limit: int, rounds: seq<Round>, retry: int, w: World)
    requires 1 <= limit && 0 <= retry < limit
    ensures RetriesWithin(LoopFrom(cfg, m, browser, limit, rounds, retry, w).trace, limit)
    decreases |rounds|
  {
    if rounds != [] && !rounds[0].stopSet {
      var it := Iteration(cfg, m, browser, rounds[0], w);
      var step := Step(retry, w, it.result);
      if Continues(step, limit) {
        var next := if it.result.Ok? then 0 else retry + 1;
        var w' := Sleep(it.after, PauseMs);
        var rest := LoopFrom(cfg, m, browser, limit, rounds[1..], next, w');
        LoopRetryBounded(cfg, m, browser, limit, rounds[1..], next, w');
        var run := LoopFrom(cfg, m, browser, limit, rounds, retry, w);
        assert run.trace == [step] + rest.trace;
      }
    }
  }

  /** The number of failed iterations at the end of a trace, counted on from
      `carried` earlier failures when the trace holds no success. */
  function FailureStreak(carried: int, trace: seq<Step>): (n: int)
  {
    if trace == [] then carried
    else if trace[|trace| - 1].outcome.Ok? then 0
    else FailureStreak(carried, trace[..|trace| - 1]) + 1
  }

  lemma {:induction false} FailureStreakOfPrepended(carried: int, s: Step, t: seq<Step>)
    ensures FailureStreak(carried, [s] + t) ==
            FailureStreak(if s.outcome.Ok? then 0 else carried + 1, t)
    decreases |t|
  {
    if t == [] {
      assert [s] + t == [s] && [s][..0] == [];
    } else {
      var st := [s] + t;
      assert st[|st| - 1] == t[|t| - 1];
      assert st[..|st| - 1] == [s] + t[..|t| - 1];
      FailureStreakOfPrepended(carried, s, t[..|t| - 1]);
    }
  }

  /** The counter at each loop head of the trace is the number of
      consecutive failed iterations just before it, counted on from
      `carried`. */
  predicate CountersAreStreaks(carried: int, trace: seq<Step>)
  {
    forall k :: 0 <= k < |trace| ==> trace[k].retry == FailureStreak(carried, trace[..k])
  }

  /** The counter at each loop head is the number of consecutive failed
      iterations just before it (counted on from the starting counter). */
  lemma {:induction false} LoopRetryIsFailureStreak(cfg: Settings, m: Matcher, browser: string, limit: int, rounds: seq<Round>, retry: int, w: World)
    ensures CountersAreStreaks(retry, LoopFrom(cfg, m, browser, limit, rounds, retry, w).trace)
    decreases |rounds|
  {
    var run := LoopFrom(cfg, m, browser, limit, rounds, retry, w);
    if rounds != [] && !rounds[0].stopSet {
      var it := Iteration(cfg, m, browser, rounds[0], w);
      var step := Step(retry, w, it.result);
      if Continues(step, limit) {
        var next := if it.result.Ok? then 0 else retry + 1;
        var w' := Sleep(it.after, PauseMs);
        var rest := LoopFrom(cfg, m, browser, limit, rounds[1..], next, w');
        LoopRetryIsFailureStreak(cfg, m, browser, limit, rounds[1..], next, w');
        assert run.trace == [step] + rest.trace;
        forall k | 0 <= k < |run.trace|
          ensures run.trace[k].retry == FailureStreak(retry, run.trace[..k])
        {
          if k == 0 {
            assert run.trace[..0] == [] && run.trace[0] == step;
          } else {
            assert run.trace[k] == rest.trace[k - 1];
            assert run.trace[..k] == [step] + rest.trace[..k - 1];
            FailureStreakOfPrepended(retry, step, rest.trace[..k - 1]);
          }
        }
      } else {
        assert run.trace[..0] == [];
      }
    }
  }

  /** run_process_loop with a retry limit of at least 1 never sees the limit
      reached at a loop head, ends with the limit reached exactly when it
      aborts: after exactly retry_limit consecutive failed iterations, and
      returns from a stop with fewer than retry_limit failures behind it. */
  lemma LoopAbortsAfterLimitFailures(cfg: Settings, m: Matcher, browser: string, limit: int, rounds: seq<Round>, w: World)
    requires 1 <= limit
    ensures var run := ProcessLoop(cfg, m, browser, limit, rounds, w);
      && (forall k :: 0 <= k < |run.trace| ==> 0 <= FailureStreak(0, run.trace[..k]) < limit)
      && (run.exit.Aborted? ==> FailureStreak(0, run.trace) == limit)
      && (run.exit == Stopped ==> FailureStreak(0, run.trace) < limit)
  {
    var run := ProcessLoop(cfg, m, browser, limit, rounds, w);
    LoopRetryBounded(cfg, m, browser, limit, rounds, 0, w);
    LoopRetryIsFailureStreak(cfg, m, browser, limit, rounds, 0, w);
    LoopExit(cfg, m, browser, limit, rounds, 0, w);
    var n := |run.trace|;
    if n > 0 {
      var last := run.trace[n - 1];
      assert run.trace[..n - 1] == run.trace[..n][..n - 1] && run.trace[..n] == run.trace;
      if !last.outcome.Ok? {
        assert FailureStreak(0, run.trace) == FailureStreak(0, run.trace[..n - 1]) + 1;
      }
    }
  }

  /** Setting the stop flag while iteration j - 1 runs takes effect at the
      next loop head: the run is the one that has no observations from head j
      on. */
  lemma {:induction false} StopSeenAtNextHead(cfg: Settings, m: Matcher, browser: string, limit: int, rounds: seq<Round>, retry: int, w: World, j: int)
    requires 0 <= j < |rounds|
    ensures LoopFrom(cfg, m, browser, limit, rounds[j := rounds[j].(stopSet := true)], retry, w) ==
            LoopFrom(cfg, m, browser, limit, rounds[..j], retry, w)
    decreases j
  {
    var stopped := rounds[j := rounds[j].(stopSet := true)];
    if j > 0 && !rounds[0].stopSet {
      assert stopped[0] == rounds[0] && rounds[..j][0] == rounds[0];
      assert stopped[1..] == rounds[1..][j - 1 := rounds[1..][j - 1].(stopSet := true)];
      assert rounds[..j][1..] == rounds[1..][..j - 1];
      var it := Iteration(cfg, m, browser, rounds[0], w);
      if Continues(Step(retry, w, it.result), limit) {
        var next := if it.result.Ok? then 0 else retry + 1;
        StopSeenAtNextHead(cfg, m, browser, limit, rounds[1..], next, Sleep(it.after, PauseMs), j - 1);
      }
    }
  }

  /** A run cut off at head j agrees with the uncut run: it is the uncut run
      itself when that one ends within j iterations, and otherwise it is
      the uncut run's first j iterations followed by a stop. Either way its
      actions are a prefix of the uncut run's: an iteration in progress is
      not interrupted, and nothing happens after the stop. */
  lemma {:induction false} StoppedRunIsPrefix(cfg: Settings, m: Matcher, browser: string, limit: int, rounds: seq<Round>, retry: int, w: World, j: int)
    requires 0 <= j <= |rounds|
    ensures var cut := LoopFrom(cfg, m, browser, limit, rounds[..j], retry, w);
      var full := LoopFrom(cfg, m, browser, limit, rounds, retry, w);
      && cut.after.log <= full.after.log
      && (|full.trace| <= j ==> cut == full)
      && (|full.trace| > j ==> cut.exit == Stopped && cut.trace == full.trace[..j])
    decreases j
  {
    var cut := LoopFrom(cfg, m, browser, limit, rounds[..j], retry, w);
    var full := LoopFrom(cfg, m, browser, limit, rounds, retry, w);
    if j == 0 {
      assert rounds[..0] == [];
      assert cut == Run(Stopped, [], w);
    } else if !rounds[0].stopSet {
      assert rounds[..j][0] == rounds[0];
      assert rounds[..j][1..] == rounds[1..][..j - 1];
      var it := Iteration(cfg, m, browser, rounds[0], w);
      var step := Step(retry, w, it.result);
      if Continues(step, limit) {
        var next := if it.result.Ok? then 0 else retry + 1;
        var w' := Sleep(it.after, PauseMs);
        StoppedRunIsPrefix(cfg, m, browser, limit, rounds[1..], next, w', j - 1);
        var restFull := LoopFrom(cfg, m, browser, limit, rounds[1..], next, w');
        var restCut := LoopFrom(cfg, m, browser, limit, rounds[1..][..j - 1], next, w');
        assert full == Continue(step, restFull);
        assert cut == Continue(step, restCut);
        if |full.trace| > j {
          assert full.trace[..j] == [step] + restFull.trace[..j - 1];
        }
      }
    }
  }
}
