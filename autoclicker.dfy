/** The script's operations as they run: a Desktop object holds the state the
    calls change (the poll counter of the screen matcher, the clock and the
    log of actions issued), and each method performs the steps of one Python
    function on it. Every method is proved to leave the object in the state,
    and to return the result, that the function of the same name in Effects
    gives for the state before the call. */
module Autoclicker {
  import opened Outcomes
  import opened Windows
  import opened Screen
  import Effects

  class Desktop {
    /** The screen matcher: what locateCenterOnScreen answers on each poll. */
    const matcher: Matcher
    /** Number of matcher polls made so far. */
    var polls: nat
    /** The clock, in milliseconds. */
    var clock: int
    /** The actions issued so far, oldest first. */
    var log: seq<Effects.Action>

    function State(): (s: Effects.World)
      reads this
    {
      Effects.World(polls, clock, log)
    }

    constructor (matcher: Matcher)
      ensures this.matcher == matcher && State() == Effects.World(0, 0, [])
    {
      this.matcher := matcher;
      polls := 0;
      clock := 0;
      log := [];
    }

    /** activate_window_by_partial_title */
    method ActivateWindow(windows: seq<Window>, query: string) returns (r: Outcome<()>)
      modifies this
      ensures Effects.Effect(r, State()) == Effects.ActivateWindow(windows, query, old(State()))
    {
      var found := FindWindow(windows, query);
      match found
      case Raised(f) =>
        r := Raised(f);
      case Ok(win) =>
        log := log + [Effects.Restore(win)];
        log := log + [Effects.Activate(win)];
        var centre := Centre(win);
        log := log + [Effects.MoveTo(centre)];
        r := Ok(());
    }

    /** find_on_screen: poll while less than the timeout has elapsed since
        the start; a hit returns its location, a miss sleeps 300 ms, any
        other matcher exception propagates. */
    method FindOnScreen(image: string, timeout: int) returns (r: Outcome<Point>)
      modifies this
      ensures Effects.Effect(r, State()) == Effects.FindOnScreen(matcher, image, timeout, old(State()))
    {
      var start := clock;
      var limitMs := timeout * 1000;
      while clock - start < limitMs
        invariant log == old(log) && start <= clock
        invariant Search(matcher, image, old(polls), limitMs, start, start) ==
                  Search(matcher, image, polls, limitMs, start, clock)
        decreases limitMs - (clock - start)
      {
        var answer := matcher(image, polls);
        polls := polls + 1;
        match answer
        case Found(p) =>
          return Ok(p);
        case Broken =>
          return Raised(Foreign);
        case NotFound =>
          clock := clock + PollSleepMs;
      }
      r := Raised(ButtonNotFound);
    }

    /** click_button_on_screen */
    method ClickButton(image: string, timeout: int) returns (r: Outcome<()>)
      modifies this
      ensures Effects.Effect(r, State()) == Effects.ClickButton(matcher, image, timeout, old(State()))
    {
      var location := FindOnScreen(image, timeout);
      match location
      case Raised(f) =>
        r := Raised(f);
      case Ok(p) =>
        log := log + [Effects.Click(p)];
        r := Ok(());
    }

    /** click_button_with_fallback */
    method ClickWithFallback(image: string, scrollAmount: int, timeout: int) returns (r: Outcome<()>)
      modifies this
      ensures Effects.Effect(r, State()) == Effects.ClickWithFallback(matcher, image, scrollAmount, timeout, old(State()))
    {
      r := ClickButton(image, timeout);
      if r == Raised(ButtonNotFound) {
        log := log + [Effects.Scroll(-scrollAmount)];
        r := ClickButton(image, timeout);
      }
    }

    /** The second half of an iteration of run_process_loop: pause, look up
        the browser, check the active window, click the page's button, close
        the tab. */
    method BrowserSteps(cfg: Effects.Settings, browser: string, round: Effects.Round) returns (r: Outcome<()>)
      modifies this
      ensures Effects.Effect(r, State()) == Effects.BrowserSteps(cfg, matcher, browser, round, old(State()))
    {
      clock := clock + Effects.PauseMs;
      var found := FindWindow(round.windows, browser);
      match found
      case Raised(f) =>
        r := Raised(f);
      case Ok(b) =>
        if round.active.Some? && round.active.value.title != b.title {
          r := Raised(WindowNotActive);
        } else {
          r := ClickButton(cfg.browserButton, cfg.browserTimeout);
          if r.Ok? {
            log := log + [Effects.Hotkey(Effects.CloseTab)];
          }
        }
    }

    /** The body of one iteration of run_process_loop, up to ctrl+w; the
        first exception skips the rest. */
    method Iteration(cfg: Effects.Settings, browser: string, round: Effects.Round) returns (r: Outcome<()>)
      modifies this
      ensures Effects.Effect(r, State()) == Effects.Iteration(cfg, matcher, browser, round, old(State()))
    {
      r := ActivateWindow(round.windows, cfg.appTitle);
      if r.Ok? {
        r := ClickWithFallback(cfg.appButton, cfg.appScroll, cfg.appTimeout);
        if r.Ok? {
          r := BrowserSteps(cfg, browser, round);
        }
      }
    }

    /** run_process_loop, with the constants of its body passed as cfg (the
        script's are Effects.Script): rounds[k] is what the k-th loop head and
        the iteration after it observe. The counter is
        reset by a success, raised by a counted failure, and the loop is
        left at the limit (returning normally), on an exception it does not
        catch, or at a head that sees the stop flag. */
    method RunProcessLoop(cfg: Effects.Settings, browser: string, retryLimit: int, rounds: seq<Effects.Round>) returns (exit: Effects.Exit)
      modifies this
      ensures var run := Effects.ProcessLoop(cfg, matcher, browser, retryLimit, rounds, old(State()));
        exit == run.exit && State() == run.after
    {
      var retry := 0;
      var k := 0;
      while k < |rounds| && !rounds[k].stopSet
        invariant 0 <= k <= |rounds|
        invariant 1 <= retryLimit ==> 0 <= retry < retryLimit
        invariant var run := Effects.LoopFrom(cfg, matcher, browser, retryLimit, rounds, 0, old(State()));
          var here := Effects.LoopFrom(cfg, matcher, browser, retryLimit, rounds[k..], retry, State());
          run.exit == here.exit && run.after == here.after
        decreases |rounds| - k
      {
        assert rounds[k..][1..] == rounds[k + 1..];
        var r := Iteration(cfg, browser, rounds[k]);
        if r.Ok? {
          retry := 0;
          clock := clock + Effects.PauseMs;
        } else if !Counted(r.fault) {
          return Effects.Escaped;
        } else {
          retry := retry + 1;
          if retry >= retryLimit {
            return Effects.Aborted(r.fault);
          }
          clock := clock + Effects.PauseMs;
        }
        k := k + 1;
      }
      exit := Effects.Stopped;
    }
  }
}
