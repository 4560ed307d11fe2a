# Autoclicker control layer in Dafny

`autoclicker.py` drives a desktop download workflow. It finds the app window
by partial title, activates it and clicks the app's download button, with one
scroll-and-retry fallback. It then checks that the browser window is the
active one, clicks the page's download button and closes the tab with ctrl+w.
All of this runs in a loop that counts consecutive caught failures against a
retry limit and checks a stop flag at the top of each iteration.

This project models the deterministic control layer around the library
calls. The environment becomes data:

- the window list and the active window are a `Round`, one per iteration,
  used by both window lookups of that iteration;
- the screen's template matcher is a function from (image, poll number) to an
  answer;
- the clock is an integer count of milliseconds;
- mouse, keyboard and window-manager requests are entries appended to an
  action log.

Modules:

- `Outcomes`: the script's three exception classes, a `Foreign` fault for any
  other exception, and `Outcome` for "returned or raised".
- `Text`: ASCII lower-casing and Python's substring `in`, with a positional
  reference definition.
- `Windows`: `get_window_by_partial_title` as a first-match search, and the
  window centre that `activate_window_by_partial_title` moves the mouse to.
- `Screen`: the polling loop of `find_on_screen`, as a function over the
  matcher and the clock.
- `Effects`: each operation as a function from the state before a call to its
  result and the state after it. This includes one iteration of
  `run_process_loop` and the whole loop. Lemmas here state the fallback, the
  step order, the retry counter, the stop flag and how the loop ends.
- `Autoclicker`: class `Desktop`. It holds the screen matcher as a constant,
  and as fields the poll counter, the clock and the action log, which the
  calls update in place. Its methods perform the steps of the Python
  functions, including the two `while` loops, and each is proved to agree
  with its `Effects` function: `Desktop.RunProcessLoop` with
  `Effects.ProcessLoop`, every other method with the function of the same
  name.

## Model

| member | source | states |
|---|---|---|
| Text.LowerChar | autoclicker.py:26-28 | The result is never an ASCII capital. The character is unchanged exactly when it is not a capital. A capital moves by the distance from 'A' to 'a'. |
| Text.Lower | autoclicker.py:26-28 | The lowered string has the same length and is lowered character by character. |
| Text.ContainsIffOccurs | autoclicker.py:28 | The left-to-right scan behind `title in win.title.lower()` holds exactly when the needle occurs at some position of the title. |
| Text.EmptyContainedEverywhere | autoclicker.py:28 | The empty query is contained in every title, as in Python. |
| Windows.FindWindowReturnsFirstMatch | autoclicker.py:26-29 | If window i is the first whose lowered title contains the lowered query, the lookup returns window i, whatever later windows match. |
| Windows.FindWindowResultIsFirstMatch | autoclicker.py:27-29 | A returned window is in the list, matches, and no earlier window matches. |
| Windows.FindWindowFailsIffNoMatch | autoclicker.py:27-30 | The lookup raises exactly when no window matches, and the exception it raises is always WindowNotFound. |
| Windows.FindWindowIgnoresCase | autoclicker.py:26 | Lowering the query beforehand does not change the lookup's result. |
| Windows.Centre | autoclicker.py:42-43 | Each coordinate is the origin plus the floor of half the extent. The point lies inside the window when width and height are non-negative. |
| Screen.Search | autoclicker.py:56-66 | The poll counter and the clock never go backwards during a search. |
| Screen.SearchSkipsMisses | autoclicker.py:57-63 | A run of misses before the timeout only advances the poll number and adds 300 ms per miss. |
| Screen.SearchReturnsFirstFound | autoclicker.py:57-61 | A template that first appears at poll k while time remains is returned from poll k, at 300 ms per earlier miss, with no further poll. |
| Screen.SearchTimesOut | autoclicker.py:57-66 | A template that never appears makes the search raise ButtonNotFound at the first check where elapsed time reaches the timeout, after exactly the polls that fit. |
| Screen.SearchResultMeaning | autoclicker.py:56-66 | Every poll before the last one missed. A location is the last poll's answer, found before the timeout. ButtonNotFound comes only at or after the timeout, within one sleep of it, after misses only. Any other exception is the last poll's own. The clock advances 300 ms per miss. A non-positive timeout means no poll at all. |
| Effects.ActivateWindow | autoclicker.py:38-45 | Activation adds only actions, and does not touch the poll counter or the clock. |
| Effects.ActivateWindowTargetsFirstMatch | autoclicker.py:38-45 | Activation raises exactly when no window matches, and then does nothing. Otherwise it adds exactly restore, activate and move-to-centre for the first matching window, and the centre is inside that window when its size is non-negative. |
| Effects.FindOnScreen | autoclicker.py:50-66 | The search issues no action. ButtonNotFound only comes once at least timeout seconds have passed. A found location comes before that. A non-positive timeout raises ButtonNotFound with the state untouched. Only ButtonNotFound or an exception from the matcher can be raised. |
| Effects.ClickButton | autoclicker.py:74-76 | Exactly one click, at the found location, when the search succeeds. No action and the same exception when it raises. |
| Effects.ClickWithFallback | autoclicker.py:85-96 | The fallback only appends actions and never rewinds the poll counter or the clock. |
| Effects.FallbackScrollsAtMostOnce | autoclicker.py:85-96 | A first success means no scroll and the first attempt's effect. Exactly one scroll happens iff the first attempt raised ButtonNotFound, and it is `Scroll(-scroll_amount)`, issued first. After a first ButtonNotFound the call is exactly one second attempt from the scrolled state, so its result, exception included, is the call's, and there is no third attempt. Any other first failure is returned unchanged. There are at most two actions and at most one click, and a click happens iff the call succeeds. Only ButtonNotFound or a matcher exception is raised, and ButtonNotFound only after two full timeouts. |
| Effects.FallbackSuccessShape | autoclicker.py:85-96 | A successful fallback issues the click alone, or the scroll by -scroll_amount followed by the click. |
| Effects.FallbackIssuesScrollsAndClicks | autoclicker.py:85-96 | The fallback issues nothing but scrolls and clicks: at most two actions and at most one scroll. |
| Effects.Iteration | autoclicker.py:107-122 | An iteration only appends to the log and never rewinds the poll counter or the clock. |
| Effects.BrowserSteps | autoclicker.py:112-122 | The browser half of an iteration only appends to the log and never rewinds the poll counter or the clock. |
| Effects.BrowserStepsOrder | autoclicker.py:112-122 | On success the only actions are the page click, then ctrl+w. On failure there are none. WindowNotActive is raised exactly when the browser is found and an active window with a different title exists, so no active window passes and a differing one always skips the page click and ctrl+w. |
| Effects.IterationClosesTabOnlyOnSuccess | autoclicker.py:107-123 | ctrl+w is among an iteration's actions iff the iteration succeeds. |
| Effects.IterationSuccessShape | autoclicker.py:107-122 | A successful iteration issues 6 or 7 actions: restore and activate of the first window matching the app title and a move to its centre; with 7 actions, then `Scroll(-scroll_amount)`; then the app click, the page click and ctrl+w. There is at most one scroll. |
| Effects.IterationFailureSkipsRest | autoclicker.py:107-122 | A failed activation, or a failed fallback click after a successful activation, is the whole iteration: no pause, browser lookup or page click follows. A failed iteration never sends ctrl+w and issues at most the app click, none when the app click failed. |
| Effects.IterationFailsEarly | autoclicker.py:107-118 | A missing app window raises WindowNotFound with nothing done. WindowNotActive needs an active window that is not the looked-up browser. |
| Effects.LoopFrom | autoclicker.py:103-142 | The loop starts at most one iteration per observed loop head, and only appends to the state. |
| Effects.LoopTraceChains | autoclicker.py:105-136 | Every traced iteration is the iteration body run on its head's observations from its recorded start state. The first starts from the loop's start state, and each later one from the state the previous one left plus the one-second pause. |
| Effects.LoopEndsWithLastIteration | autoclicker.py:105-142 | A run with no iteration is a stop that changes nothing. Otherwise the final state is the one the last traced iteration left, plus one second when the loop then stopped. An abort or an escape therefore ends with the failing iteration, and no later iteration runs. |
| Effects.LoopCounterRule | autoclicker.py:103-136 | The first head sees the starting counter. After a success the next head sees 0. After a counted failure it sees one more. Every started iteration saw the stop flag clear. Every iteration but the last continued the loop. |
| Effects.LoopExit | autoclicker.py:105-142 | A stop follows a head that saw the flag, or the end of the observations. An escape follows an exception the loop does not catch. An abort follows a counted failure that took the counter to the limit. |
| Effects.LoopRetryBounded | autoclicker.py:103-136 | With a limit of at least 1, every loop head sees 0 <= retry_number < retry_limit. |
| Effects.LoopRetryIsFailureStreak | autoclicker.py:103-131 | The counter at every head equals the number of consecutive failed iterations just before it. |
| Effects.LoopAbortsAfterLimitFailures | autoclicker.py:103-142 | Starting from 0 with a limit of at least 1, the failure streak at each head is below the limit. An abort comes after exactly retry_limit consecutive failures. A stop comes with fewer behind it. |
| Effects.StopSeenAtNextHead | autoclicker.py:105 | Setting the flag during iteration j - 1 gives the same run as having no heads after j - 1: the flag takes effect at the next head only. |
| Effects.StoppedRunIsPrefix | autoclicker.py:105 | A run stopped at head j is the unstopped run's first j iterations and its actions are a prefix of that run's: the iteration in progress completes and nothing follows. |
| Autoclicker.Desktop.ActivateWindow | autoclicker.py:38-47 | The new state and the result are those of Effects.ActivateWindow on the old state. |
| Autoclicker.Desktop.FindOnScreen | autoclicker.py:56-66 | The polling `while` loop leaves the state and result of Effects.FindOnScreen. |
| Autoclicker.Desktop.ClickButton | autoclicker.py:74-76 | The new state and the result are those of Effects.ClickButton. |
| Autoclicker.Desktop.ClickWithFallback | autoclicker.py:85-96 | The new state and the result are those of Effects.ClickWithFallback. |
| Autoclicker.Desktop.BrowserSteps | autoclicker.py:112-122 | The new state and the result are those of Effects.BrowserSteps. |
| Autoclicker.Desktop.Iteration | autoclicker.py:107-122 | The new state and the result are those of Effects.Iteration. |
| Autoclicker.Desktop.RunProcessLoop | autoclicker.py:102-142 | The `while` loop and its `retry_number` variable end with the exit and state of Effects.ProcessLoop. The loop keeps 0 <= retry_number < retry_limit at every head. |

## Left out

- Template matching and confidence thresholds (pyautogui) are not modelled. The matcher is an arbitrary function of the image name and the poll number, covering screen contents, template files and the confidence values 0.999, 0.99 and 0.8 alike.
- Window enumeration, restore, activate and the active-window query (pygetwindow) are not modelled. The window list and the active window are inputs, observed once per iteration. The script lists the windows twice per iteration: for the app lookup (autoclicker.py:38, via line 27) and for the browser lookup (autoclicker.py:113, via line 27), at least one second and one click apart. The model uses the same list for both, so a window that opens, closes or is renamed between the two lookups is not captured. Restore, activate, mouse moves, clicks, scrolls and hotkeys are entries in an action log.
- Effects.FindOnScreen: `time.time()` and `time.sleep` become an integer millisecond clock. A poll takes no clock time and every sleep advances the clock by exactly its nominal length, so the number of polls that fit in a timeout is exact here and approximate in the script.
- Timeouts are whole seconds. The script only passes the integers 1 and 10.
- `threading.Event`, the worker thread, the ctrl+shift+s hotkey handler and module start-up (autoclicker.py:99, 145-159) are concurrency and OS hooks. The stop flag seen at each loop head is an input. The start-up arguments `"Mozilla Firefox"` and the default retry limit of 3 are parameters of Autoclicker.Desktop.RunProcessLoop.
- Autoclicker.Desktop.RunProcessLoop: the loop's literal window title, image names, scroll amount and timeouts are passed as a `Settings` value. The script's values are `Effects.Script`.
- Effects.LoopFrom: the observations are a finite sequence, and running out of them ends the loop as a stop would. A script that runs forever with no stop has no counterpart.
- The window-manager, mouse and keyboard calls (`restore`, `activate`, `moveTo`, `click`, `scroll`, `hotkey`, `getAllWindows`, `getActiveWindow`; autoclicker.py:27, 40-41, 45, 75, 92, 114, 122) are assumed never to raise. In the script an exception from any of them escapes both handlers and ends the thread, as `Escaped` does for a matcher exception; the model's only source of `Foreign` is the matcher.
- `print` output is console I/O only.
- Text.Lower: only ASCII letters are case-folded. Python's `str.lower()` also folds non-ASCII letters.

Behaviour of `autoclicker.py` worth noting:

- An exception from the matching library other than ImageNotFoundException is not treated as a miss. It propagates out of `find_on_screen` and out of the loop (`Foreign`, exit `Escaped`).
- The loop aborts when the incremented counter reaches the limit (`>=`), not when it exceeds it. The outer handler catches that exception, so `run_process_loop` returns normally (exit `Aborted`).
- `activate_window_by_partial_title` makes one attempt. It has no activation retries, no minimise-restore cycle and no focus check of its own. The only focus check is the browser check in the loop body.
