/** On-screen template search: the polling loop of find_on_screen, stated over
    the answers of the matching library and an abstract millisecond clock. */
module Screen {
  import opened Outcomes
  import opened Windows

  /** One call of the template matcher: the centre of the match, the library's
      ImageNotFoundException, or any other exception it raises. */
  datatype Answer = Found(at: Point) | NotFound | Broken

  /** The matcher's answer to the n-th poll of a run, which looks for the
      named template image. It stands in for the screen contents, the template
      file and the confidence threshold together. */
  type Matcher = (string, nat) -> Answer

  /** The sleep after a poll that found nothing, in milliseconds. */
  const PollSleepMs := 300

  /** A finished search: what it returned or raised, the number of polls made
      so far in the run, and the clock when it returned, in milliseconds. */
  datatype Polled = Polled(result: Outcome<Point>, polls: nat, clock: int)

  /** The polling loop of a search started at clock `start`, from poll number
      n at clock `now`: while now - start < timeout it polls; a match is
      returned at once, ImageNotFoundException sleeps and polls again, any
      other exception propagates; once now - start >= timeout it raises
      ButtonNotFound. Polls themselves take no time on the model's clock. */
  function Search(m: Matcher, image: string, n: nat, timeoutMs: int, start: int, now: int): (s: Polled)
    ensures n <= s.polls
    ensures now <= s.clock
    decreases timeoutMs - (now - start)
  {
    if now - start >= timeoutMs then Polled(Raised(ButtonNotFound), n, now)
    else match m(image, n)
      case Found(p) => Polled(Ok(p), n + 1, now)
      case Broken => Polled(Raised(Foreign), n + 1, now)
      case NotFound => Search(m, image, n + 1, timeoutMs, start, now + PollSleepMs)
  }

  /** Every poll from number n up to (not including) k found nothing. */
  ghost predicate MissesBetween(m: Matcher, image: string, n: int, k: int)
  {
    forall i: nat :: n <= i < k ==> m(image, i) == NotFound
  }

  /** A run of misses that all happen before the timeout only advances the
      poll counter and the clock. */
  lemma {:induction false} SearchSkipsMisses(m: Matcher, image: string, n: nat, timeoutMs: int, start: int, now: int, k: nat)
    requires n <= k && MissesBetween(m, image, n, k)
    requires now - start + (k - n) * PollSleepMs < timeoutMs + PollSleepMs
    ensures Search(m, image, n, timeoutMs, start, now) == Search(m, image, k, timeoutMs, start, now + (k - n) * PollSleepMs)
    decreases k - n
  {
    if n < k {
      assert m(image, n) == NotFound;
      SearchSkipsMisses(m, image, n + 1, timeoutMs, start, now + PollSleepMs, k);
    }
  }

  /** A template that first shows up at poll k, while time remains, is
      returned from that poll, and no further poll is made. */
  lemma SearchReturnsFirstFound(m: Matcher, image: string, n: nat, timeoutMs: int, start: int, now: int, k: nat, p: Point)
    requires n <= k && MissesBetween(m, image, n, k) && m(image, k) == Found(p)
    requires now - start + (k - n) * PollSleepMs < timeoutMs
    ensures Search(m, image, n, timeoutMs, start, now) == Polled(Ok(p), k + 1, now + (k - n) * PollSleepMs)
  {
    SearchSkipsMisses(m, image, n, timeoutMs, start, now, k);
  }

  /** A template that never shows up makes the search raise ButtonNotFound at
      the first check that finds the timeout reached, after exactly the polls
      that fit before it. */
  lemma SearchTimesOut(m: Matcher, image: string, n: nat, timeoutMs: int, start: int, now: int, k: nat)
    requires n <= k && MissesBetween(m, image, n, k)
    requires timeoutMs <= now - start + (k - n) * PollSleepMs < timeoutMs + PollSleepMs ||
             (k == n && timeoutMs <= now - start)
    ensures Search(m, image, n, timeoutMs, start, now) == Polled(Raised(ButtonNotFound), k, now + (k - n) * PollSleepMs)
  {
    if n < k {
      SearchSkipsMisses(m, image, n, timeoutMs, start, now, k);
    }
  }

  /** What any search result means: every poll but the last found nothing; a
      location is the answer of the last poll, made before the timeout;
      ButtonNotFound is raised only at or after the timeout, promptly, and only
      after misses; any other exception is the last poll's own; the clock
      advanced by one sleep per miss; and a search that starts with no time
      left makes no poll. */
  lemma {:induction false} SearchResultMeaning(m: Matcher, image: string, n: nat, timeoutMs: int, start: int, now: int)
    ensures var s := Search(m, image, n, timeoutMs, start, now);
      && MissesBetween(m, image, n, s.polls - 1)
      && (s.result.Ok? ==>
            s.polls > n && m(image, s.polls - 1) == Found(s.result.value) && s.clock - start < timeoutMs)
      && (s.result == Raised(Foreign) ==>
            s.polls > n && m(image, s.polls - 1) == Broken && s.clock - start < timeoutMs)
      && (s.result.Raised? && s.result.fault != Foreign ==>
            s.result.fault == ButtonNotFound && timeoutMs <= s.clock - start &&
            (s.clock == now || s.clock - start < timeoutMs + PollSleepMs) &&
            MissesBetween(m, image, n, s.polls))
      && s.clock - now == (if s.result == Raised(ButtonNotFound) then s.polls - n else s.polls - n - 1) * PollSleepMs
      && (timeoutMs <= now - start ==> s.polls == n && s.result == Raised(ButtonNotFound))
    decreases timeoutMs - (now - start)
  {
    if now - start < timeoutMs && m(image, n) == NotFound {
      SearchResultMeaning(m, image, n + 1, timeoutMs, start, now + PollSleepMs);
    }
  }
}
