/** Window lookup by partial title, and the window centre the mouse is moved
    to when a window is activated. */
module Windows {
  import opened Outcomes
  import opened Text

  datatype Point = Point(x: int, y: int)

  /** A top-level window as the window manager reports it: its title and its
      geometry (left and top edge, width and height, in pixels). The geometry
      is the one the script reads after restoring and activating the window,
      which is where the centre is computed, not the one at enumeration. */
  datatype Window = Window(title: string, left: int, top: int, width: int, height: int)

  /** The case-insensitive test the lookup applies to each window. */
  predicate TitleMatches(w: Window, query: string)
  {
    Contains(Lower(w.title), Lower(query))
  }

  /** get_window_by_partial_title: lower-cases the query once and scans the
      windows in enumeration order, returning the first whose lower-cased
      title contains it. */
  function FindWindow(windows: seq<Window>, query: string): (r: Outcome<Window>)
  {
    FirstContaining(windows, Lower(query))
  }

  function FirstContaining(windows: seq<Window>, needle: string): (r: Outcome<Window>)
  {
    if windows == [] then Raised(WindowNotFound)
    else if Contains(Lower(windows[0].title), needle) then Ok(windows[0])
    else FirstContaining(windows[1..], needle)
  }

  /** Window i is the first window that matches the query. */
  ghost predicate FirstMatchAt(windows: seq<Window>, query: string, i: int)
  {
    0 <= i < |windows| && TitleMatches(windows[i], query) &&
    forall j :: 0 <= j < i ==> !TitleMatches(windows[j], query)
  }

  /** The lookup returns the first matching window, whichever later windows
      also match. */
  lemma {:induction false} FindWindowReturnsFirstMatch(windows: seq<Window>, query: string, i: int)
    requires FirstMatchAt(windows, query, i)
    ensures FindWindow(windows, query) == Ok(windows[i])
    decreases i
  {
    if i > 0 {
      assert !TitleMatches(windows[0], query);
      var tail := windows[1..];
      assert FirstMatchAt(tail, query, i - 1) by {
        forall j | 0 <= j < i - 1
          ensures !TitleMatches(tail[j], query)
        {
          assert tail[j] == windows[j + 1];
        }
      }
      FindWindowReturnsFirstMatch(tail, query, i - 1);
    }
  }

  /** Whatever the lookup returns is a listed window that matches, and no
      earlier window matches. */
  lemma {:induction false} FindWindowResultIsFirstMatch(windows: seq<Window>, query: string)
    ensures FindWindow(windows, query).Ok? ==>
              exists i :: FirstMatchAt(windows, query, i) && windows[i] == FindWindow(windows, query).value
    decreases |windows|
  {
    if windows != [] && !TitleMatches(windows[0], query) {
      var tail := windows[1..];
      FindWindowResultIsFirstMatch(tail, query);
      if FindWindow(tail, query).Ok? {
        var i :| FirstMatchAt(tail, query, i) && tail[i] == FindWindow(tail, query).value;
        assert FirstMatchAt(windows, query, i + 1) by {
          forall j | 0 <= j < i + 1
            ensures !TitleMatches(windows[j], query)
          {
            if j > 0 { assert windows[j] == tail[j - 1]; }
          }
        }
      }
    } else if windows != [] {
      assert FirstMatchAt(windows, query, 0);
    }
  }

  /** The lookup raises WindowNotFound, and nothing else, exactly when no
      window matches. */
  lemma {:induction false} FindWindowFailsIffNoMatch(windows: seq<Window>, query: string)
    ensures FindWindow(windows, query).Raised? ==> FindWindow(windows, query).fault == WindowNotFound
    ensures FindWindow(windows, query).Raised? <==>
              forall j :: 0 <= j < |windows| ==> !TitleMatches(windows[j], query)
    decreases |windows|
  {
    if windows != [] && !TitleMatches(windows[0], query) {
      var tail := windows[1..];
      FindWindowFailsIffNoMatch(tail, query);
      assert forall j :: 0 < j < |windows| ==> windows[j] == tail[j - 1];
    }
  }

  /** The lookup does not depend on the case of the query's ASCII letters. */
  lemma FindWindowIgnoresCase(windows: seq<Window>, query: string)
    ensures FindWindow(windows, Lower(query)) == FindWindow(windows, query)
  {
    LowerIdempotent(query);
  }

  /** The point the mouse is moved to: left + width // 2, top + height // 2.
      Dafny's division by the positive constant 2 rounds down like Python's
      floor division, negative operands included. */
  function Centre(w: Window): (p: Point)
    ensures 2 * (p.x - w.left) <= w.width < 2 * (p.x - w.left) + 2
    ensures 2 * (p.y - w.top) <= w.height < 2 * (p.y - w.top) + 2
    ensures 0 <= w.width ==> w.left <= p.x <= w.left + w.width
    ensures 0 <= w.height ==> w.top <= p.y <= w.top + w.height
  {
    Point(w.left + w.width / 2, w.top + w.height / 2)
  }
}
