/** The string operations the window lookup relies on: case folding and
    substring containment. */
module Text {

  /** ASCII case folding of one character: 'A'..'Z' become 'a'..'z' and every
      other character is left as it is. */
  function LowerChar(c: char): (d: char)
    ensures !('A' <= d <= 'Z')
    ensures d == c <==> !('A' <= c <= 'Z')
    ensures 'A' <= c <= 'Z' ==> d as int - c as int == 'a' as int - 'A' as int
  {
    if 'A' <= c <= 'Z' then (c as int - 'A' as int + 'a' as int) as char else c
  }

  /** The lower-case form of a string, character by character. */
  function Lower(s: string): (r: string)
    ensures |r| == |s|
    ensures forall i :: 0 <= i < |s| ==> r[i] == LowerChar(s[i])
  {
    if s == [] then [] else [LowerChar(s[0])] + Lower(s[1..])
  }

  /** Lowering a string that is already lower case changes nothing. */
  lemma LowerIdempotent(s: string)
    ensures Lower(Lower(s)) == Lower(s)
  {
  }

  predicate StartsWith(hay: string, needle: string)
  {
    |needle| <= |hay| && hay[..|needle|] == needle
  }

  /** `needle in hay` on strings: tries every start position from the left. */
  predicate Contains(hay: string, needle: string)
    decreases |hay|
  {
    StartsWith(hay, needle) || (|hay| > 0 && Contains(hay[1..], needle))
  }

  /** Reference definition: needle occurs in hay starting at position i. */
  ghost predicate OccursAt(hay: string, needle: string, i: int)
  {
    0 <= i && i + |needle| <= |hay| && hay[i..i + |needle|] == needle
  }

  /** The scanning definition agrees with the positional one. */
  lemma {:induction false} ContainsIffOccurs(hay: string, needle: string)
    ensures Contains(hay, needle) <==> exists i :: OccursAt(hay, needle, i)
    decreases |hay|
  {
    if StartsWith(hay, needle) {
      assert OccursAt(hay, needle, 0);
    } else {
      assert !OccursAt(hay, needle, 0);
      if |hay| > 0 {
        var tail := hay[1..];
        ContainsIffOccurs(tail, needle);
        if Contains(tail, needle) {
          var i :| OccursAt(tail, needle, i);
          assert hay[i + 1..i + 1 + |needle|] == tail[i..i + |needle|];
          assert OccursAt(hay, needle, i + 1);
        } else {
          forall i | OccursAt(hay, needle, i)
            ensures OccursAt(tail, needle, i - 1)
          {
            assert tail[i - 1..i - 1 + |needle|] == hay[i..i + |needle|];
          }
        }
      }
    }
  }

  /** The empty string is contained in every string (Python's `"" in s`). */
  lemma EmptyContainedEverywhere(hay: string)
    ensures Contains(hay, "")
  {
    assert StartsWith(hay, "");
  }
}
