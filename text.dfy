/**
 * The string operations the blog page relies on: lower-casing
 * (`toLowerCase`), substring search (`includes`) and joining with a
 * separator (`join`). Strings are sequences of characters; lower-casing is
 * modelled on ASCII letters only.
 */
module Text {

  /** `c.toLowerCase()` restricted to ASCII: `A`..`Z` become `a`..`z`. */
  function LowerChar(c: char): char {
    if 'A' <= c <= 'Z' then (c as int + 32) as char else c
  }

  /** `s.toLowerCase()`, character by character. */
  function Lower(s: string): (r: string)
    ensures |r| == |s|
    ensures forall i :: 0 <= i < |s| ==> r[i] == LowerChar(s[i])
  {
    seq(|s|, i requires 0 <= i < |s| => LowerChar(s[i]))
  }

  /** Lower-casing commutes with concatenation. */
  lemma LowerAppend(a: string, b: string)
    ensures Lower(a + b) == Lower(a) + Lower(b)
  {
  }

  /** Lower-casing an already lower-cased string changes nothing. */
  lemma LowerIdempotent(s: string)
    ensures Lower(Lower(s)) == Lower(s)
  {
  }

  /** `needle` occurs in `haystack` starting at index `i`. */
  ghost predicate OccursAt(haystack: string, needle: string, i: int) {
    0 <= i <= |haystack| - |needle| && haystack[i..i + |needle|] == needle
  }

  /** `haystack.includes(needle)`: the needle occurs at some index. */
  function Includes(haystack: string, needle: string): (r: bool)
    ensures r <==> exists i :: OccursAt(haystack, needle, i)
    decreases |haystack|
  {
    if needle <= haystack then
      assert OccursAt(haystack, needle, 0);
      true
    else if haystack == [] then
      assert forall i :: !OccursAt(haystack, needle, i);
      false
    else
      var tail := haystack[1..];
      var r := Includes(tail, needle);
      assert forall i :: OccursAt(tail, needle, i) ==> OccursAt(haystack, needle, i + 1) by {
        forall i | OccursAt(tail, needle, i) ensures OccursAt(haystack, needle, i + 1) {
          assert haystack[i + 1..i + 1 + |needle|] == tail[i..i + |needle|];
        }
      }
      assert forall i :: OccursAt(haystack, needle, i) ==> i > 0 && OccursAt(tail, needle, i - 1) by {
        forall i | OccursAt(haystack, needle, i) ensures i > 0 && OccursAt(tail, needle, i - 1) {
          assert i != 0;
          assert haystack[i..i + |needle|] == tail[i - 1..i - 1 + |needle|];
        }
      }
      r
  }

  /** The empty string is included in every string. */
  lemma IncludesEmpty(haystack: string)
    ensures Includes(haystack, "")
  {
  }

  /** A verbatim occurrence is also an occurrence once both sides are lower-cased. */
  lemma IncludesLowered(haystack: string, needle: string)
    requires Includes(haystack, needle)
    ensures Includes(Lower(haystack), Lower(needle))
  {
    var i :| OccursAt(haystack, needle, i);
    assert Lower(haystack)[i..i + |needle|] == Lower(needle) by {
      forall k | 0 <= k < |needle| ensures Lower(haystack)[i..i + |needle|][k] == Lower(needle)[k] {
        assert haystack[i..i + |needle|][k] == needle[k];
      }
    }
    assert OccursAt(Lower(haystack), Lower(needle), i);
  }

  /** A string containing `a + b` also contains `a`. */
  lemma IncludesPrefix(haystack: string, a: string, b: string)
    requires Includes(haystack, a + b)
    ensures Includes(haystack, a)
  {
  }

  /** Containment is transitive: a string containing `b` contains everything `b` contains. */
  lemma IncludesTransitive(a: string, b: string, c: string)
    requires Includes(a, b) && Includes(b, c)
    ensures Includes(a, c)
  {
  }

  /** `parts.join(sep)`: the parts in order with `sep` between neighbours. */
  function Join(parts: seq<string>, sep: string): (r: string)
    ensures |parts| == 0 ==> r == ""
    ensures |parts| > 0 ==> |r| == TotalLength(parts) + |sep| * (|parts| - 1)
    ensures |parts| > 0 ==> parts[0] <= r
  {
    if |parts| == 0 then ""
    else if |parts| == 1 then parts[0]
    else parts[0] + sep + Join(parts[1..], sep)
  }

  /** The sum of the lengths of `parts`. */
  function TotalLength(parts: seq<string>): nat {
    if |parts| == 0 then 0 else |parts[0]| + TotalLength(parts[1..])
  }

  /** Joining two non-empty lists puts one separator between their joins. */
  lemma {:induction false} JoinAppend(a: seq<string>, b: seq<string>, sep: string)
    requires |a| > 0 && |b| > 0
    ensures Join(a + b, sep) == Join(a, sep) + sep + Join(b, sep)
  {
    if |a| == 1 {
      assert (a + b)[1..] == b;
    } else {
      assert (a + b)[1..] == a[1..] + b;
      JoinAppend(a[1..], b, sep);
    }
  }
}
