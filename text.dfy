/** The string tests behind the `contains` and `icontains` lookups. Database
    collation is not modelled: `contains` is an exact substring test and
    `icontains` folds ASCII letters only. */
module Text {

  /** `needle` occurs in `hay` as a contiguous substring. */
  predicate Contains(hay: string, needle: string)
    decreases |hay|
  {
    needle <= hay || (|hay| > 0 && Contains(hay[1..], needle))
  }

  /** `Contains` holds exactly when `needle` starts at some position of `hay`. */
  lemma {:induction false} ContainsAt(hay: string, needle: string)
    ensures Contains(hay, needle) <==> exists i :: 0 <= i <= |hay| && needle <= hay[i..]
    decreases |hay|
  {
    if needle <= hay {
      assert needle <= hay[0..];
    } else if |hay| > 0 {
      ContainsAt(hay[1..], needle);
      if exists i :: 0 <= i <= |hay| && needle <= hay[i..] {
        var i :| 0 <= i <= |hay| && needle <= hay[i..];
        assert i > 0;
        assert hay[1..][i - 1..] == hay[i..];
      }
      if Contains(hay[1..], needle) {
        var j :| 0 <= j <= |hay[1..]| && needle <= hay[1..][j..];
        assert hay[1..][j..] == hay[j + 1..];
      }
    } else {
      assert hay[0..] == hay;
    }
  }

  /** ASCII lower-casing: the result is never an upper-case letter, and a
      character that is not one is kept. */
  function LowerChar(c: char): (d: char)
    ensures !('A' <= d <= 'Z')
    ensures !('A' <= c <= 'Z') ==> d == c
  {
    if 'A' <= c <= 'Z' then (c as int - 'A' as int + 'a' as int) as char else c
  }

  /** Folding keeps the length and leaves no upper-case letter. */
  function Lower(s: string): (r: string)
    ensures |r| == |s|
    ensures forall i :: 0 <= i < |r| ==> !('A' <= r[i] <= 'Z')
  {
    seq(|s|, i requires 0 <= i < |s| => LowerChar(s[i]))
  }

  /** Folding a character twice is folding it once. */
  lemma LowerCharIdempotent(c: char)
    ensures LowerChar(LowerChar(c)) == LowerChar(c)
  {
  }

  /** A folded string is its own fold. */
  lemma LowerIdempotent(s: string)
    ensures Lower(Lower(s)) == Lower(s)
  {
  }

  /** Case-insensitive substring test. */
  predicate IContains(hay: string, needle: string)
  {
    Contains(Lower(hay), Lower(needle))
  }

  /** `icontains` ignores the case of the search term. */
  lemma IContainsIgnoresNeedleCase(hay: string, needle: string)
    ensures IContains(hay, Lower(needle)) == IContains(hay, needle)
  {
    LowerIdempotent(needle);
  }

  lemma {:induction false} LowerPrefix(a: string, b: string)
    requires a <= b
    ensures Lower(a) <= Lower(b)
  {
    assert Lower(a) == Lower(b)[..|a|];
  }

  lemma {:induction false} LowerSuffix(s: string, i: nat)
    requires i <= |s|
    ensures Lower(s)[i..] == Lower(s[i..])
  {
  }

  /** An exact occurrence is also a case-insensitive one. */
  lemma ContainsImpliesIContains(hay: string, needle: string)
    requires Contains(hay, needle)
    ensures IContains(hay, needle)
  {
    ContainsAt(hay, needle);
    var i :| 0 <= i <= |hay| && needle <= hay[i..];
    LowerPrefix(needle, hay[i..]);
    LowerSuffix(hay, i);
    ContainsAt(Lower(hay), Lower(needle));
  }
}
