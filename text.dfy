/**
 * Text helpers used by the library: the lower-casing that Python's `str.lower()`
 * performs on the letters A-Z, and Python's substring test `needle in hay`.
 */
module Text {

  /** Lower-cases one ASCII capital letter; every other character is kept. */
  function LowerChar(c: char): (d: char)
    ensures !('A' <= d <= 'Z')
    ensures 'A' <= c <= 'Z' ==> 'a' <= d <= 'z' && d as int - 'a' as int == c as int - 'A' as int
    ensures !('A' <= c <= 'Z') ==> d == c
  {
    if 'A' <= c <= 'Z' then (c as int - 'A' as int + 'a' as int) as char else c
  }

  /** `s.lower()`, restricted to the ASCII capital letters. */
  function Lower(s: string): (r: string)
    ensures |r| == |s|
    ensures forall i :: 0 <= i < |r| ==> !('A' <= r[i] <= 'Z')
    ensures forall i :: 0 <= i < |r| ==> !('A' <= s[i] <= 'Z') ==> r[i] == s[i]
  {
    seq(|s|, i requires 0 <= i < |s| => LowerChar(s[i]))
  }

  /** Lower-casing twice is lower-casing once. */
  lemma LowerIdempotent(s: string)
    ensures Lower(Lower(s)) == Lower(s)
  {
    assert forall i :: 0 <= i < |s| ==> LowerChar(Lower(s)[i]) == Lower(s)[i];
  }

  /** Python's `needle in hay` for strings: `needle` occurs in `hay` as a block of consecutive characters. */
  predicate Contains(hay: string, needle: string)
    decreases |hay|
  {
    needle <= hay || (hay != [] && Contains(hay[1..], needle))
  }

  /** The recursive test agrees with the positional reading: `needle` starts at some index of `hay`. */
  lemma {:induction false} ContainsAt(hay: string, needle: string)
    ensures Contains(hay, needle) <==> exists i :: 0 <= i <= |hay| && needle <= hay[i..]
  {
    if hay == [] {
      assert hay[0..] == hay;
    } else {
      ContainsAt(hay[1..], needle);
      if Contains(hay, needle) {
        if needle <= hay {
          assert hay[0..] == hay;
        } else {
          var j :| 0 <= j <= |hay[1..]| && needle <= hay[1..][j..];
          assert hay[1..][j..] == hay[j + 1..];
        }
      } else {
        forall i | 0 <= i <= |hay|
          ensures !(needle <= hay[i..])
        {
          if i == 0 {
            assert hay[0..] == hay;
          } else {
            assert hay[1..][i - 1..] == hay[i..];
          }
        }
      }
    }
  }

  /** A non-empty needle that occurs in `hay` has its first character in `hay`. */
  lemma {:induction false} ContainsFirstChar(hay: string, needle: string)
    requires needle != [] && Contains(hay, needle)
    ensures needle[0] in hay && |needle| <= |hay|
  {
    if !(needle <= hay) {
      ContainsFirstChar(hay[1..], needle);
    }
  }
}
