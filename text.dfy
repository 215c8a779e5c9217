/** The string operations the name filter uses: `toUpperCase` (over ASCII) and `includes`. */
module Text {

  predicate IsLower(c: char) {
    'a' <= c <= 'z'
  }

  /** ASCII upper-casing of one character; every other character is left alone. */
  function UpperChar(c: char): (u: char)
    ensures !IsLower(u)
    ensures !IsLower(c) ==> u == c
    ensures IsLower(c) ==> u as int + 32 == c as int
  {
    if IsLower(c) then (c as int - 32) as char else c
  }

  /** `s.toUpperCase()`, character by character: the same length, no lower-case letter left,
      each lower-case letter moved down to its capital, every other character kept where it
      was. */
  function Upper(s: string): (r: string)
    ensures |r| == |s|
    ensures forall i :: 0 <= i < |r| ==> !IsLower(r[i])
    ensures forall i :: 0 <= i < |s| && !IsLower(s[i]) ==> r[i] == s[i]
    ensures forall i :: 0 <= i < |s| && IsLower(s[i]) ==> r[i] as int + 32 == s[i] as int
  {
    seq(|s|, i requires 0 <= i < |s| => UpperChar(s[i]))
  }

  /** Upper-casing twice is upper-casing once. */
  lemma UpperIdempotent(s: string)
    ensures Upper(Upper(s)) == Upper(s)
  {
    var u := Upper(s);
    assert forall i :: 0 <= i < |u| ==> Upper(u)[i] == u[i];
  }

  /** Upper-casing commutes with taking a slice. */
  lemma UpperSlice(s: string, i: int, j: int)
    requires 0 <= i <= j <= |s|
    ensures Upper(s[i..j]) == Upper(s)[i..j]
  {
    var a, b := Upper(s[i..j]), Upper(s)[i..j];
    assert forall k :: 0 <= k < j - i ==> a[k] == b[k];
  }

  /** `needle` occurs in `hay` starting at position `i`. */
  ghost predicate OccursAt(hay: string, needle: string, i: int) {
    0 <= i && i + |needle| <= |hay| && hay[i..i + |needle|] == needle
  }

  /** `hay.includes(needle)`: a left-to-right scan of the start positions. */
  function Includes(hay: string, needle: string): (b: bool)
    ensures b ==> |needle| <= |hay|
    ensures |hay| == |needle| ==> (b <==> hay == needle)
    decreases |hay|
  {
    if |hay| < |needle| then false
    else if hay[..|needle|] == needle then true
    else Includes(hay[1..], needle)
  }

  /** The scan answers true exactly when the needle occurs somewhere in the haystack. */
  lemma {:induction false} IncludesIff(hay: string, needle: string)
    ensures Includes(hay, needle) <==> exists i :: OccursAt(hay, needle, i)
    decreases |hay|
  {
    if |hay| < |needle| {
    } else if hay[..|needle|] == needle {
      assert OccursAt(hay, needle, 0);
    } else {
      IncludesIff(hay[1..], needle);
      if Includes(hay[1..], needle) {
        var i :| OccursAt(hay[1..], needle, i);
        assert hay[1..][i..i + |needle|] == hay[i + 1..i + 1 + |needle|];
        assert OccursAt(hay, needle, i + 1);
      }
      if exists i :: OccursAt(hay, needle, i) {
        var i :| OccursAt(hay, needle, i);
        assert i != 0;
        assert hay[1..][i - 1..i - 1 + |needle|] == hay[i..i + |needle|];
        assert OccursAt(hay[1..], needle, i - 1);
      }
    }
  }

  /** The stretch of `hay` starting at `i` equals `needle` up to case. */
  ghost predicate OccursAtIgnoringCase(hay: string, needle: string, i: int) {
    0 <= i && i + |needle| <= |hay| && Upper(hay[i..i + |needle|]) == Upper(needle)
  }

  /** Searching upper-cased text for upper-cased text finds a match exactly when some stretch
      of the text equals the needle up to case. */
  lemma UpperIncludesIff(hay: string, needle: string)
    ensures Includes(Upper(hay), Upper(needle)) <==> exists i :: OccursAtIgnoringCase(hay, needle, i)
  {
    IncludesIff(Upper(hay), Upper(needle));
    if Includes(Upper(hay), Upper(needle)) {
      var i :| OccursAt(Upper(hay), Upper(needle), i);
      UpperSlice(hay, i, i + |needle|);
      assert OccursAtIgnoringCase(hay, needle, i);
    }
    if exists i :: OccursAtIgnoringCase(hay, needle, i) {
      var i :| OccursAtIgnoringCase(hay, needle, i);
      UpperSlice(hay, i, i + |needle|);
      assert OccursAt(Upper(hay), Upper(needle), i);
    }
  }

  /** A found position is a witness for `Includes`. */
  lemma IncludesAt(hay: string, needle: string, i: int)
    requires OccursAt(hay, needle, i)
    ensures Includes(hay, needle)
  {
    IncludesIff(hay, needle);
  }

  /** The empty string is included in every string. */
  lemma {:induction false} IncludesEmpty(hay: string)
    ensures Includes(hay, "")
  {
    assert hay[..0] == "";
  }

  /** Text included in a suffix is included in the whole (used to read a needle off the
      back part of a concatenation). */
  lemma IncludesInConcat(a: string, b: string, c: string, needle: string)
    requires Includes(b, needle)
    ensures Includes(a + b + c, needle)
  {
    IncludesIff(b, needle);
    var i :| OccursAt(b, needle, i);
    var s := a + b + c;
    assert s[|a| + i..|a| + i + |needle|] == b[i..i + |needle|];
    IncludesAt(s, needle, |a| + i);
  }

  /** Every string includes itself. */
  lemma IncludesSelf(s: string)
    ensures Includes(s, s)
  {
    assert s[..|s|] == s;
  }
}
