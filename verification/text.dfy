/** The part of Python's `str` that a Variant member inherits and that the
    repository relies on: prefix and suffix tests, substring containment and
    substring replacement, in their two-argument forms. A Python string is a
    sequence of code points; here it is a `string`, that is `seq<char>`. */
module Text {

  /** `p` occurs in `s` starting at index `i`. */
  predicate OccursAt(s: string, p: string, i: nat)
  {
    i + |p| <= |s| && s[i..i + |p|] == p
  }

  /** `s.startswith(p)`, compared character by character from the front. */
  predicate StartsWith(s: string, p: string)
    ensures StartsWith(s, p) <==> OccursAt(s, p, 0)
  {
    |p| == 0 || (|s| > 0 && s[0] == p[0] && StartsWith(s[1..], p[1..]))
  }

  /** `s.endswith(p)`, compared character by character from the back. */
  predicate EndsWith(s: string, p: string)
    ensures EndsWith(s, p) <==> |p| <= |s| && OccursAt(s, p, |s| - |p|)
  {
    if |p| == 0 then true
    else if |s| == 0 then false
    else
      var s', p' := s[..|s| - 1], p[..|p| - 1];
      assert p == p' + [p[|p| - 1]];
      assert |p| <= |s| ==> s[|s| - |p|..|s|] == s'[|s'| - |p'|..|s'|] + [s[|s| - 1]];
      s[|s| - 1] == p[|p| - 1] && EndsWith(s', p')
  }

  /** `p in s`: `p` is a prefix of some suffix of `s`. The empty string is
      contained in every string. */
  predicate Contains(s: string, p: string)
    ensures Contains(s, p) <==> exists i: nat :: i <= |s| && OccursAt(s, p, i)
  {
    if |s| == 0 then StartsWith(s, p)
    else
      OccursInTail(s, p);
      StartsWith(s, p) || Contains(s[1..], p)
  }

  /** An occurrence in a non-empty `s` is at index 0 or is an occurrence in
      `s[1..]`, shifted by one. */
  lemma OccursInTail(s: string, p: string)
    requires |s| > 0
    ensures (exists i: nat :: i <= |s| && OccursAt(s, p, i))
        <==> OccursAt(s, p, 0) || exists i: nat :: i <= |s[1..]| && OccursAt(s[1..], p, i)
  {
    forall i: nat | i + 1 + |p| <= |s|
      ensures OccursAt(s[1..], p, i) <==> OccursAt(s, p, i + 1)
    {
      assert s[1..][i..i + |p|] == s[i + 1..i + 1 + |p|];
    }
    if i: nat :| i <= |s| && OccursAt(s, p, i) {
      if i > 0 {
        assert OccursAt(s[1..], p, i - 1);
      }
    }
    if i: nat :| i <= |s[1..]| && OccursAt(s[1..], p, i) {
      assert OccursAt(s, p, i + 1);
    }
  }

  /** The scan behind `p in s`: the lowest index at which `p` occurs, or -1. */
  method Find(s: string, p: string) returns (r: int)
    ensures -1 <= r
    ensures r == -1 <==> !Contains(s, p)
    ensures r >= 0 ==> OccursAt(s, p, r) && forall j: nat :: j < r ==> !OccursAt(s, p, j)
  {
    var i: nat := 0;
    while i + |p| <= |s|
      invariant forall j: nat :: j < i ==> !OccursAt(s, p, j)
      decreases |s| - i
    {
      if s[i..i + |p|] == p {
        assert OccursAt(s, p, i);
        return i;
      }
      i := i + 1;
    }
    return -1;
  }

  /** `p in s`, decided by scanning for the first occurrence. */
  method ContainsText(s: string, p: string) returns (b: bool)
    ensures b <==> exists i: nat :: i <= |s| && OccursAt(s, p, i)
  {
    var r := Find(s, p);
    b := r >= 0;
  }

  /** `s.replace("", sep)`: `sep` before every character and once at the end. */
  function Interleave(s: string, sep: string): (r: string)
    ensures |r| == |s| + (|s| + 1) * |sep|
    ensures |sep| == 0 ==> r == s
  {
    if |s| == 0 then sep
    else
      var rest := Interleave(s[1..], sep);
      assert (|s| + 1) * |sep| == |s| * |sep| + |sep|;
      sep + [s[0]] + rest
  }

  /** Where the characters of `s` sit in `s.replace("", sep)`: with `w` the
      width of one separator and one character, the `i`-th character of `s`
      follows the `i`-th copy of `sep`, at index `i * w + |sep|`. */
  lemma {:induction false} InterleaveCharacters(s: string, sep: string)
    ensures forall i :: 0 <= i < |s| ==>
      i * (|sep| + 1) + |sep| < |Interleave(s, sep)| && Interleave(s, sep)[i * (|sep| + 1) + |sep|] == s[i]
  {
    if |s| > 0 {
      var r, rest, w := Interleave(s, sep), Interleave(s[1..], sep), |sep| + 1;
      InterleaveCharacters(s[1..], sep);
      forall i | 0 < i < |s|
        ensures i * w + |sep| < |r| && r[i * w + |sep|] == s[i]
      {
        NextMultiple(i - 1, w);
        assert s[i] == s[1..][i - 1];
      }
    }
  }

  /** Where the copies of `sep` sit in `s.replace("", sep)`: one starts at every
      multiple of `|sep| + 1`, the last one after the final character. */
  lemma {:induction false} InterleaveSeparators(s: string, sep: string)
    ensures forall i :: 0 <= i <= |s| ==> SeparatorAtGap(Interleave(s, sep), sep, i)
  {
    var r := Interleave(s, sep);
    assert SeparatorAtGap(r, sep, 0);
    if |s| > 0 {
      var rest, w := Interleave(s[1..], sep), |sep| + 1;
      InterleaveSeparators(s[1..], sep);
      forall i | 0 < i <= |s|
        ensures SeparatorAtGap(r, sep, i)
      {
        NextMultiple(i - 1, w);
        assert SeparatorAtGap(rest, sep, i - 1);
        assert r[i * w..i * w + |sep|] == rest[(i - 1) * w..(i - 1) * w + |sep|];
      }
    }
  }

  /** A copy of `sep` starts at the `i`-th gap, index `i * (|sep| + 1)`. */
  predicate SeparatorAtGap(r: string, sep: string, i: nat)
  {
    OccursAt(r, sep, i * (|sep| + 1))
  }

  /** The next multiple of `w` after `j * w`. */
  lemma NextMultiple(j: nat, w: nat)
    ensures (j + 1) * w == j * w + w
  {
  }

  /** `s.replace(target, repl)`: scanning left to right, every occurrence of
      `target` that does not overlap an earlier replaced one becomes `repl`; an
      empty target matches before every character and at the end. A non-empty
      target that does not occur leaves the text unchanged. */
  function Replace(s: string, target: string, repl: string): (r: string)
    ensures |target| > 0 && !Contains(s, target) ==> r == s
    ensures |target| == 0 ==> |r| == |s| + (|s| + 1) * |repl|
    decreases |s|
  {
    if |target| == 0 then Interleave(s, repl)
    else if OccursAt(s, target, 0) then repl + Replace(s[|target|..], target, repl)
    else if |s| == 0 then s
    else
      assert [s[0]] + s[1..] == s;
      [s[0]] + Replace(s[1..], target, repl)
  }

  /** Replacing a target by itself gives back the original text (including the
      empty target). */
  lemma {:induction false} ReplaceSelf(s: string, target: string)
    ensures Replace(s, target, target) == s
    decreases |s|
  {
    if |target| == 0 {
    } else if OccursAt(s, target, 0) {
      ReplaceSelf(s[|target|..], target);
      assert s[..|target|] + s[|target|..] == s;
    } else if |s| > 0 {
      ReplaceSelf(s[1..], target);
      assert [s[0]] + s[1..] == s;
    }
  }

  /** Replacing a whole text, the empty one included, yields the replacement. */
  lemma ReplaceWhole(s: string, repl: string)
    ensures Replace(s, s, repl) == repl
  {
    assert s[|s|..] == "";
  }
}
