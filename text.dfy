/** The string trimming that `Expression::from_str` applies on entry:
    `trim_matches(&[' ', '\n', '\r', '\t'])` removes every leading and every
    trailing space, line feed, carriage return and tab. */
module Text {

  /** The four characters `from_str` trims. */
  predicate IsTrimChar(c: char) {
    c == ' ' || c == '\n' || c == '\r' || c == '\t'
  }

  predicate AllTrimChars(s: string) {
    forall k :: 0 <= k < |s| ==> IsTrimChar(s[k])
  }

  /** The first index at or after `a` that does not hold a trim character,
      or `|s|` if there is none. */
  function SkipLeading(s: string, a: nat): (r: nat)
    requires a <= |s|
    ensures a <= r <= |s|
    ensures forall k :: a <= k < r ==> IsTrimChar(s[k])
    ensures r == |s| || !IsTrimChar(s[r])
    decreases |s| - a
  {
    if a < |s| && IsTrimChar(s[a]) then SkipLeading(s, a + 1) else a
  }

  /** One past the last index before `b` (and not before `a`) that does not
      hold a trim character, or `a` if there is none. */
  function SkipTrailing(s: string, a: nat, b: nat): (r: nat)
    requires a <= b <= |s|
    ensures a <= r <= b
    ensures forall k :: r <= k < b ==> IsTrimChar(s[k])
    ensures r == a || !IsTrimChar(s[r - 1])
    decreases b - a
  {
    if a < b && IsTrimChar(s[b - 1]) then SkipTrailing(s, a, b - 1) else b
  }

  /** `trim_matches` on both ends: the slice between the first and the last
      character that is not a trim character. */
  function Trim(s: string): (r: string)
    ensures |r| <= |s|
    ensures r == [] || (!IsTrimChar(r[0]) && !IsTrimChar(r[|r| - 1]))
  {
    var a := SkipLeading(s, 0);
    s[a..SkipTrailing(s, a, |s|)]
  }

  /** The result of `Trim` is a slice `s[a..b]` of the input, and only trim
      characters are cut away on either side of it. */
  lemma TrimSlice(s: string)
    ensures exists a, b :: 0 <= a <= b <= |s| && Trim(s) == s[a..b]
                           && AllTrimChars(s[..a]) && AllTrimChars(s[b..])
  {
    var a := SkipLeading(s, 0);
    var b := SkipTrailing(s, a, |s|);
    assert AllTrimChars(s[..a]) && AllTrimChars(s[b..]);
  }

  /** `SkipLeading` stops at the first index that is not a trim character. */
  lemma SkipLeadingAt(s: string, a: nat, c: nat)
    requires a <= c <= |s|
    requires forall k :: a <= k < c ==> IsTrimChar(s[k])
    requires c == |s| || !IsTrimChar(s[c])
    ensures SkipLeading(s, a) == c
  {
  }

  /** `SkipTrailing` stops after the last index that is not a trim character. */
  lemma SkipTrailingAt(s: string, a: nat, b: nat, c: nat)
    requires a <= c <= b <= |s|
    requires forall k :: c <= k < b ==> IsTrimChar(s[k])
    requires c == a || !IsTrimChar(s[c - 1])
    ensures SkipTrailing(s, a, b) == c
  {
  }

  /** Trimming ignores any whitespace (of the four kinds) added on either side. */
  lemma TrimSurrounded(w1: string, s: string, w2: string)
    requires AllTrimChars(w1) && AllTrimChars(w2)
    ensures Trim(w1 + s + w2) == Trim(s)
  {
    var a := SkipLeading(s, 0);
    var b := SkipTrailing(s, a, |s|);
    LeadingSurrounded(w1, s, w2);
    if a < |s| {
      TrailingSurrounded(w1, s, w2);
      SliceSurrounded(w1, s, w2, a, b);
    }
  }

  lemma SliceSurrounded(w1: string, s: string, w2: string, a: nat, b: nat)
    requires a <= b <= |s|
    ensures (w1 + s + w2)[|w1| + a..|w1| + b] == s[a..b]
  {
    assert w1 + s + w2 == w1 + (s + w2);
  }

  lemma LeadingSurrounded(w1: string, s: string, w2: string)
    requires AllTrimChars(w1) && AllTrimChars(w2)
    ensures var a := SkipLeading(s, 0);
            SkipLeading(w1 + s + w2, 0) == if a == |s| then |w1 + s + w2| else |w1| + a
  {
    var u := w1 + s + w2;
    var a := SkipLeading(s, 0);
    var c := if a == |s| then |u| else |w1| + a;
    forall k | 0 <= k < c
      ensures IsTrimChar(u[k])
    {
      if k < |w1| {
        assert u[k] == w1[k];
      } else if k < |w1| + |s| {
        assert u[k] == s[k - |w1|];
      } else {
        assert u[k] == w2[k - |w1| - |s|];
      }
    }
    if a < |s| {
      assert u[c] == s[a];
    }
    SkipLeadingAt(u, 0, c);
  }

  lemma TrailingSurrounded(w1: string, s: string, w2: string)
    requires AllTrimChars(w1) && AllTrimChars(w2)
    requires SkipLeading(s, 0) < |s|
    ensures var a := SkipLeading(s, 0);
            SkipTrailing(w1 + s + w2, |w1| + a, |w1 + s + w2|) == |w1| + SkipTrailing(s, a, |s|)
  {
    var u := w1 + s + w2;
    var a := SkipLeading(s, 0);
    var b := SkipTrailing(s, a, |s|);
    forall k | |w1| + b <= k < |u|
      ensures IsTrimChar(u[k])
    {
      if k < |w1| + |s| {
        assert u[k] == s[k - |w1|];
      } else {
        assert u[k] == w2[k - |w1| - |s|];
      }
    }
    assert b > a;
    assert u[|w1| + b - 1] == s[b - 1];
    SkipTrailingAt(u, |w1| + a, |u|, |w1| + b);
  }

  /** A string that neither starts nor ends with a trim character is its own trim. */
  lemma TrimKeeps(s: string)
    requires s == [] || (!IsTrimChar(s[0]) && !IsTrimChar(s[|s| - 1]))
    ensures Trim(s) == s
  {
    SkipLeadingAt(s, 0, 0);
    SkipTrailingAt(s, 0, |s|, |s|);
  }

  /** Trimming a second time changes nothing. */
  lemma TrimIdempotent(s: string)
    ensures Trim(Trim(s)) == Trim(s)
  {
    TrimKeeps(Trim(s));
  }
}
