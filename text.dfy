/** The Python string methods the board extraction relies on, restricted to
    ASCII: `str.strip()` with no argument, `str.lower()` and `str.startswith`. */
module Text {

  /** Python's `str.isspace` on ASCII characters: tab, line feed, vertical tab,
      form feed and carriage return (9-13), the four information separators
      (28-31) and space (32). */
  predicate IsSpace(c: char) {
    9 <= c as int <= 13 || 28 <= c as int <= 32
  }

  predicate IsUpper(c: char) {
    'A' <= c <= 'Z'
  }

  /** Every character of `s` is whitespace (true of the empty string). */
  predicate AllSpace(s: string) {
    forall i :: 0 <= i < |s| ==> IsSpace(s[i])
  }

  /** `s` neither starts nor ends with whitespace: the shape `str.strip` leaves. */
  predicate Trimmed(s: string) {
    s == [] || (!IsSpace(s[0]) && !IsSpace(s[|s| - 1]))
  }

  predicate NoUpper(s: string) {
    forall i :: 0 <= i < |s| ==> !IsUpper(s[i])
  }

  predicate NoWhitespace(s: string) {
    forall i :: 0 <= i < |s| ==> !IsSpace(s[i])
  }

  /** The only whitespace `s` holds, if any, is the plain space `' '`. */
  predicate OnlyPlainSpaces(s: string) {
    forall i :: 0 <= i < |s| && IsSpace(s[i]) ==> s[i] == ' '
  }

  /** The number of whitespace characters `str.lstrip` would remove. */
  function LeadingSpaces(s: string): (n: nat)
    ensures n <= |s|
    ensures forall i :: 0 <= i < n ==> IsSpace(s[i])
    ensures n < |s| ==> !IsSpace(s[n])
  {
    if |s| == 0 || !IsSpace(s[0]) then 0 else 1 + LeadingSpaces(s[1..])
  }

  /** The number of whitespace characters `str.rstrip` would remove. */
  function TrailingSpaces(s: string): (n: nat)
    ensures n <= |s|
    ensures forall i :: |s| - n <= i < |s| ==> IsSpace(s[i])
    ensures n < |s| ==> !IsSpace(s[|s| - 1 - n])
  {
    if |s| == 0 || !IsSpace(s[|s| - 1]) then 0 else 1 + TrailingSpaces(s[..|s| - 1])
  }

  /** `s.strip()`: `s` without its leading and trailing whitespace. */
  function Strip(s: string): (r: string)
    ensures Trimmed(r)
    ensures |r| <= |s|
  {
    var lo := LeadingSpaces(s);
    if lo == |s| then [] else s[lo..|s| - TrailingSpaces(s)]
  }

  /** `s` is `Strip(s)` with whitespace on both sides. */
  lemma StripParts(s: string) returns (w1: string, w2: string)
    ensures AllSpace(w1) && AllSpace(w2)
    ensures s == w1 + Strip(s) + w2
  {
    var lo := LeadingSpaces(s);
    if lo == |s| {
      w1, w2 := s, [];
      assert s == w1 + [] + w2;
    } else {
      var hi := |s| - TrailingSpaces(s);
      w1, w2 := s[..lo], s[hi..];
      assert s == w1 + s[lo..hi] + w2 by {
        SliceThree(s, lo, hi);
      }
    }
  }

  lemma SliceThree<T>(s: seq<T>, lo: int, hi: int)
    requires 0 <= lo <= hi <= |s|
    ensures s == s[..lo] + s[lo..hi] + s[hi..]
  {
  }

  /** Whatever whitespace surrounds a trimmed string, stripping gives that
      string back: `Strip` is determined by its postcondition. */
  lemma {:induction false} StripOfPadded(w1: string, r: string, w2: string)
    requires AllSpace(w1) && AllSpace(w2) && Trimmed(r)
    ensures Strip(w1 + r + w2) == r
  {
    var s := w1 + r + w2;
    var lo := LeadingSpaces(s);
    if r == [] {
      assert forall i :: 0 <= i < |s| ==> IsSpace(s[i]) by {
        forall i | 0 <= i < |s| ensures IsSpace(s[i]) {
          if i < |w1| { assert s[i] == w1[i]; } else { assert s[i] == w2[i - |w1|]; }
        }
      }
      assert lo == |s|;
    } else {
      assert s[|w1|] == r[0];
      assert lo == |w1|;
      var hi := TrailingSpaces(s);
      assert s[|s| - 1 - |w2|] == r[|r| - 1];
      assert hi == |w2|;
      assert s[lo..|s| - hi] == r;
    }
  }

  /** Stripping twice is stripping once. */
  lemma StripIdempotent(s: string)
    ensures Strip(Strip(s)) == Strip(s)
  {
    StripOfPadded([], Strip(s), []);
    assert [] + Strip(s) + [] == Strip(s);
  }

  lemma AllSpaceConcat(u: string, v: string)
    requires AllSpace(u) && AllSpace(v)
    ensures AllSpace(u + v)
  {
    forall i | 0 <= i < |u + v| ensures IsSpace((u + v)[i]) {
      if i >= |u| { assert (u + v)[i] == v[i - |u|]; }
    }
  }

  /** Whitespace added on either side of a string does not change what
      stripping it gives. */
  lemma {:induction false} StripPadded(w1: string, x: string, w2: string)
    requires AllSpace(w1) && AllSpace(w2)
    ensures Strip(w1 + x + w2) == Strip(x)
  {
    var r := Strip(x);
    var xl, xr := StripParts(x);
    var left, right := w1 + xl, xr + w2;
    assert AllSpace(left) && AllSpace(right) by {
      AllSpaceConcat(w1, xl);
      AllSpaceConcat(xr, w2);
    }
    assert w1 + x + w2 == left + r + right by {
      Reassociate(w1, xl, r, xr, w2);
    }
    StripOfPadded(left, r, right);
  }

  lemma Reassociate<T>(a: seq<T>, b: seq<T>, c: seq<T>, d: seq<T>, e: seq<T>)
    ensures a + (b + c + d) + e == (a + b) + c + (d + e)
  {
  }

  /** A slice of the middle part of `a + b + c`, counted from `k` in `b`. */
  lemma MiddleSlice<T>(a: seq<T>, b: seq<T>, c: seq<T>, k: nat)
    requires k <= |b|
    ensures b[k..] == (a + b + c)[|a| + k..|a| + |b|]
  {
  }

  /** Python's `lower()` on one ASCII character. */
  function Lower(c: char): (r: char)
    ensures !IsUpper(r)
    ensures IsSpace(r) <==> IsSpace(c)
    ensures IsUpper(c) ==> r as int == c as int + 32
    ensures !IsUpper(c) ==> r == c
  {
    if IsUpper(c) then (c as int + 32) as char else c
  }

  /** `s.lower()`: each character lower-cased in place. */
  function LowerStr(s: string): (r: string)
    ensures |r| == |s|
    ensures forall i :: 0 <= i < |s| ==> r[i] == Lower(s[i])
    ensures NoUpper(r)
  {
    if s == [] then [] else [Lower(s[0])] + LowerStr(s[1..])
  }

  /** Lower-casing leaves a string without capitals unchanged, so it is idempotent. */
  lemma LowerStrNoUpper(s: string)
    requires NoUpper(s)
    ensures LowerStr(s) == s
  {
  }

  /** Lower-casing keeps a string trimmed. */
  lemma LowerStrTrimmed(s: string)
    requires Trimmed(s)
    ensures Trimmed(LowerStr(s))
  {
  }

  /** `s.startswith(p)`. */
  predicate StartsWith(s: string, p: string) {
    |p| <= |s| && s[..|p|] == p
  }
}
