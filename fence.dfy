/** The first clean-up stage of `extract_board`: cutting the model's reply down
    to the text handed to the JSON parser (main.py lines 78-84). If the reply
    holds a Markdown code fence, only the piece after the first fence is kept
    (up to the next fence or the end); a `json` language tag at the start of
    that piece is dropped; and the result is stripped of surrounding
    whitespace. */
module Fence {
  import opened Wrappers
  import opened Text

  /** The Markdown code-fence delimiter. */
  const FENCE: string := "```"

  /** A fence starts at index `i` of `s`. */
  predicate FenceAt(s: string, i: int) {
    0 <= i && i + 3 <= |s| && s[i] == '`' && s[i + 1] == '`' && s[i + 2] == '`'
  }

  /** Python's `"```" in s`. */
  predicate HasFence(s: string) {
    exists i :: 0 <= i < |s| && FenceAt(s, i)
  }

  lemma FenceAtMeansFence(s: string, i: int)
    requires 0 <= i && i + 3 <= |s|
    ensures FenceAt(s, i) <==> s[i..i + 3] == FENCE
  {
    if s[i..i + 3] == FENCE {
      assert s[i..i + 3][0] == s[i] && s[i..i + 3][1] == s[i + 1] && s[i..i + 3][2] == s[i + 2];
    }
  }

  /** The index of the first fence of `s` at or after `from`, as Python's
      `s.find("```", from)` finds it, or `None` when there is none. */
  function FindFence(s: string, from: nat): (r: Option<nat>)
    requires from <= |s|
    ensures r.Some? ==> from <= r.value && FenceAt(s, r.value)
    ensures forall j :: from <= j && (r.None? || j < r.value) ==> !FenceAt(s, j)
    decreases |s| - from
  {
    if from + 3 > |s| then None
    else if FenceAt(s, from) then Some(from)
    else FindFence(s, from + 1)
  }

  /** A piece of a string that has no fence has none either. */
  lemma NoFenceInSlice(s: string, lo: int, hi: int)
    requires 0 <= lo <= hi <= |s|
    requires forall j :: lo <= j && j + 3 <= hi ==> !FenceAt(s, j)
    ensures !HasFence(s[lo..hi])
  {
    var t := s[lo..hi];
    forall j | 0 <= j < |t| ensures !FenceAt(t, j) {
      assert FenceAt(t, j) ==> FenceAt(s, lo + j);
    }
  }

  /** `sep.join(parts)` with `sep` the fence. */
  function JoinOnFence(parts: seq<string>): string
    requires |parts| >= 1
  {
    if |parts| == 1 then parts[0] else parts[0] + FENCE + JoinOnFence(parts[1..])
  }

  /** Python's `s.split("```")`: the pieces between successive fences, found
      from left to right without overlap. Joining them back with the fence
      gives `s`, no piece holds a fence, there is one piece exactly when `s`
      has no fence, and each separator is the leftmost fence after the piece
      before it (no fence starts inside a piece followed by the separator). */
  function SplitOnFence(s: string): (parts: seq<string>)
    ensures |parts| >= 1
    ensures JoinOnFence(parts) == s
    ensures forall k :: 0 <= k < |parts| ==> !HasFence(parts[k])
    ensures |parts| == 1 <==> !HasFence(s)
    ensures forall k :: 0 <= k < |parts| - 1 ==>
      forall j :: 0 <= j < |parts[k]| ==> !FenceAt(parts[k] + FENCE, j)
    decreases |s|
  {
    match FindFence(s, 0)
    case None =>
      NoFenceInSlice(s, 0, |s|);
      assert s[0..|s|] == s;
      [s]
    case Some(i) =>
      NoFenceInSlice(s, 0, i);
      var rest := SplitOnFence(s[i + 3..]);
      var parts := [s[..i]] + rest;
      assert parts[1..] == rest;
      assert s[..i] + FENCE + s[i + 3..] == s by {
        FenceAtMeansFence(s, i);
        assert s == s[..i] + s[i..i + 3] + s[i + 3..];
      }
      assert s[0..i] == s[..i];
      assert s[..i] + FENCE == s[..i + 3] by {
        FenceAtMeansFence(s, i);
      }
      forall j | 0 <= j < i ensures !FenceAt(s[..i] + FENCE, j) {
        assert FenceAt(s[..i + 3], j) ==> FenceAt(s, j);
      }
      parts
  }

  /** The index of the first fence of a reply that has one. */
  function FirstFence(s: string): (i: nat)
    requires HasFence(s)
    ensures FenceAt(s, i)
    ensures forall j :: 0 <= j < i ==> !FenceAt(s, j)
  {
    FindFence(s, 0).value
  }

  /** `raw_content.split("```")[1]` (main.py line 79): the text after the first
      fence, up to the next fence or, if there is no other, to the end. */
  function FencePiece(s: string): (p: string)
    requires HasFence(s)
    ensures !HasFence(p)
    ensures var rest := s[FirstFence(s) + 3..];
      && |p| <= |rest| && p == rest[..|p|]
      && (forall j :: 0 <= j < |p| ==> !FenceAt(rest, j))
      && (p == rest || FenceAt(rest, |p|))
  {
    var parts := SplitOnFence(s);
    var i := FirstFence(s);
    var rest := s[i + 3..];
    assert FindFence(s, 0) == Some(i);
    assert parts == [s[..i]] + SplitOnFence(rest);
    match FindFence(rest, 0)
    case None =>
      assert SplitOnFence(rest) == [rest];
      parts[1]
    case Some(j) =>
      assert SplitOnFence(rest)[0] == rest[..j];
      parts[1]
  }

  /** Stripping, and then dropping a prefix, never creates a fence. */
  lemma NoFenceInStripped(p: string, k: nat)
    requires !HasFence(p) && k <= |Strip(p)|
    ensures !HasFence(Strip(p)[k..])
  {
    var t := Strip(p);
    var w1, w2 := StripParts(p);
    assert t[k..] == p[|w1| + k..|w1| + |t|] by {
      MiddleSlice(w1, t, w2, k);
    }
    NoFenceInSlice(p, |w1| + k, |w1| + |t|);
  }

  /** Lines 80-81: if the piece, once stripped, starts with `json`, it is
      replaced by the stripped piece without those four characters; otherwise
      it is kept as it is. */
  function DropJsonTag(p: string): (r: string)
    ensures StartsWith(Strip(p), "json") ==> "json" + r == Strip(p)
    ensures !StartsWith(Strip(p), "json") ==> r == p
    ensures !HasFence(p) ==> !HasFence(r)
  {
    var t := Strip(p);
    if StartsWith(t, "json") then
      assert !HasFence(p) ==> !HasFence(t[4..]) by {
        if !HasFence(p) {
          NoFenceInStripped(p, 4);
        }
      }
      assert "json" + t[4..] == t;
      t[4..]
    else
      p
  }

  /** The value of `raw_content` after lines 78-81. */
  function Unfence(raw: string): (r: string)
    ensures !HasFence(raw) ==> r == raw
    ensures !HasFence(r)
  {
    if HasFence(raw) then DropJsonTag(FencePiece(raw)) else raw
  }

  /** The text `json.loads` receives at line 84. */
  function ParserInput(raw: string): (r: string)
    ensures Trimmed(r)
    ensures !HasFence(r)
    ensures !HasFence(raw) ==> r == Strip(raw)
  {
    var u := Unfence(raw);
    assert !HasFence(Strip(u)) by {
      NoFenceInStripped(u, 0);
      assert Strip(u)[0..] == Strip(u);
    }
    Strip(u)
  }

  /** `s` holds no backtick at all. */
  predicate NoBacktick(s: string) {
    forall i :: 0 <= i < |s| ==> s[i] != '`'
  }

  /** Text without backticks on both sides of a fence-free string cannot
      complete a fence with it. */
  lemma NoFenceJoin(u: string, v: string, w: string)
    requires NoBacktick(u) && !HasFence(v) && NoBacktick(w)
    ensures !HasFence(u + v + w)
  {
    var t := u + v + w;
    forall j | 0 <= j < |t| ensures !FenceAt(t, j) {
      if |u| <= j && j + 2 < |u| + |v| {
        assert FenceAt(t, j) ==> FenceAt(v, j - |u|);
      }
    }
  }

  /** A reply that opens with a fence keeps exactly the fence-free text up to
      the second fence, provided that text does not end in a backtick (which
      would start the second fence earlier). */
  lemma {:induction false} FencePieceOf(p: string, tail: string)
    requires !HasFence(p) && (p == [] || p[|p| - 1] != '`')
    ensures HasFence(FENCE + p + FENCE + tail)
    ensures FencePiece(FENCE + p + FENCE + tail) == p
  {
    var s := FENCE + p + FENCE + tail;
    assert FenceAt(s, 0);
    var i := FirstFence(s);
    assert i == 0;
    var rest := s[3..];
    assert rest == p + FENCE + tail;
    assert FenceAt(rest, |p|);
    forall j | 0 <= j < |p| ensures !FenceAt(rest, j) {
      if j + 3 <= |p| {
        assert FenceAt(rest, j) ==> FenceAt(p, j);
      }
    }
    var q := FencePiece(s);
    assert |q| == |p|;
    assert q == rest[..|p|] == p;
  }

  /** Stripping a piece that reads `json` then the payload, with whitespace
      around, leaves the tag followed by text that strips to the payload. */
  lemma {:induction false} StripTagged(a: string, x: string, b: string) returns (rest: string)
    requires AllSpace(a) && AllSpace(b)
    ensures Strip(a + "json" + x + b) == "json" + rest
    ensures Strip(rest) == Strip(x)
  {
    var xl, xr := StripParts(x);
    var sx := Strip(x);
    assert x == xl + sx + xr;
    if sx == [] {
      StripTaggedBlank(a, xl, xr, b);
      rest := "";
      assert "json" + rest == "json";
    } else {
      StripTaggedPayload(a, xl, sx, xr, b);
      rest := xl + sx;
      StripOfPadded(xl, sx, []);
      assert xl + sx + [] == rest;
    }
  }

  lemma StripTaggedBlank(a: string, xl: string, xr: string, b: string)
    requires AllSpace(a) && AllSpace(xl) && AllSpace(xr) && AllSpace(b)
    ensures Strip(a + "json" + (xl + [] + xr) + b) == "json"
  {
    AllSpaceConcat(xl, xr);
    AllSpaceConcat(xl + xr, b);
    assert a + "json" + (xl + [] + xr) + b == a + "json" + (xl + xr + b);
    StripOfPadded(a, "json", xl + xr + b);
  }

  lemma StripTaggedPayload(a: string, xl: string, sx: string, xr: string, b: string)
    requires AllSpace(a) && AllSpace(xl) && AllSpace(xr) && AllSpace(b)
    requires Trimmed(sx) && sx != []
    ensures Strip(a + "json" + (xl + sx + xr) + b) == "json" + (xl + sx)
  {
    AllSpaceConcat(xr, b);
    var m := "json" + (xl + sx);
    assert m[0] == 'j';
    assert m[|m| - 1] == sx[|sx| - 1];
    assert a + "json" + (xl + sx + xr) + b == a + m + (xr + b);
    StripOfPadded(a, m, xr + b);
  }

  /** A fenced reply with a `json` tag, as the model is prone to send it:
      whatever whitespace stands around the tag and the payload, and whatever
      follows the closing fence, the parser sees the payload stripped. */
  lemma {:induction false} FencedWithTag(a: string, x: string, b: string, tail: string)
    requires AllSpace(a) && !HasFence(x) && AllSpace(b) && b != []
    ensures ParserInput(FENCE + a + "json" + x + b + FENCE + tail) == Strip(x)
  {
    var p := a + "json" + x + b;
    NoFenceJoin(a + "json", x, b);
    assert FENCE + a + "json" + x + b + FENCE + tail == FENCE + p + FENCE + tail;
    FencePieceOf(p, tail);
    var rest := StripTagged(a, x, b);
    var r := DropJsonTag(p);
    assert "json" + r == "json" + rest;
    assert r == ("json" + r)[4..] == ("json" + rest)[4..] == rest;
  }

  /** A fenced reply without a tag: the payload is kept, stripped, unless the
      stripped payload itself starts with `json`. */
  lemma {:induction false} FencedWithoutTag(a: string, x: string, b: string, tail: string)
    requires AllSpace(a) && !HasFence(x) && AllSpace(b) && b != []
    requires !StartsWith(Strip(x), "json")
    ensures ParserInput(FENCE + a + x + b + FENCE + tail) == Strip(x)
  {
    var p := a + x + b;
    NoFenceJoin(a, x, b);
    assert FENCE + a + x + b + FENCE + tail == FENCE + p + FENCE + tail;
    FencePieceOf(p, tail);
    StripPadded(a, x, b);
    assert DropJsonTag(p) == p;
  }

  /** The fence round trip: wrapping a fence-free reply in a ```json fence
      does not change the text the parser receives. */
  lemma FenceRoundTrip(x: string)
    requires !HasFence(x)
    ensures ParserInput(FENCE + "json\n" + x + "\n" + FENCE) == ParserInput(x) == Strip(x)
  {
    var y := "\n" + x;
    assert !HasFence(y) by {
      NoFenceJoin("\n", x, "");
      assert "\n" + x + "" == y;
    }
    FencedWithTag("", y, "\n", "");
    RoundTripShape(x);
    assert Strip(y) == Strip(x) by {
      StripPadded("\n", x, "");
      assert "\n" + x + "" == y;
    }
  }

  /** The fenced reply of `FenceRoundTrip` in the shape `FencedWithTag` takes. */
  lemma RoundTripShape(x: string)
    ensures FENCE + "" + "json" + ("\n" + x) + "\n" + FENCE + "" == FENCE + "json\n" + x + "\n" + FENCE
  {
    Regroup(FENCE, "json", "\n", x);
    assert "json" + "\n" == "json\n";
  }

  lemma Regroup(f: string, tag: string, nl: string, x: string)
    ensures f + [] + tag + (nl + x) + nl + f + [] == f + (tag + nl) + x + nl + f
  {
  }
}
