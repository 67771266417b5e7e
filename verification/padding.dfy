/**
 * Fixed-width padding of display strings: the recorder's `ljust` and `rjust`
 * helpers. A string is a sequence of characters, and its length is the
 * number of characters.
 */
module Padding {
  import opened Wrappers

  /** The fill character: the first character of `padding`, or a space
      when `padding` is absent or empty (the source's `padding || ' '`
      followed by `substr(0, 1)`). */
  function FillChar(padding: Option<string>): (c: char)
    ensures padding.Some? && padding.value != "" ==> [c] == padding.value[..1]
    ensures padding.None? || padding.value == "" ==> c == ' '
  {
    match padding
    case None => ' '
    case Some(p) => if p == "" then ' ' else p[0]
  }

  /** `n` copies of `c`. */
  function Repeat(c: char, n: nat): (r: string)
    ensures |r| == n
    ensures forall i :: 0 <= i < n ==> r[i] == c
  {
    if n == 0 then [] else Repeat(c, n - 1) + [c]
  }

  /** Pads `s` on the right with the fill character up to `width`
      characters; a string already `width` long or longer is returned as is. */
  function LJust(s: string, width: int, padding: Option<string>): (r: string)
    ensures |s| < width ==> |r| == width
    ensures |s| < width ==> r[..|s|] == s
    ensures |s| < width ==> forall i :: |s| <= i < width ==> r[i] == FillChar(padding)
    ensures |s| >= width ==> r == s
  {
    if |s| < width then s + Repeat(FillChar(padding), width - |s|) else s
  }

  /** Pads `s` on the left with the fill character up to `width`
      characters; a string already `width` long or longer is returned as is. */
  function RJust(s: string, width: int, padding: Option<string>): (r: string)
    ensures |s| < width ==> |r| == width
    ensures |s| < width ==> r[width - |s|..] == s
    ensures |s| < width ==> forall i :: 0 <= i < width - |s| ==> r[i] == FillChar(padding)
    ensures |s| >= width ==> r == s
  {
    if |s| < width then Repeat(FillChar(padding), width - |s|) + s else s
  }

  /** Padding twice to the same width is padding once. */
  lemma LJustIdempotent(s: string, width: int, padding: Option<string>)
    ensures LJust(LJust(s, width, padding), width, padding) == LJust(s, width, padding)
  {
  }

  /** Padding twice to the same width is padding once. */
  lemma RJustIdempotent(s: string, width: int, padding: Option<string>)
    ensures RJust(RJust(s, width, padding), width, padding) == RJust(s, width, padding)
  {
  }

  /** `s` read back to front. */
  function Reverse(s: string): (r: string)
    ensures |r| == |s|
    ensures forall i :: 0 <= i < |s| ==> r[i] == s[|s| - 1 - i]
  {
    if s == [] then [] else Reverse(s[1..]) + [s[0]]
  }

  /** `rjust` is `ljust` seen in a mirror: right-justifying a string is
      left-justifying its reverse and reversing the result. */
  lemma RJustMirrorsLJust(s: string, width: int, padding: Option<string>)
    ensures RJust(s, width, padding) == Reverse(LJust(Reverse(s), width, padding))
  {
    var r, m := RJust(s, width, padding), Reverse(LJust(Reverse(s), width, padding));
    if |s| < width {
      assert |r| == |m| == width;
      forall i | 0 <= i < width
        ensures r[i] == m[i]
      {
        if i >= width - |s| {
          assert r[i] == r[width - |s|..][i - (width - |s|)];
        }
      }
    } else {
      assert |r| == |m|;
      forall i | 0 <= i < |s|
        ensures r[i] == m[i]
      {
      }
    }
  }
}
