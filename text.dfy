/**
  The JavaScript string primitives the notes app relies on: the whitespace
  class `\s` of regular expressions (the same set `String.prototype.trim`
  removes), line terminators, `trim` and `endsWith`.
*/
module Text {

  /** A character of JavaScript's WhiteSpace or LineTerminator productions. */
  predicate IsWs(c: char)
  {
    c == ' ' || c == '\n' || IsRareWs(c)
  }

  /** The rest of `\s`, apart from the space and the newline. */
  predicate IsRareWs(c: char)
  {
    || c == '\t' || c == '\r'
    || c == '\U{000B}' || c == '\U{000C}' || c == '\U{00A0}' || c == '\U{1680}'
    || ('\U{2000}' <= c <= '\U{200A}')
    || c == '\U{2028}' || c == '\U{2029}' || c == '\U{202F}' || c == '\U{205F}'
    || c == '\U{3000}' || c == '\U{FEFF}'
  }

  /** A line terminator: where a multiline `^` or `$` anchor may sit. */
  predicate IsTerm(c: char)
  {
    c == '\n' || c == '\r' || c == '\U{2028}' || c == '\U{2029}'
  }

  /** A character of the regex class `[\S ]`: anything but whitespace, or a plain space. */
  predicate IsLabelChar(c: char)
  {
    !IsWs(c) || c == ' '
  }

  predicate AllWs(s: string)
  {
    forall i :: 0 <= i < |s| ==> IsWs(s[i])
  }

  /** The number of whitespace characters `trim` removes at the front. */
  function LeadingWs(s: string): (n: nat)
    ensures n <= |s|
  {
    if s != [] && IsWs(s[0]) then 1 + LeadingWs(s[1..]) else 0
  }

  /** The number of whitespace characters `trim` removes at the back. */
  function TrailingWs(s: string): (n: nat)
    ensures n <= |s|
  {
    if s != [] && IsWs(s[|s| - 1]) then 1 + TrailingWs(s[..|s| - 1]) else 0
  }

  function TrimStart(s: string): string
  {
    s[LeadingWs(s)..]
  }

  function TrimEnd(s: string): string
  {
    s[..|s| - TrailingWs(s)]
  }

  /** `String.prototype.trim`. */
  function Trim(s: string): string
  {
    TrimEnd(TrimStart(s))
  }

  /** `s.endsWith(suffix)`. */
  predicate EndsWith(s: string, suffix: string)
  {
    |suffix| <= |s| && s[|s| - |suffix|..] == suffix
  }

  /** `endsWith` of a one-character suffix: the text is non-empty and its last character is that one. */
  lemma EndsWithChar(s: string, c: char)
    ensures EndsWith(s, [c]) <==> s != [] && s[|s| - 1] == c
  {
    if s != [] {
      assert s[|s| - 1..] == [s[|s| - 1]];
    }
  }

  /** `LeadingWs` counts exactly the whitespace run at the front. */
  lemma {:induction false} LeadingWsSpec(s: string)
    ensures forall i :: 0 <= i < LeadingWs(s) ==> IsWs(s[i])
    ensures LeadingWs(s) < |s| ==> !IsWs(s[LeadingWs(s)])
  {
    if s != [] && IsWs(s[0]) {
      LeadingWsSpec(s[1..]);
    }
  }

  /** `TrailingWs` counts exactly the whitespace run at the back. */
  lemma {:induction false} TrailingWsSpec(s: string)
    ensures forall i :: |s| - TrailingWs(s) <= i < |s| ==> IsWs(s[i])
    ensures TrailingWs(s) < |s| ==> !IsWs(s[|s| - 1 - TrailingWs(s)])
  {
    if s != [] && IsWs(s[|s| - 1]) {
      TrailingWsSpec(s[..|s| - 1]);
    }
  }

  /** A whitespace run followed by a non-whitespace character (or the end) is what `LeadingWs` counts. */
  lemma {:induction false} LeadingWsUnique(s: string, n: nat)
    requires n <= |s|
    requires forall i :: 0 <= i < n ==> IsWs(s[i])
    requires n < |s| ==> !IsWs(s[n])
    ensures LeadingWs(s) == n
  {
    if n > 0 {
      assert IsWs(s[0]);
      assert forall i :: 0 <= i < n - 1 ==> s[1..][i] == s[i + 1];
      LeadingWsUnique(s[1..], n - 1);
    }
  }

  /** A whitespace run preceded by a non-whitespace character (or the start) is what `TrailingWs` counts. */
  lemma {:induction false} TrailingWsUnique(s: string, n: nat)
    requires n <= |s|
    requires forall i :: |s| - n <= i < |s| ==> IsWs(s[i])
    requires n < |s| ==> !IsWs(s[|s| - 1 - n])
    ensures TrailingWs(s) == n
  {
    if n > 0 {
      assert IsWs(s[|s| - 1]);
      var t := s[..|s| - 1];
      assert forall i :: |t| - (n - 1) <= i < |t| ==> t[i] == s[i];
      TrailingWsUnique(t, n - 1);
    }
  }

  /** `trim` yields the empty string exactly when its input is all whitespace. */
  lemma TrimEmptyIffAllWs(s: string)
    ensures Trim(s) == [] <==> AllWs(s)
  {
    var a := LeadingWs(s);
    var u := s[a..];
    LeadingWsSpec(s);
    TrailingWsSpec(u);
    assert Trim(s) == u[..|u| - TrailingWs(u)];
  }

  /** Whitespace in front of a text does not change its `trim`. */
  lemma TrimWsFront(w: string, s: string)
    requires AllWs(w)
    ensures Trim(w + s) == Trim(s)
  {
    var x := w + s;
    var a := LeadingWs(s);
    LeadingWsSpec(s);
    forall i | 0 <= i < |w| + a ensures IsWs(x[i]) {
      if i >= |w| {
        assert x[i] == s[i - |w|];
      }
    }
    if |w| + a < |x| {
      assert x[|w| + a] == s[a];
    }
    LeadingWsUnique(x, |w| + a);
    assert x[|w| + a..] == s[a..];
  }

  /** Whitespace after a text does not change its `trim`. */
  lemma TrimWsBack(s: string, w: string)
    requires AllWs(w)
    ensures Trim(s + w) == Trim(s)
  {
    var x := s + w;
    var a := LeadingWs(s);
    LeadingWsSpec(s);
    if a == |s| {
      assert AllWs(x) by {
        forall i | 0 <= i < |x| ensures IsWs(x[i]) {
          if i >= |s| {
            assert x[i] == w[i - |s|];
          }
        }
      }
      TrimEmptyIffAllWs(s);
      TrimEmptyIffAllWs(x);
    } else {
      assert x[a] == s[a];
      LeadingWsUnique(x, a);
      var u := s[a..];
      assert x[a..] == u + w;
      var n := TrailingWs(u);
      TrailingWsSpec(u);
      assert u[0] == s[a];
      assert n < |u|;
      var v := u + w;
      forall i | |v| - (|w| + n) <= i < |v| ensures IsWs(v[i]) {
        if i >= |u| {
          assert v[i] == w[i - |u|];
        } else {
          assert v[i] == u[i];
        }
      }
      assert v[|v| - 1 - (|w| + n)] == u[|u| - 1 - n];
      TrailingWsUnique(v, |w| + n);
      assert v[..|v| - (|w| + n)] == u[..|u| - n];
    }
  }

  /** A text that begins and ends with a non-whitespace character, or is empty, is its own `trim`. */
  lemma TrimTrimmed(c: string)
    requires c == [] || (!IsWs(c[0]) && !IsWs(c[|c| - 1]))
    ensures Trim(c) == c
  {
    LeadingWsUnique(c, 0);
    TrailingWsUnique(c, 0);
  }

  /** An already trimmed text padded with whitespace on both sides trims back to itself. */
  lemma TrimPadded(w: string, c: string, v: string)
    requires AllWs(w) && AllWs(v)
    requires c == [] || (!IsWs(c[0]) && !IsWs(c[|c| - 1]))
    ensures Trim(w + c + v) == c
  {
    assert w + c + v == w + (c + v);
    TrimWsFront(w, c + v);
    TrimWsBack(c, v);
    TrimTrimmed(c);
  }

  /** A non-empty result of `trim` begins and ends with a non-whitespace character. */
  lemma TrimEnds(s: string)
    ensures Trim(s) != [] ==> !IsWs(Trim(s)[0]) && !IsWs(Trim(s)[|Trim(s)| - 1])
  {
    var u := s[LeadingWs(s)..];
    LeadingWsSpec(s);
    TrailingWsSpec(u);
    if Trim(s) != [] {
      assert Trim(s)[0] == u[0];
      assert Trim(s)[|Trim(s)| - 1] == u[|u| - 1 - TrailingWs(u)];
    }
  }
}
