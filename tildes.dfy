/**
  The tilde-line regular expression of the brain-dump sidebar,
  `/^~\s+[\S ]+$/mg`, written out as the backtracking search a JavaScript
  engine performs, and the two library calls built on it: `body.match(re)`,
  which lists the matched tilde-lines, and `body.split(re)`, which lists the
  text around them. `\s+` may cross line terminators, so a line holding only
  `~` and whitespace can join the following line into one match; that case
  is part of this model.
*/
module Tildes {
  import opened Text
  import opened Wrappers

  /** A multiline `^` holds at position `x`. */
  predicate LineStart(s: string, x: nat)
    requires x <= |s|
  {
    x == 0 || IsTerm(s[x - 1])
  }

  /** The first position at or after `i` where a multiline `$` holds. */
  function LineEnd(s: string, i: nat): (q: nat)
    requires i <= |s|
    ensures i <= q <= |s|
    ensures q < |s| ==> IsTerm(s[q])
    decreases |s| - i
  {
    if i == |s| || IsTerm(s[i]) then i else LineEnd(s, i + 1)
  }

  /** The end of the whitespace run that starts at `i`. */
  function WsEnd(s: string, i: nat): (m: nat)
    requires i <= |s|
    ensures i <= m <= |s|
    ensures m < |s| ==> !IsWs(s[m])
    decreases |s| - i
  {
    if i == |s| || !IsWs(s[i]) then i else WsEnd(s, i + 1)
  }

  /** No line terminator lies between `i` and the end of its line. */
  lemma {:induction false} LineEndSpec(s: string, i: nat)
    requires i <= |s|
    ensures forall j :: i <= j < LineEnd(s, i) ==> !IsTerm(s[j])
    decreases |s| - i
  {
    if i < |s| && !IsTerm(s[i]) {
      LineEndSpec(s, i + 1);
    }
  }

  /** Everything between `i` and the end of its whitespace run is whitespace. */
  lemma {:induction false} WsEndSpec(s: string, i: nat)
    requires i <= |s|
    ensures forall j :: i <= j < WsEnd(s, i) ==> IsWs(s[j])
    decreases |s| - i
  {
    if i < |s| && IsWs(s[i]) {
      WsEndSpec(s, i + 1);
    }
  }

  predicate AllLabel(t: string)
  {
    forall i :: 0 <= i < |t| ==> IsLabelChar(t[i])
  }

  /** `[\S ]+$` matches from `k`: a non-empty run of `[\S ]` that reaches the end of the line. */
  predicate TailFrom(s: string, k: nat)
    requires k <= |s|
  {
    k < LineEnd(s, k) && AllLabel(s[k..LineEnd(s, k)])
  }

  /**
    Backtracking of the greedy `\s+`: try the ends `k, k - 1, ..., lo` of
    the whitespace run in turn and stop at the first from which the rest of
    the pattern matches; the match then ends where that line ends.
  */
  function Backtrack(s: string, lo: nat, k: nat): (r: Option<nat>)
    requires 1 <= lo && k <= |s|
    ensures r.Some? ==> lo < r.value <= |s| && (r.value == |s| || IsTerm(s[r.value]))
    decreases k
  {
    if k < lo then None
    else if TailFrom(s, k) then Some(LineEnd(s, k))
    else Backtrack(s, lo, k - 1)
  }

  /** Where the match of `^~\s+[\S ]+$` that starts at `x` ends, if one starts there. */
  function MatchAt(s: string, x: nat): (r: Option<nat>)
    requires x < |s|
    ensures r.Some? ==> LineStart(s, x) && s[x] == '~'
    ensures r.Some? ==> x + 2 < r.value <= |s| && (r.value == |s| || IsTerm(s[r.value]))
  {
    if LineStart(s, x) && s[x] == '~' && x + 1 < |s| && IsWs(s[x + 1])
    then Backtrack(s, x + 2, WsEnd(s, x + 1))
    else None
  }

  /** The tilde-lines of a body and the text between them. */
  datatype Segments = Segments(tildes: seq<string>, contents: seq<string>)

  /** `contents[0] + tildes[0] + contents[1] + ... + contents[n]`. */
  function Interleave(contents: seq<string>, tildes: seq<string>): string
    requires |contents| == |tildes| + 1
    decreases |tildes|
  {
    if tildes == [] then contents[0]
    else contents[0] + tildes[0] + Interleave(contents[1..], tildes[1..])
  }

  /**
    The global search: from position `x` find the leftmost match, record the
    text since `start` and the match, and go on after it. Used by `match`
    (the tildes) and by `split` (the contents) alike.
  */
  function Scan(s: string, start: nat, x: nat): (r: Segments)
    requires start <= x <= |s|
    ensures |r.contents| == |r.tildes| + 1
    decreases |s| - x
  {
    if x == |s| then Segments([], [s[start..]])
    else match MatchAt(s, x)
      case None => Scan(s, start, x + 1)
      case Some(e) =>
        var rest := Scan(s, e, e);
        Segments([s[x..e]] + rest.tildes, [s[start..x]] + rest.contents)
  }

  /**
    The pieces of a search interleave back into the text searched, and every
    match is a `~` followed by at least two more characters.
  */
  lemma {:induction false} ScanSpec(s: string, start: nat, x: nat)
    requires start <= x <= |s|
    ensures Interleave(Scan(s, start, x).contents, Scan(s, start, x).tildes) == s[start..]
    ensures forall t <- Scan(s, start, x).tildes :: |t| >= 3 && t[0] == '~'
    decreases |s| - x
  {
    if x < |s| {
      match MatchAt(s, x)
      case None => ScanSpec(s, start, x + 1);
      case Some(e) =>
        ScanSpec(s, e, e);
        assert s[start..] == s[start..x] + s[x..];
        assert s[x..] == s[x..e] + s[e..];
        assert s[start..] == s[start..x] + s[x..e] + s[e..];
    }
  }

  /**
    `body.match(re)` and `body.split(re)` together: the split of a body into
    the tilde-lines and the n + 1 pieces of text around them, which
    interleave back into the body.
  */
  function Split(body: string): (r: Segments)
    ensures |r.contents| == |r.tildes| + 1
    ensures Interleave(r.contents, r.tildes) == body
    ensures forall t <- r.tildes :: |t| >= 3 && t[0] == '~'
  {
    ScanSpec(body, 0, 0);
    Scan(body, 0, 0)
  }

  /** `t.replace(/^~\s+/, '')`: drop the leading `~` and the whitespace after it. */
  function Strip(t: string): string
  {
    if |t| >= 2 && t[0] == '~' && IsWs(t[1]) then t[WsEnd(t, 1)..] else t
  }

  function MapStrip(ts: seq<string>): (r: seq<string>)
    ensures |r| == |ts|
    ensures forall i :: 0 <= i < |ts| ==> r[i] == Strip(ts[i])
  {
    seq(|ts|, i requires 0 <= i < |ts| => Strip(ts[i]))
  }

  /** The brain-dump labels of a body: its tilde-lines, stripped, in body order. */
  function Labels(body: string): (r: seq<string>)
    ensures |r| == |Split(body).tildes|
  {
    MapStrip(Split(body).tildes)
  }
}
