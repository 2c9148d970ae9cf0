/**
  A line-by-line reading of a body, the explicit classifier that stands
  beside the regular expression: every line is a tilde-line, a dangling
  line (`~` followed by whitespace only, which the regex's `\s+` may join to
  the next line), or plain text. On a body without dangling lines the regex
  search finds exactly the tilde-lines, in order (`SplitByLines`).
*/
module LineClassifier {
  import opened Text
  import opened Wrappers
  import opened Tildes

  predicate NoTerm(line: string)
  {
    forall i :: 0 <= i < |line| ==> !IsTerm(line[i])
  }

  /** The lines of a text, the pieces between its line terminators. */
  function Lines(s: string): (r: seq<string>)
    ensures |r| >= 1
    decreases |s|
  {
    var n := LineEnd(s, 0);
    if n == |s| then [s] else [s[..n]] + Lines(s[n + 1..])
  }

  /** A line the regex matches on its own: `~`, whitespace, then a non-empty run of `[\S ]`. */
  predicate TildeLine(line: string)
  {
    && |line| >= 2 && line[0] == '~' && IsWs(line[1])
    && WsEnd(line, 1) < |line| && AllLabel(line[WsEnd(line, 1)..])
  }

  /** `~` followed by whitespace only: here `\s+` may run on into the next line. */
  predicate Dangling(line: string)
  {
    |line| >= 1 && line[0] == '~' && forall i :: 1 <= i < |line| ==> IsWs(line[i])
  }

  predicate NoDanglingLine(s: string)
  {
    forall line <- Lines(s) :: !Dangling(line)
  }

  function FilterTilde(lines: seq<string>): seq<string>
  {
    if lines == [] then []
    else (if TildeLine(lines[0]) then [lines[0]] else []) + FilterTilde(lines[1..])
  }

  /** The tilde-lines of a text, read line by line. */
  function TildeLinesOf(s: string): seq<string>
  {
    FilterTilde(Lines(s))
  }

  /** Text containing neither tilde-lines nor dangling lines. */
  predicate Inert(s: string)
  {
    TildeLinesOf(s) == [] && NoDanglingLine(s)
  }

  /** No line contains a line terminator. */
  lemma {:induction false} LinesNoTerm(s: string)
    ensures forall line <- Lines(s) :: NoTerm(line)
    decreases |s|
  {
    var n := LineEnd(s, 0);
    LineEndSpec(s, 0);
    if n < |s| {
      LinesNoTerm(s[n + 1..]);
    }
  }

  /** What the filter keeps are tilde-lines of its input. */
  lemma {:induction false} FilterTildeKeeps(lines: seq<string>)
    ensures forall t <- FilterTilde(lines) :: TildeLine(t) && t in lines
    decreases |lines|
  {
    if lines != [] {
      FilterTildeKeeps(lines[1..]);
    }
  }

  /** The end of the line is the first terminator at or after `i`, or the end of the text. */
  lemma {:induction false} LineEndUnique(s: string, i: nat, q: nat)
    requires i <= q <= |s|
    requires forall j :: i <= j < q ==> !IsTerm(s[j])
    requires q < |s| ==> IsTerm(s[q])
    ensures LineEnd(s, i) == q
    decreases q - i
  {
    if i < q {
      LineEndUnique(s, i + 1, q);
    }
  }

  /** The end of the whitespace run is the first non-whitespace at or after `i`, or the end of the text. */
  lemma {:induction false} WsEndUnique(s: string, i: nat, m: nat)
    requires i <= m <= |s|
    requires forall j :: i <= j < m ==> IsWs(s[j])
    requires m < |s| ==> !IsWs(s[m])
    ensures WsEnd(s, i) == m
    decreases m - i
  {
    if i < m {
      WsEndUnique(s, i + 1, m);
    }
  }

  /** A text made of one line and no terminator is that line. */
  lemma LinesOfLine(line: string)
    requires NoTerm(line)
    ensures Lines(line) == [line]
  {
    LineEndUnique(line, 0, |line|);
  }

  /** Joining two texts with one line terminator joins their lists of lines. */
  lemma {:induction false} LinesJoin(a: string, t: char, b: string)
    requires IsTerm(t)
    ensures Lines(a + [t] + b) == Lines(a) + Lines(b)
    decreases |a|
  {
    var s := a + [t] + b;
    var n := LineEnd(a, 0);
    LineEndSpec(a, 0);
    assert forall j :: 0 <= j < |a| ==> s[j] == a[j];
    if n == |a| {
      LineEndUnique(s, 0, |a|);
      assert s[..|a|] == a;
      assert s[|a| + 1..] == b;
    } else {
      LineEndUnique(s, 0, n);
      assert s[..n] == a[..n];
      assert s[n + 1..] == a[n + 1..] + [t] + b;
      LinesJoin(a[n + 1..], t, b);
      assert Lines(a) == [a[..n]] + Lines(a[n + 1..]);
    }
  }

  lemma {:induction false} FilterTildeAppend(a: seq<string>, b: seq<string>)
    ensures FilterTilde(a + b) == FilterTilde(a) + FilterTilde(b)
    decreases |a|
  {
    if a == [] {
      assert a + b == b;
    } else {
      assert (a + b)[1..] == a[1..] + b;
      FilterTildeAppend(a[1..], b);
    }
  }

  /** The end of a line, seen from the text that starts at `x`. */
  lemma LineEndShift(s: string, x: nat)
    requires x <= |s|
    ensures LineEnd(s[x..], 0) == LineEnd(s, x) - x
  {
    var q := LineEnd(s, x);
    LineEndSpec(s, x);
    assert forall j :: 0 <= j < q - x ==> s[x..][j] == s[x + j];
    LineEndUnique(s[x..], 0, q - x);
  }

  /** The lines of the text at `x` whose line ends before the text does: that line, then the lines after its terminator. */
  lemma LinesAt(s: string, x: nat)
    requires x <= |s| && LineEnd(s, x) < |s|
    ensures Lines(s[x..]) == [s[x..LineEnd(s, x)]] + Lines(s[LineEnd(s, x) + 1..])
  {
    var q := LineEnd(s, x);
    var u := s[x..];
    LineEndShift(s, x);
    assert u[..q - x] == s[x..q];
    assert u[q - x + 1..] == s[q + 1..];
  }

  /** The text at `x` whose line runs to the end of the text is that one line. */
  lemma LinesAtLast(s: string, x: nat)
    requires x <= |s| && LineEnd(s, x) == |s|
    ensures Lines(s[x..]) == [s[x..]]
  {
    LineEndShift(s, x);
  }

  lemma BacktrackFails(s: string, lo: nat, k: nat)
    requires 1 <= lo && k <= |s|
    requires forall j :: lo <= j <= k ==> !TailFrom(s, j)
    ensures Backtrack(s, lo, k) == None
    decreases k
  {
    if k >= lo {
      BacktrackFails(s, lo, k - 1);
    }
  }

  /**
    On a line `~` + whitespace + more that does not dangle, the whitespace
    run after `~` ends inside the line, at the same place as seen from the
    line itself, and the line ends where the run's line ends.
  */
  lemma WsRunInLine(s: string, x: nat)
    requires x + 1 < |s| && s[x] == '~' && IsWs(s[x + 1])
    requires !Dangling(s[x..LineEnd(s, x)])
    ensures var q := LineEnd(s, x); var m := WsEnd(s, x + 1);
      && x + 1 < m < q
      && WsEnd(s[x..q], 1) == m - x
      && s[x..q][m - x..] == s[m..q]
      && LineEnd(s, m) == q
  {
    var q := LineEnd(s, x);
    var line := s[x..q];
    LineEndSpec(s, x);
    assert q > x by {
      assert !IsTerm(s[x]);
    }
    assert line[0] == '~';
    var i :| 1 <= i < |line| && !IsWs(line[i]);
    var m := WsEnd(s, x + 1);
    WsEndSpec(s, x + 1);
    assert m <= x + i;
    WsEndUnique(line, 1, m - x);
    LineEndUnique(s, m, q);
  }

  /** When no label run starts where the whitespace ends, backtracking finds no shorter run either. */
  lemma NoTailInLine(s: string, x: nat, m: nat, q: nat)
    requires x + 1 < m < q <= |s| && LineEnd(s, m) == q && !TailFrom(s, m)
    requires forall j :: x + 1 <= j < q ==> !IsTerm(s[j])
    ensures forall j :: x + 2 <= j <= m ==> !TailFrom(s, j)
  {
    var p :| m <= p < q && !IsLabelChar(s[p]);
    forall j | x + 2 <= j <= m ensures !TailFrom(s, j) {
      LineEndUnique(s, j, q);
      assert s[j..q][p - j] == s[p];
    }
  }

  /**
    At a line start on a line that is not dangling, the regex match is the
    whole line when it is a tilde-line and there is none otherwise.
  */
  lemma MatchAtLine(s: string, x: nat)
    requires x < |s| && LineStart(s, x)
    requires !Dangling(s[x..LineEnd(s, x)])
    ensures MatchAt(s, x) == if TildeLine(s[x..LineEnd(s, x)]) then Some(LineEnd(s, x)) else None
  {
    if s[x] == '~' && x + 1 < |s| && IsWs(s[x + 1]) {
      var q := LineEnd(s, x);
      var m := WsEnd(s, x + 1);
      WsRunInLine(s, x);
      if !TailFrom(s, m) {
        LineEndSpec(s, x);
        NoTailInLine(s, x, m, q);
        BacktrackFails(s, x + 2, m);
      }
    }
  }

  /** Searching from `x` to `y` changes nothing when no match starts in between. */
  lemma {:induction false} ScanSkip(s: string, start: nat, x: nat, y: nat)
    requires start <= x <= y <= |s|
    requires forall z :: x <= z < y ==> MatchAt(s, z) == None
    ensures Scan(s, start, x) == Scan(s, start, y)
    decreases y - x
  {
    if x < y {
      ScanSkip(s, start, x + 1, y);
    }
  }

  /** The filter keeps the first line exactly when it is a tilde-line. */
  lemma FilterTildeCons(line: string, rest: seq<string>)
    ensures FilterTilde([line] + rest) == (if TildeLine(line) then [line] else []) + FilterTilde(rest)
  {
    assert ([line] + rest)[1..] == rest;
  }

  /** The tilde-lines of the text at `x`: those of its first line, then those after that line's terminator. */
  lemma TildeLinesAt(s: string, x: nat, q: nat)
    requires x < |s| && q == LineEnd(s, x)
    ensures TildeLinesOf(s[x..]) ==
      (if TildeLine(s[x..q]) then [s[x..q]] else [])
      + (if q < |s| then TildeLinesOf(s[q + 1..]) else [])
  {
    if q < |s| {
      TildeLinesBefore(s, x, q);
    } else {
      TildeLinesLast(s, x);
      assert s[x..q] == s[x..];
    }
  }

  lemma TildeLinesBefore(s: string, x: nat, q: nat)
    requires x < |s| && q == LineEnd(s, x) && q < |s|
    ensures TildeLinesOf(s[x..]) == (if TildeLine(s[x..q]) then [s[x..q]] else []) + TildeLinesOf(s[q + 1..])
  {
    LinesAt(s, x);
    if TildeLine(s[x..q]) {
      TildeLinesConsTilde(s[x..], s[x..LineEnd(s, x)], s[LineEnd(s, x) + 1..]);
    } else {
      TildeLinesConsPlain(s[x..], s[x..LineEnd(s, x)], s[LineEnd(s, x) + 1..]);
    }
  }

  /** A text whose first line, a tilde-line, is followed by the lines of `rest`. */
  lemma TildeLinesConsTilde(u: string, line: string, rest: string)
    requires Lines(u) == [line] + Lines(rest) && TildeLine(line)
    ensures TildeLinesOf(u) == [line] + TildeLinesOf(rest)
  {
    FilterTildeCons(line, Lines(rest));
  }

  /** A text whose first line, no tilde-line, is followed by the lines of `rest`. */
  lemma TildeLinesConsPlain(u: string, line: string, rest: string)
    requires Lines(u) == [line] + Lines(rest) && !TildeLine(line)
    ensures TildeLinesOf(u) == TildeLinesOf(rest)
  {
    FilterTildeCons(line, Lines(rest));
  }

  lemma TildeLinesLast(s: string, x: nat)
    requires x < |s| && LineEnd(s, x) == |s|
    ensures TildeLinesOf(s[x..]) == (if TildeLine(s[x..]) then [s[x..]] else [])
  {
    LinesAtLast(s, x);
    FilterTildeCons(s[x..], []);
    assert [s[x..]] + [] == [s[x..]];
  }

  /** No line of the text at `x` dangles: neither its first line nor any after it. */
  lemma NoDanglingAt(s: string, x: nat, q: nat)
    requires x < |s| && q == LineEnd(s, x)
    requires NoDanglingLine(s[x..])
    ensures !Dangling(s[x..q])
    ensures q < |s| ==> NoDanglingLine(s[q + 1..])
  {
    if q < |s| {
      NoDanglingBefore(s, x);
    } else {
      LinesAtLast(s, x);
      assert s[x..q] == s[x..];
      assert s[x..] in Lines(s[x..]);
    }
  }

  lemma NoDanglingBefore(s: string, x: nat)
    requires x <= |s| && LineEnd(s, x) < |s|
    requires NoDanglingLine(s[x..])
    ensures !Dangling(s[x..LineEnd(s, x)])
    ensures NoDanglingLine(s[LineEnd(s, x) + 1..])
  {
    var q := LineEnd(s, x);
    LinesAt(s, x);
    assert s[x..q] in Lines(s[x..]);
    forall l <- Lines(s[q + 1..]) ensures !Dangling(l) {
      assert l in Lines(s[x..]);
    }
  }

  /** The search at the start of a tilde-line records that line and goes on at the next line. */
  lemma ScanAtTildeLine(s: string, start: nat, x: nat)
    requires start <= x < |s| && LineStart(s, x)
    requires MatchAt(s, x) == Some(LineEnd(s, x))
    ensures var q := LineEnd(s, x);
      Scan(s, start, x).tildes == [s[x..q]] + (if q < |s| then Scan(s, q, q + 1).tildes else [])
  {
    var q := LineEnd(s, x);
    if q < |s| {
      assert MatchAt(s, q) == None;
      assert Scan(s, q, q) == Scan(s, q, q + 1);
    }
  }

  /** The search at the start of a line with no match skips to the next line. */
  lemma ScanPastLine(s: string, start: nat, x: nat)
    requires start <= x < |s| && LineStart(s, x)
    requires MatchAt(s, x) == None
    ensures var q := LineEnd(s, x);
      Scan(s, start, x) == if q < |s| then Scan(s, start, q + 1) else Scan(s, start, |s|)
  {
    var q := LineEnd(s, x);
    var y := if q < |s| then q + 1 else |s|;
    LineEndSpec(s, x);
    forall z | x <= z < y ensures MatchAt(s, z) == None {
      if x < z < q {
        assert !IsTerm(s[z - 1]);
      }
    }
    ScanSkip(s, start, x, y);
  }

  /** One line of `ScanLines`, given the search for the lines after it. */
  lemma ScanLinesStep(s: string, start: nat, x: nat)
    requires start <= x < |s| && LineStart(s, x)
    requires NoDanglingLine(s[x..])
    requires var q := LineEnd(s, x);
      q < |s| ==> Scan(s, if TildeLine(s[x..q]) then q else start, q + 1).tildes == TildeLinesOf(s[q + 1..])
    ensures Scan(s, start, x).tildes == TildeLinesOf(s[x..])
  {
    if TildeLine(s[x..LineEnd(s, x)]) {
      ScanLinesTilde(s, start, x);
    } else {
      ScanLinesPlain(s, start, x);
    }
  }

  /** `ScanLinesStep` at a tilde-line. */
  lemma ScanLinesTilde(s: string, start: nat, x: nat)
    requires start <= x < |s| && LineStart(s, x)
    requires NoDanglingLine(s[x..])
    requires var q := LineEnd(s, x); TildeLine(s[x..q])
    requires var q := LineEnd(s, x); q < |s| ==> Scan(s, q, q + 1).tildes == TildeLinesOf(s[q + 1..])
    ensures Scan(s, start, x).tildes == TildeLinesOf(s[x..])
  {
    var q := LineEnd(s, x);
    TildeLinesAt(s, x, q);
    NoDanglingAt(s, x, q);
    MatchAtLine(s, x);
    ScanAtTildeLine(s, start, x);
  }

  /** `ScanLinesStep` at a line that is no tilde-line. */
  lemma ScanLinesPlain(s: string, start: nat, x: nat)
    requires start <= x < |s| && LineStart(s, x)
    requires NoDanglingLine(s[x..])
    requires var q := LineEnd(s, x); !TildeLine(s[x..q])
    requires var q := LineEnd(s, x); q < |s| ==> Scan(s, start, q + 1).tildes == TildeLinesOf(s[q + 1..])
    ensures Scan(s, start, x).tildes == TildeLinesOf(s[x..])
  {
    var q := LineEnd(s, x);
    TildeLinesAt(s, x, q);
    NoDanglingAt(s, x, q);
    MatchAtLine(s, x);
    ScanPastLine(s, start, x);
    if q == |s| {
      assert Scan(s, start, |s|).tildes == [];
    }
  }

  lemma {:induction false} ScanLines(s: string, start: nat, x: nat)
    requires start <= x <= |s| && LineStart(s, x)
    requires NoDanglingLine(s[x..])
    ensures Scan(s, start, x).tildes == TildeLinesOf(s[x..])
    decreases |s| - x
  {
    if x == |s| {
      assert s[x..] == [];
    } else {
      var q := LineEnd(s, x);
      if q < |s| {
        NoDanglingAt(s, x, q);
        ScanLines(s, if TildeLine(s[x..q]) then q else start, q + 1);
      }
      ScanLinesStep(s, start, x);
    }
  }

  /**
    On a body without dangling lines, `match` finds exactly the lines that
    the line classifier calls tilde-lines, in body order.
  */
  lemma SplitByLines(body: string)
    requires NoDanglingLine(body)
    ensures Split(body).tildes == TildeLinesOf(body)
  {
    assert body[0..] == body;
    ScanLines(body, 0, 0);
  }

  /**
    `match` and `split` read line by line from `x`: a tilde-line is a match,
    and the text since `start` in front of it is a piece. On a text without
    dangling lines this is the regex search (`SplitIsLineSplit`).
  */
  function LineSplit(s: string, start: nat, x: nat): (r: Segments)
    requires start <= x <= |s|
    ensures |r.contents| == |r.tildes| + 1
    decreases |s| - x
  {
    if x == |s| then Segments([], [s[start..]])
    else
      var q := LineEnd(s, x);
      if TildeLine(s[x..q]) then
        var rest := LineSplit(s, q, q);
        Segments([s[x..q]] + rest.tildes, [s[start..x]] + rest.contents)
      else if q < |s| then LineSplit(s, start, q + 1)
      else Segments([], [s[start..]])
  }

  /** At a line terminator the reading only steps over it. */
  lemma LineSplitAtTerm(s: string, q: nat)
    requires q < |s| && IsTerm(s[q])
    ensures LineSplit(s, q, q) == LineSplit(s, q, q + 1)
  {
    assert LineEnd(s, q) == q;
    assert s[q..q] == [];
  }

  /** A plain line that a terminator ends only moves the reading to the next line. */
  lemma LineSplitPastLine(s: string, start: nat, y: nat, q: nat)
    requires start <= y <= q < |s| && q == LineEnd(s, y) && !TildeLine(s[y..q])
    ensures LineSplit(s, start, y) == LineSplit(s, start, q + 1)
  {
  }

  /** A tilde-line is a match; the piece in front of it ends there. */
  lemma LineSplitAtTilde(s: string, start: nat, x: nat, q: nat)
    requires start <= x < |s| && q == LineEnd(s, x) && TildeLine(s[x..q])
    ensures LineSplit(s, start, x)
      == Segments([s[x..q]] + LineSplit(s, q, q).tildes, [s[start..x]] + LineSplit(s, q, q).contents)
  {
  }

  /** One line of `ScanIsLineSplit`, given the search for the lines after it. */
  lemma ScanSplitStep(s: string, start: nat, x: nat)
    requires start <= x < |s| && LineStart(s, x)
    requires NoDanglingLine(s[x..])
    requires var q := LineEnd(s, x); var st := if TildeLine(s[x..q]) then q else start;
      q < |s| ==> Scan(s, st, q + 1) == LineSplit(s, st, q + 1)
    ensures Scan(s, start, x) == LineSplit(s, start, x)
  {
    var q := LineEnd(s, x);
    NoDanglingAt(s, x, q);
    MatchAtLine(s, x);
    if TildeLine(s[x..q]) {
      if q < |s| {
        assert MatchAt(s, q) == None;
        assert Scan(s, q, q) == Scan(s, q, q + 1);
        LineSplitAtTerm(s, q);
      } else {
        assert Scan(s, q, q) == LineSplit(s, q, q);
      }
    } else {
      ScanPastLine(s, start, x);
    }
  }

  /** The search from a line start, on a text whose lines from there on do not dangle, is the line-by-line reading. */
  lemma {:induction false} ScanIsLineSplit(s: string, start: nat, x: nat)
    requires start <= x <= |s| && LineStart(s, x)
    requires NoDanglingLine(s[x..])
    ensures Scan(s, start, x) == LineSplit(s, start, x)
    decreases |s| - x
  {
    if x < |s| {
      var q := LineEnd(s, x);
      if q < |s| {
        NoDanglingAt(s, x, q);
        ScanIsLineSplit(s, if TildeLine(s[x..q]) then q else start, q + 1);
      }
      ScanSplitStep(s, start, x);
    }
  }

  /** On a body without dangling lines, `match` and `split` are the line-by-line reading. */
  lemma SplitIsLineSplit(body: string)
    requires NoDanglingLine(body)
    ensures Split(body) == LineSplit(body, 0, 0)
  {
    assert body[0..] == body;
    ScanIsLineSplit(body, 0, 0);
  }

  /** The pieces of two texts joined by a newline: the last piece of the first and the first of the second meet. */
  function Glue(a: Segments, b: Segments): (r: Segments)
    requires |a.contents| == |a.tildes| + 1 && |b.contents| == |b.tildes| + 1
    ensures |r.contents| == |r.tildes| + 1
  {
    var n := |a.tildes|;
    Segments(a.tildes + b.tildes, a.contents[..n] + [a.contents[n] + "\n" + b.contents[0]] + b.contents[1..])
  }

  /** The pieces of a glued reading, one by one. */
  lemma GlueAt(a: Segments, b: Segments)
    requires |a.contents| == |a.tildes| + 1 && |b.contents| == |b.tildes| + 1
    ensures var g := Glue(a, b); var n := |a.tildes|;
      && g.tildes == a.tildes + b.tildes && |g.contents| == n + |b.contents|
      && (forall k :: 0 <= k < n ==> g.contents[k] == a.contents[k])
      && g.contents[n] == a.contents[n] + "\n" + b.contents[0]
      && (forall k :: n < k < |g.contents| ==> g.contents[k] == b.contents[k - n])
  {
  }

  /** Gluing after a reading that starts with a match keeps that match and the piece before it in front. */
  lemma GlueCons(t: string, head: string, a: Segments, b: Segments)
    requires |a.contents| == |a.tildes| + 1 && |b.contents| == |b.tildes| + 1
    ensures Glue(Segments([t] + a.tildes, [head] + a.contents), b)
      == Segments([t] + Glue(a, b).tildes, [head] + Glue(a, b).contents)
  {
    var n := |a.tildes|;
    assert ([head] + a.contents)[..n + 1] == [head] + a.contents[..n];
    assert ([head] + a.contents)[n + 1] == a.contents[n];
  }

  /** `s` from `o` on is `b`: slices there are those of `b`. */
  lemma SliceOf(s: string, o: nat, b: string, i: nat, j: nat)
    requires o + |b| == |s| && s[o..] == b && i <= j <= |b|
    ensures s[o + i..o + j] == b[i..j] && s[o + i..] == b[i..]
  {
    assert forall k :: i <= k < |b| ==> s[o + k] == b[k] by {
      forall k | i <= k < |b| ensures s[o + k] == b[k] {
        assert s[o..][k] == s[o + k];
      }
    }
  }

  /** `s` from `o` on is `b`: line ends there are those of `b`, shifted by `o`. */
  lemma {:induction false} LineEndOf(s: string, o: nat, b: string, i: nat)
    requires o + |b| == |s| && s[o..] == b && i <= |b|
    ensures LineEnd(s, o + i) == o + LineEnd(b, i)
    decreases |b| - i
  {
    if i < |b| {
      assert s[o + i] == b[i];
      LineEndOf(s, o, b, i + 1);
    }
  }

  /** Line ends inside a text that a line terminator ends. */
  lemma {:induction false} LineEndBefore(s: string, a: string, x: nat)
    requires x <= |a| < |s| && s[..|a|] == a && s[|a|] == '\n'
    ensures LineEnd(s, x) == LineEnd(a, x)
    decreases |a| - x
  {
    if x < |a| {
      assert s[x] == a[x];
      LineEndBefore(s, a, x + 1);
    }
  }

  /** Reading lines of `s` from `o` on, where `s` is `b`, is reading `b`. */
  lemma {:induction false} LineSplitShift(s: string, o: nat, b: string, st: nat, y: nat)
    requires o + |b| == |s| && s[o..] == b && st <= y <= |b|
    ensures LineSplit(s, o + st, o + y) == LineSplit(b, st, y)
    decreases |b| - y
  {
    SliceOf(s, o, b, st, y);
    if y < |b| {
      var q := LineEnd(b, y);
      LineEndOf(s, o, b, y);
      SliceOf(s, o, b, y, q);
      if TildeLine(b[y..q]) {
        LineSplitShift(s, o, b, q, q);
        ShiftTilde(s, o, b, st, y, q);
      } else if q < |b| {
        LineSplitShift(s, o, b, st, q + 1);
        ShiftPlain(s, o, b, st, y, q);
      } else {
        ShiftLast(s, o, b, st, y);
      }
    }
  }

  /** The last line of `b`, when it is no tilde-line, ends the last piece. */
  lemma ShiftLast(s: string, o: nat, b: string, st: nat, y: nat)
    requires st <= y < |b| && LineEnd(b, y) == |b| && |s| == o + |b| && !TildeLine(b[y..|b|])
    requires LineEnd(s, o + y) == o + |b| && s[o + y..o + |b|] == b[y..|b|] && s[o + st..] == b[st..]
    ensures LineSplit(s, o + st, o + y) == LineSplit(b, st, y)
  {
  }

  /** A tilde-line of `b`, given the reading after it. */
  lemma ShiftTilde(s: string, o: nat, b: string, st: nat, y: nat, q: nat)
    requires st <= y < |b| && q == LineEnd(b, y) && |s| == o + |b| && TildeLine(b[y..q])
    requires LineEnd(s, o + y) == o + q
    requires s[o + y..o + q] == b[y..q] && s[o + st..o + y] == b[st..y]
    requires LineSplit(s, o + q, o + q) == LineSplit(b, q, q)
    ensures LineSplit(s, o + st, o + y) == LineSplit(b, st, y)
  {
    LineSplitAtTilde(s, o + st, o + y, o + q);
    LineSplitAtTilde(b, st, y, q);
  }

  /** A plain line of `b` that a terminator ends, given the reading after it. */
  lemma ShiftPlain(s: string, o: nat, b: string, st: nat, y: nat, q: nat)
    requires st <= y <= q < |b| && q == LineEnd(b, y) && |s| == o + |b| && !TildeLine(b[y..q])
    requires LineEnd(s, o + y) == o + q && s[o + y..o + q] == b[y..q]
    requires LineSplit(s, o + st, o + q + 1) == LineSplit(b, st, q + 1)
    ensures LineSplit(s, o + st, o + y) == LineSplit(b, st, y)
  {
    ghost var sst, sy, sq := o + st, o + y, o + q;
    assert sq + 1 == o + q + 1 && sq < |s|;
    PastLines(s, b, sst, sy, sq, st, y, q);
  }

  /** `ShiftPlain` with the offsets already added. */
  lemma PastLines(s: string, b: string, sst: nat, sy: nat, sq: nat, st: nat, y: nat, q: nat)
    requires st <= y <= q < |b| && q == LineEnd(b, y) && !TildeLine(b[y..q])
    requires sst <= sy <= sq < |s| && sq == LineEnd(s, sy) && s[sy..sq] == b[y..q]
    requires LineSplit(s, sst, sq + 1) == LineSplit(b, st, q + 1)
    ensures LineSplit(s, sst, sy) == LineSplit(b, st, y)
  {
    LineSplitPastLine(s, sst, sy, sq);
    LineSplitPastLine(b, st, y, q);
  }

  /** Reading lines from `y` with the piece starting earlier, at `start` instead of `m`: only the first piece grows. */
  lemma {:induction false} LineSplitWiden(s: string, start: nat, m: nat, y: nat)
    requires start <= m <= y <= |s|
    ensures var r := LineSplit(s, start, y); var u := LineSplit(s, m, y);
      r.tildes == u.tildes && r.contents == [s[start..m] + u.contents[0]] + u.contents[1..]
    decreases |s| - y
  {
    if y < |s| {
      var q := LineEnd(s, y);
      if TildeLine(s[y..q]) {
        WidenTilde(s, start, m, y, q);
      } else if q < |s| {
        LineSplitWiden(s, start, m, q + 1);
        WidenPlain(s, start, m, y, q);
      } else {
        WidenLast(s, start, m, y);
      }
    } else {
      WidenLast(s, start, m, y);
    }
  }

  /** A tilde-line at `y` ends the first piece. */
  lemma WidenTilde(s: string, start: nat, m: nat, y: nat, q: nat)
    requires start <= m <= y < |s| && q == LineEnd(s, y) && TildeLine(s[y..q])
    ensures var r := LineSplit(s, start, y); var u := LineSplit(s, m, y);
      r.tildes == u.tildes && r.contents == [s[start..m] + u.contents[0]] + u.contents[1..]
  {
    LineSplitAtTilde(s, start, y, q);
    LineSplitAtTilde(s, m, y, q);
    assert s[start..y] == s[start..m] + s[m..y];
  }

  /** A plain line at `y` that a terminator ends, given the reading after it. */
  lemma WidenPlain(s: string, start: nat, m: nat, y: nat, q: nat)
    requires start <= m <= y <= q < |s| && q == LineEnd(s, y) && !TildeLine(s[y..q])
    requires var r := LineSplit(s, start, q + 1); var u := LineSplit(s, m, q + 1);
      r.tildes == u.tildes && r.contents == [s[start..m] + u.contents[0]] + u.contents[1..]
    ensures var r := LineSplit(s, start, y); var u := LineSplit(s, m, y);
      r.tildes == u.tildes && r.contents == [s[start..m] + u.contents[0]] + u.contents[1..]
  {
    LineSplitPastLine(s, start, y, q);
    LineSplitPastLine(s, m, y, q);
  }

  /** From the last line on, when it is no tilde-line, there is one piece. */
  lemma WidenLast(s: string, start: nat, m: nat, y: nat)
    requires start <= m <= y <= |s| && LineEnd(s, y) == |s| && (y == |s| || !TildeLine(s[y..|s|]))
    ensures var r := LineSplit(s, start, y); var u := LineSplit(s, m, y);
      r.tildes == u.tildes && r.contents == [s[start..m] + u.contents[0]] + u.contents[1..]
  {
    assert s[start..] == s[start..m] + s[m..];
  }

  /** Reading a text made of `a`, a newline and `b`, from a line inside `a`. */
  lemma {:induction false} LineSplitJoinAt(s: string, a: string, b: string, start: nat, x: nat)
    requires |s| == |a| + 1 + |b| && s[..|a|] == a && s[|a|] == '\n' && s[|a| + 1..] == b
    requires start <= x <= |a|
    ensures LineSplit(s, start, x) == Glue(LineSplit(a, start, x), LineSplit(b, 0, 0))
    decreases |a| - x
  {
    var q := LineEnd(a, x);
    LineEndBefore(s, a, x);
    if x == |a| || (q == |a| && !TildeLine(a[x..q])) {
      JoinLastLine(s, a, b, start, x);
    } else {
      SliceIn(s, a, x, q);
      SliceIn(s, a, start, x);
      if TildeLine(a[x..q]) {
        LineSplitJoinAt(s, a, b, q, q);
        JoinTildeLine(s, a, LineSplit(b, 0, 0), start, x, q);
      } else {
        LineSplitJoinAt(s, a, b, start, q + 1);
        JoinPlainLine(s, a, LineSplit(b, 0, 0), start, x, q);
      }
    }
  }

  /** The last line of `a`, when it is no tilde-line, meets the first piece of `b`. */
  lemma JoinLastLine(s: string, a: string, b: string, start: nat, x: nat)
    requires |s| == |a| + 1 + |b| && s[..|a|] == a && s[|a|] == '\n' && s[|a| + 1..] == b
    requires start <= x <= |a| && LineEnd(a, x) == |a|
    requires x == |a| || !TildeLine(a[x..|a|])
    ensures LineSplit(s, start, x) == Glue(LineSplit(a, start, x), LineSplit(b, 0, 0))
  {
    LineEndBefore(s, a, x);
    SliceIn(s, a, x, |a|);
    SliceThrough(s, a, start);
    LineSplitWiden(s, start, |a| + 1, |a| + 1);
    LineSplitShift(s, |a| + 1, b, 0, 0);
    JoinLastStep(s, a, LineSplit(b, 0, 0), start, x);
  }

  /** Slices of `s` inside `a`, which `s` starts with. */
  lemma SliceIn(s: string, a: string, i: nat, j: nat)
    requires |a| <= |s| && s[..|a|] == a && i <= j <= |a|
    ensures s[i..j] == a[i..j]
  {
    assert forall k :: i <= k < j ==> s[k] == a[k] by {
      forall k | i <= k < j ensures s[k] == a[k] {
        assert s[..|a|][k] == s[k];
      }
    }
  }

  /** The piece of `s` from `start` through the newline that ends `a`. */
  lemma SliceThrough(s: string, a: string, start: nat)
    requires |a| < |s| && s[..|a|] == a && s[|a|] == '\n' && start <= |a|
    ensures s[start..|a| + 1] == a[start..] + "\n"
  {
    SliceIn(s, a, start, |a|);
    assert s[start..|a| + 1] == s[start..|a|] + [s[|a|]];
  }

  lemma JoinLastStep(s: string, a: string, u: Segments, start: nat, x: nat)
    requires start <= x <= |a| < |s| && LineEnd(a, x) == |a| && LineEnd(s, x) == |a|
    requires x == |a| || !TildeLine(a[x..|a|])
    requires s[x..|a|] == a[x..|a|] && |u.contents| == |u.tildes| + 1
    requires var r := LineSplit(s, start, |a| + 1);
      r.tildes == u.tildes && r.contents == [a[start..] + "\n" + u.contents[0]] + u.contents[1..]
    ensures LineSplit(s, start, x) == Glue(LineSplit(a, start, x), u)
  {
    assert LineSplit(a, start, x) == Segments([], [a[start..]]);
    assert LineSplit(s, start, x) == LineSplit(s, start, |a| + 1);
  }

  /** A tilde-line of `a`, given the reading after it. */
  lemma JoinTildeLine(s: string, a: string, u: Segments, start: nat, x: nat, q: nat)
    requires start <= x < q <= |a| < |s| && q == LineEnd(a, x) && LineEnd(s, x) == q && TildeLine(a[x..q])
    requires s[x..q] == a[x..q] && s[start..x] == a[start..x] && |u.contents| == |u.tildes| + 1
    requires LineSplit(s, q, q) == Glue(LineSplit(a, q, q), u)
    ensures LineSplit(s, start, x) == Glue(LineSplit(a, start, x), u)
  {
    LineSplitAtTilde(s, start, x, q);
    LineSplitAtTilde(a, start, x, q);
    GlueCons(a[x..q], a[start..x], LineSplit(a, q, q), u);
  }

  /** A plain line of `a`, given the reading after it. */
  lemma JoinPlainLine(s: string, a: string, u: Segments, start: nat, x: nat, q: nat)
    requires start <= x <= q < |a| < |s| && q == LineEnd(a, x) && LineEnd(s, x) == q && !TildeLine(a[x..q])
    requires s[x..q] == a[x..q] && |u.contents| == |u.tildes| + 1
    requires LineSplit(s, start, q + 1) == Glue(LineSplit(a, start, q + 1), u)
    ensures LineSplit(s, start, x) == Glue(LineSplit(a, start, x), u)
  {
    LineSplitPastLine(s, start, x, q);
    LineSplitPastLine(a, start, x, q);
  }

  /** Joining two texts with a newline glues their line-by-line readings. */
  lemma LineSplitJoin(a: string, b: string)
    ensures LineSplit(a + "\n" + b, 0, 0) == Glue(LineSplit(a, 0, 0), LineSplit(b, 0, 0))
  {
    var s := a + "\n" + b;
    assert s[..|a|] == a && s[|a| + 1..] == b;
    LineSplitJoinAt(s, a, b, 0, 0);
  }

  /** A text without tilde-lines is one piece. */
  lemma {:induction false} LineSplitNone(s: string, start: nat, x: nat)
    requires start <= x <= |s| && TildeLinesOf(s[x..]) == []
    ensures LineSplit(s, start, x) == Segments([], [s[start..]])
    decreases |s| - x
  {
    if x < |s| {
      var q := LineEnd(s, x);
      TildeLinesAt(s, x, q);
      if q < |s| {
        LineSplitNone(s, start, q + 1);
      }
    }
  }

  /** A tilde-line alone is one match between two empty pieces. */
  lemma LineSplitTilde(t: string)
    requires TildeLine(t) && NoTerm(t)
    ensures LineSplit(t, 0, 0) == Segments([t], ["", ""])
  {
    LineEndUnique(t, 0, |t|);
    assert t[0..|t|] == t;
    assert LineSplit(t, |t|, |t|) == Segments([], [""]);
  }

  /** The label of a tilde-line: the line with `~` and the whitespace after it removed. */
  lemma StripTildeLine(t: string)
    requires TildeLine(t)
    ensures var l := Strip(t); var m := WsEnd(t, 1);
      && l != [] && !IsWs(l[0]) && AllLabel(l)
      && t == t[..m] + l && t[0] == '~' && AllWs(t[1..m])
  {
    var m := WsEnd(t, 1);
    WsEndSpec(t, 1);
    assert t == t[..m] + t[m..];
    assert forall j :: 0 <= j < |t[1..m]| ==> t[1..m][j] == t[j + 1];
  }

  /**
    The labels of a body without dangling lines: one per tilde-line, in body
    order, each the line with `~` and the whitespace after it removed, so
    non-empty, made only of `[\S ]` characters (no whitespace other than the
    plain space), and starting with a
    non-whitespace character.
  */
  lemma LabelsByLines(body: string)
    requires NoDanglingLine(body)
    ensures Labels(body) == MapStrip(TildeLinesOf(body))
    ensures forall i :: 0 <= i < |Labels(body)| ==>
      var l := Labels(body)[i];
      var t := TildeLinesOf(body)[i];
      && l != [] && !IsWs(l[0]) && AllLabel(l)
      && t == t[..WsEnd(t, 1)] + l && t[0] == '~' && AllWs(t[1..WsEnd(t, 1)])
  {
    SplitByLines(body);
    FilterTildeKeeps(Lines(body));
    var ts := TildeLinesOf(body);
    forall i | 0 <= i < |ts| ensures
      var l := Labels(body)[i];
      var t := ts[i];
      && l != [] && !IsWs(l[0]) && AllLabel(l)
      && t == t[..WsEnd(t, 1)] + l && t[0] == '~' && AllWs(t[1..WsEnd(t, 1)])
    {
      assert ts[i] in ts;
      StripTildeLine(ts[i]);
    }
  }
}
