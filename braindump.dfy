/**
  The brain-dump sidebar's text logic, lifted out of its React component:
  reading the labels off the selected body, dragging one label to a new
  place (which moves its tilde-line and the text that follows it), and
  appending a new tilde-line from the input box.
*/
module BrainDump {
  import opened Text
  import opened Wrappers
  import opened Tildes
  import opened LineClassifier

  /**
    `reorder(list, from, to)` of the helpers module: take the item at
    `from` out and insert it again at `to`.
  */
  function Reorder<T>(s: seq<T>, from: nat, to: nat): (r: seq<T>)
    requires from < |s| && to < |s|
    ensures |r| == |s|
    ensures multiset(r) == multiset(s)
  {
    var rest := s[..from] + s[from + 1..];
    var r := rest[..to] + [s[from]] + rest[to..];
    assert multiset(r) == multiset(s) by {
      MultisetCut(s, from);
      MultisetCut(rest, to);
      assert multiset(rest) == multiset(s[..from]) + multiset(s[from + 1..]);
      assert multiset(r) == multiset(rest[..to]) + multiset{s[from]} + multiset(rest[to..]);
      assert multiset(r) == multiset(rest) + multiset{s[from]};
      assert multiset(s) == multiset(s[..from]) + multiset(s[from + 1..]) + multiset{s[from]};
    }
    r
  }

  lemma MultisetCut<T>(s: seq<T>, i: nat)
    requires i <= |s|
    ensures multiset(s) == multiset(s[..i]) + multiset(s[i..])
    ensures i < |s| ==> multiset(s) == multiset(s[..i]) + multiset{s[i]} + multiset(s[i + 1..])
  {
    assert s == s[..i] + s[i..];
    if i < |s| {
      assert s[i..] == [s[i]] + s[i + 1..];
    }
  }

  /** Where the item that a move from `from` to `to` puts at position `i` used to be. */
  function MovedFrom(from: nat, to: nat, i: nat): nat
  {
    if i == to then from
    else if from < to && from <= i < to then i + 1
    else if to < from && to < i <= from then i - 1
    else i
  }

  /**
    The move as an index map: the item at `from` lands at `to`, the items
    between shift by one towards `from`, and all others stay put.
  */
  lemma ReorderAt<T>(s: seq<T>, from: nat, to: nat, i: nat)
    requires from < |s| && to < |s| && i < |s|
    ensures MovedFrom(from, to, i) < |s|
    ensures Reorder(s, from, to)[i] == s[MovedFrom(from, to, i)]
  {
  }

  /** A move only rearranges: every item after it was there before. */
  lemma ReorderMember<T>(s: seq<T>, from: nat, to: nat, j: nat)
    requires from < |s| && to < |s| && j < |s|
    ensures Reorder(s, from, to)[j] in s
  {
    ReorderAt(s, from, to, j);
  }

  /** Moving an item onto its own place changes nothing. */
  lemma ReorderSame<T>(s: seq<T>, i: nat)
    requires i < |s|
    ensures Reorder(s, i, i) == s
  {
    forall k | 0 <= k < |s| ensures Reorder(s, i, i)[k] == s[k] {
      ReorderAt(s, i, i, k);
    }
  }

  /** The contents are moved one place further on, so the first content never moves. */
  lemma ReorderKeepsHead<T>(s: seq<T>, from: nat, to: nat)
    requires from + 1 < |s| && to + 1 < |s|
    ensures Reorder(s, from + 1, to + 1)[0] == s[0]
  {
    ReorderAt(s, from + 1, to + 1, 0);
  }

  /** Stripping labels commutes with moving them. */
  lemma MapStripReorder(ts: seq<string>, from: nat, to: nat)
    requires from < |ts| && to < |ts|
    ensures MapStrip(Reorder(ts, from, to)) == Reorder(MapStrip(ts), from, to)
  {
    forall i | 0 <= i < |ts|
      ensures MapStrip(Reorder(ts, from, to))[i] == Reorder(MapStrip(ts), from, to)[i]
    {
      ReorderAt(ts, from, to, i);
      ReorderAt(MapStrip(ts), from, to, i);
    }
  }

  /**
    `updateBrainDumps`: an empty body leaves the list as it was; any other
    body replaces it by the body's labels (none when nothing matches),
    which on a body without dangling lines are its tilde-lines, stripped,
    in order.
  */
  function UpdateBrainDumps(body: string, current: seq<string>): (r: seq<string>)
    ensures body == "" ==> r == current
    ensures body != "" && Split(body).tildes == [] ==> r == []
    ensures body != "" && NoDanglingLine(body) ==> r == MapStrip(TildeLinesOf(body))
  {
    if body == "" then current
    else
      assert NoDanglingLine(body) ==> Labels(body) == MapStrip(TildeLinesOf(body)) by {
        if NoDanglingLine(body) { LabelsByLines(body); }
      }
      Labels(body)
  }

  /**
    The text the `forEach` of `onDragEnd` has built after the first `i`
    contents, given the contents already trimmed: each content followed by
    its tilde-line between blank lines when there is one.
  */
  function Reassembled(contents: seq<string>, tildes: seq<string>, i: nat): string
    requires i <= |contents|
  {
    if i == 0 then ""
    else
      Reassembled(contents, tildes, i - 1) + contents[i - 1]
      + (if i - 1 < |tildes| && tildes[i - 1] != "" then "\n\n" + tildes[i - 1] + "\n\n" else "")
  }

  /** Every content trimmed, in order. */
  function TrimAll(contents: seq<string>): (r: seq<string>)
    ensures |r| == |contents|
    ensures forall k :: 0 <= k < |contents| ==> r[k] == Trim(contents[k])
  {
    seq(|contents|, k requires 0 <= k < |contents| => Trim(contents[k]))
  }

  /** One round of the loop of `onDragEnd`, as `Reassembled` counts it. */
  lemma ReassembledStep(contents: seq<string>, tildes: seq<string>, i: nat, before: string, after: string)
    requires i < |contents| && before == Reassembled(contents, tildes, i)
    requires after == if i < |tildes| && tildes[i] != "" then before + contents[i] + "\n\n" + tildes[i] + "\n\n"
      else before + contents[i]
    ensures after == Reassembled(contents, tildes, i + 1)
  {
  }

  /** A drag dispatches a new body and stores a new list of brain dumps. */
  datatype Drop = Drop(body: string, brainDumps: seq<string>)

  predicate Movable(body: string, from: nat, to: nat)
  {
    from < |Split(body).tildes| && to < |Split(body).tildes|
  }

  /** The body after dragging brain dump `from` to `to`. */
  function MovedBody(body: string, from: nat, to: nat): string
    requires Movable(body, from, to)
  {
    var seg := Split(body);
    var contents := Reorder(seg.contents, from + 1, to + 1);
    Trim(Reassembled(TrimAll(contents), Reorder(seg.tildes, from, to), |contents|))
  }

  /**
    The `forEach` of `onDragEnd` and the final `trim`: each content trimmed
    and followed by its tilde-line between blank lines when there is one.
  */
  method JoinBody(contents: seq<string>, tildes: seq<string>) returns (body: string)
    ensures body == Trim(Reassembled(TrimAll(contents), tildes, |contents|))
  {
    ghost var cs := TrimAll(contents);
    var updated := "";
    var i := 0;
    while i < |contents|
      invariant 0 <= i <= |contents|
      invariant updated == Reassembled(cs, tildes, i)
    {
      ghost var before := updated;
      var c := Trim(contents[i]);
      assert c == cs[i];
      updated := updated + c;
      if i < |tildes| && tildes[i] != "" {
        updated := updated + "\n\n" + tildes[i] + "\n\n";
      }
      ReassembledStep(cs, tildes, i, before, updated);
      i := i + 1;
    }
    body := Trim(updated);
  }

  /**
    A drag from `from` to `to`: move the tilde-lines, the contents (one
    place further on) and the displayed list alike, and rebuild the body.
    On a well-formed body whose list is current, the new list is exactly
    the labels of the new body.
  */
  method Drag(body: string, brainDumps: seq<string>, from: nat, to: nat) returns (r: Drop)
    requires Movable(body, from, to) && from < |brainDumps| && to < |brainDumps|
    ensures r == Drop(MovedBody(body, from, to), Reorder(brainDumps, from, to))
    ensures brainDumps == Labels(body) && WellFormed(body) ==> Labels(r.body) == r.brainDumps
  {
    var seg := Split(body);
    var tildes := Reorder(seg.tildes, from, to);
    var dumps := Reorder(brainDumps, from, to);
    var contents := Reorder(seg.contents, from + 1, to + 1);
    var updated := JoinBody(contents, tildes);
    r := Drop(updated, dumps);
    assert brainDumps == Labels(body) && WellFormed(body) ==> Labels(r.body) == r.brainDumps by {
      if brainDumps == Labels(body) && WellFormed(body) {
        MoveRoundTrip(body, from, to);
      }
    }
  }

  /**
    A drag on a body where `match` finds no tilde-line: `match` gives `null`
    and indexing the reordered tilde-lines throws.
  */
  datatype DragFault = NoTildeLines

  /**
    `onDragEnd`: nothing happens when the drag was cancelled or dropped
    where it started; a drag on a body without tilde-lines faults;
    otherwise the drag is carried out.
  */
  method OnDragEnd(body: string, brainDumps: seq<string>, from: nat, destination: Option<nat>)
    returns (r: Result<Option<Drop>, DragFault>)
    requires destination.Some? && destination.value != from && Split(body).tildes != [] ==>
      Movable(body, from, destination.value) && from < |brainDumps| && destination.value < |brainDumps|
    ensures destination.None? || destination.value == from ==> r == Ok(None)
    ensures destination.Some? && destination.value != from && Split(body).tildes == [] ==> r == Err(NoTildeLines)
    ensures destination.Some? && destination.value != from && Split(body).tildes != [] ==>
      r == Ok(Some(Drop(MovedBody(body, from, destination.value), Reorder(brainDumps, from, destination.value))))
    ensures r.Ok? && r.value.Some? && brainDumps == Labels(body) && WellFormed(body) ==>
      Labels(r.value.value.body) == r.value.value.brainDumps
  {
    if destination.None? || destination.value == from {
      return Ok(None);
    }
    var seg := Split(body);
    if seg.tildes == [] {
      return Err(NoTildeLines);
    }
    var d := Drag(body, brainDumps, from, destination.value);
    r := Ok(Some(d));
  }

  /**
    The bodies on which a move round-trips: no dangling line, no trimmed
    content that would itself read as tilde-lines or dangling lines once it
    starts a line, and no tilde-line ending in a space (the final `trim`
    could eat it).
  */
  predicate WellFormed(body: string)
  {
    && NoDanglingLine(body)
    && (forall c <- Split(body).contents :: Inert(Trim(c)))
    && (forall t <- Split(body).tildes :: t[|t| - 1] != ' ')
  }

  /** Tilde-line `j` is one line, and does not end in a space. */
  predicate TildeAt(tildes: seq<string>, j: nat)
    requires j < |tildes|
  {
    TildeLine(tildes[j]) && NoTerm(tildes[j]) && tildes[j][|tildes[j]| - 1] != ' '
  }

  /** Content `j` is inert and trimmed. */
  predicate InertAt(contents: seq<string>, j: nat)
    requires j < |contents|
  {
    var c := contents[j];
    Inert(c) && (c == [] || (!IsWs(c[0]) && !IsWs(c[|c| - 1])))
  }

  /** The pieces a reassembly is made of, as `MoveTildes` needs them. */
  predicate Assemblable(contents: seq<string>, tildes: seq<string>)
  {
    && |contents| == |tildes| + 1 && |tildes| >= 1
    && (forall j :: 0 <= j < |tildes| ==> TildeAt(tildes, j))
    && (forall j :: 0 <= j < |contents| ==> InertAt(contents, j))
  }

  /** A blank line, a line and a blank line. */
  lemma LinesOfPadded(t: string)
    requires NoTerm(t)
    ensures Lines("\n" + t + "\n") == ["", t, ""]
  {
    LinesOfLine(t);
    LinesJoin(t, '\n', "");
    assert t + ['\n'] + "" == t + "\n";
    assert Lines("") == [""];
    LinesJoin("", '\n', t + "\n");
    assert "" + ['\n'] + (t + "\n") == "\n" + t + "\n";
  }

  /** The lines of a text, a blank line, a line and a blank line. */
  lemma LinesOfBlock(c: string, t: string)
    requires NoTerm(t)
    ensures Lines(c + "\n\n" + t + "\n") == Lines(c) + ["", t, ""]
  {
    LinesOfPadded(t);
    LinesJoin(c, '\n', "\n" + t + "\n");
    assert c + ['\n'] + ("\n" + t + "\n") == c + "\n\n" + t + "\n";
  }

  lemma TildeLineNotDangling(t: string)
    requires TildeLine(t)
    ensures !Dangling(t)
  {
    assert !IsWs(t[WsEnd(t, 1)]);
  }

  /** The lines of an inert text followed by a blank line, a tilde-line and a blank line. */
  lemma BlockTildes(c: string, t: string)
    requires Inert(c) && TildeLine(t) && NoTerm(t)
    ensures TildeLinesOf(c + "\n\n" + t + "\n") == [t]
    ensures NoDanglingLine(c + "\n\n" + t + "\n")
  {
    LinesOfBlock(c, t);
    FilterTildeAppend(Lines(c), ["", t, ""]);
    assert ["", t, ""] == [""] + [t] + [""];
    FilterTildeAppend([""] + [t], [""]);
    FilterTildeAppend([""], [t]);
    assert [t][1..] == [] && [""][1..] == [];
    TildeLineNotDangling(t);
  }

  /** Two texts joined by a line terminator: the tilde-lines of each, and no dangling line in either. */
  lemma JoinTildes(a: string, b: string)
    ensures TildeLinesOf(a + "\n" + b) == TildeLinesOf(a) + TildeLinesOf(b)
    ensures NoDanglingLine(a + "\n" + b) <==> NoDanglingLine(a) && NoDanglingLine(b)
  {
    assert a + "\n" + b == a + ['\n'] + b;
    JoinAtTerm(a, '\n', b);
  }

  /** Two texts joined by any line terminator. */
  lemma JoinAtTerm(a: string, c: char, b: string)
    requires IsTerm(c)
    ensures TildeLinesOf(a + [c] + b) == TildeLinesOf(a) + TildeLinesOf(b)
    ensures NoDanglingLine(a + [c] + b) <==> NoDanglingLine(a) && NoDanglingLine(b)
  {
    LinesJoin(a, c, b);
    FilterTildeAppend(Lines(a), Lines(b));
  }

  /** One more block after a text: its tilde-line is added and no dangling line appears. */
  lemma StepTildes(w: string, c: string, t: string, prefix: seq<string>)
    requires Inert(c) && TildeLine(t) && NoTerm(t)
    requires TildeLinesOf(w) == prefix && NoDanglingLine(w)
    ensures TildeLinesOf(w + "\n" + (c + "\n\n" + t + "\n")) == prefix + [t]
    ensures NoDanglingLine(w + "\n" + (c + "\n\n" + t + "\n"))
  {
    BlockTildes(c, t);
    JoinTildes(w, c + "\n\n" + t + "\n");
  }

  /**
    After the first `i` rounds of the loop the text built so far is
    `w + "\n"`, where `w` holds exactly the first `i` tilde-lines and no
    dangling line.
  */
  predicate PrefixHolds(contents: seq<string>, tildes: seq<string>, i: nat)
    requires i <= |contents| && i <= |tildes|
  {
    var r := Reassembled(contents, tildes, i);
    && |r| >= 1 && r[|r| - 1] == '\n'
    && TildeLinesOf(r[..|r| - 1]) == tildes[..i]
    && NoDanglingLine(r[..|r| - 1])
  }

  lemma PrefixFirst(contents: seq<string>, tildes: seq<string>)
    requires Assemblable(contents, tildes)
    ensures PrefixHolds(contents, tildes, 1)
  {
    var c := contents[0];
    var t := tildes[0];
    var r := Reassembled(contents, tildes, 1);
    assert TildeAt(tildes, 0) && InertAt(contents, 0);
    assert Reassembled(contents, tildes, 0) == "";
    assert t != "";
    assert r == c + "\n\n" + t + "\n\n";
    BlockTildes(c, t);
    assert r[..|r| - 1] == c + "\n\n" + t + "\n";
    assert tildes[..1] == [t];
  }

  lemma PrefixNext(contents: seq<string>, tildes: seq<string>, i: nat)
    requires Assemblable(contents, tildes)
    requires 2 <= i <= |tildes| && PrefixHolds(contents, tildes, i - 1)
    ensures PrefixHolds(contents, tildes, i)
  {
    var c := contents[i - 1];
    var t := tildes[i - 1];
    var prev := Reassembled(contents, tildes, i - 1);
    var r := Reassembled(contents, tildes, i);
    var pw := prev[..|prev| - 1];
    assert TildeAt(tildes, i - 1) && InertAt(contents, i - 1);
    assert r[..|r| - 1] == pw + "\n" + (c + "\n\n" + t + "\n") by {
      assert r == prev + c + "\n\n" + t + "\n\n";
    }
    StepTildes(pw, c, t, tildes[..i - 1]);
    assert tildes[..i] == tildes[..i - 1] + [t];
  }

  lemma {:induction false} ReassembledPrefix(contents: seq<string>, tildes: seq<string>, i: nat)
    requires Assemblable(contents, tildes)
    requires 1 <= i <= |tildes|
    ensures PrefixHolds(contents, tildes, i)
  {
    if i == 1 {
      PrefixFirst(contents, tildes);
    } else {
      ReassembledPrefix(contents, tildes, i - 1);
      PrefixNext(contents, tildes, i);
    }
  }

  /** The last content, after the last block, adds no tilde-line and no dangling line. */
  lemma FinishTildes(prev: string, last: string, prefix: seq<string>)
    requires |prev| >= 1 && prev[|prev| - 1] == '\n'
    requires TildeLinesOf(prev[..|prev| - 1]) == prefix && NoDanglingLine(prev[..|prev| - 1])
    requires Inert(last)
    ensures TildeLinesOf(prev + last) == prefix
    ensures NoDanglingLine(prev + last)
  {
    var w := prev[..|prev| - 1];
    assert prev + last == w + "\n" + last;
    JoinTildes(w, last);
  }

  /** The untrimmed reassembly holds exactly the given tilde-lines, in order, and no dangling line. */
  lemma ReassembledTildes(contents: seq<string>, tildes: seq<string>)
    requires Assemblable(contents, tildes)
    ensures TildeLinesOf(Reassembled(contents, tildes, |contents|)) == tildes
    ensures NoDanglingLine(Reassembled(contents, tildes, |contents|))
  {
    var n := |tildes|;
    ReassembledPrefix(contents, tildes, n);
    assert InertAt(contents, n);
    assert tildes[..n] == tildes;
    assert Reassembled(contents, tildes, n + 1) == Reassembled(contents, tildes, n) + contents[n];
    FinishTildes(Reassembled(contents, tildes, n), contents[n], tildes);
  }

  lemma {:induction false} ReassembledGrows(contents: seq<string>, tildes: seq<string>, i: nat, j: nat)
    requires i <= j <= |contents|
    ensures Reassembled(contents, tildes, i) <= Reassembled(contents, tildes, j)
    decreases j - i
  {
    if i < j {
      ReassembledGrows(contents, tildes, i, j - 1);
    }
  }

  lemma TildeLineLast(t: string)
    requires TildeLine(t) && t[|t| - 1] != ' '
    ensures !IsWs(t[|t| - 1])
  {
    var m := WsEnd(t, 1);
    assert t[m..][|t| - 1 - m] == t[|t| - 1];
  }

  /** Two blank lines in front of a text add no tilde-line and no dangling line. */
  lemma BlankFront(y: string)
    ensures TildeLinesOf("\n\n" + y) == TildeLinesOf(y)
    ensures NoDanglingLine("\n\n" + y) <==> NoDanglingLine(y)
  {
    LinesOfLine("");
    JoinTildes("", y);
    JoinTildes("", "\n" + y);
    assert "" + "\n" + y == "\n" + y;
    assert "" + "\n" + ("\n" + y) == "\n\n" + y;
  }

  /** Two blank lines after a text add no tilde-line and no dangling line. */
  lemma BlankBack(z: string)
    ensures TildeLinesOf(z + "\n\n") == TildeLinesOf(z)
    ensures NoDanglingLine(z + "\n\n") <==> NoDanglingLine(z)
  {
    LinesOfLine("");
    JoinTildes("", "");
    JoinTildes(z, "\n");
    assert "" + "\n" + "" == "\n";
    assert z + "\n" + "\n" == z + "\n\n";
  }

  /** Where the reassembly's final `trim` cuts: `a` blank characters in front and `b` at the back. */
  lemma TrimCut(x: string, a: nat, b: nat)
    requires (a == 0 || a == 2) && (b == 0 || b == 2) && a + b < |x|
    requires !IsWs(x[a]) && !IsWs(x[|x| - 1 - b])
    requires a == 2 ==> x[0] == '\n' && x[1] == '\n'
    requires b == 2 ==> x[|x| - 2] == '\n' && x[|x| - 1] == '\n'
    ensures Trim(x) == x[a..][..|x[a..]| - b]
  {
    LeadingWsUnique(x, a);
    TrailingWsUnique(x[a..], b);
  }

  /** Two newlines in front. */
  lemma FrontCut(x: string)
    requires |x| >= 2 && x[0] == '\n' && x[1] == '\n'
    ensures x == "\n\n" + x[2..]
  {
  }

  /** Two newlines at the back. */
  lemma BackCut(y: string)
    requires |y| >= 2 && y[|y| - 2] == '\n' && y[|y| - 1] == '\n'
    ensures y == y[..|y| - 2] + "\n\n"
  {
  }

  /**
    A text that starts with at most two blank lines and ends with at most
    two: trimming it removes just those, which adds or removes no tilde-line
    and no dangling line.
  */
  lemma TrimAround(x: string, a: nat, b: nat)
    requires (a == 0 || a == 2) && (b == 0 || b == 2) && a + b < |x|
    requires !IsWs(x[a]) && !IsWs(x[|x| - 1 - b])
    requires a == 2 ==> x[0] == '\n' && x[1] == '\n'
    requires b == 2 ==> x[|x| - 2] == '\n' && x[|x| - 1] == '\n'
    ensures TildeLinesOf(Trim(x)) == TildeLinesOf(x)
    ensures NoDanglingLine(Trim(x)) <==> NoDanglingLine(x)
  {
    TrimCut(x, a, b);
    var y := x[a..];
    var z := y[..|y| - b];
    if a == 2 {
      FrontCut(x);
      BlankFront(y);
    } else {
      assert x == y;
    }
    if b == 2 {
      BackCut(y);
      BlankBack(z);
    } else {
      assert y == z;
    }
  }

  /** The reassembled text begins with the first content, two newlines and the first tilde-line. */
  lemma ReassembledHead(contents: seq<string>, tildes: seq<string>)
    requires Assemblable(contents, tildes)
    ensures Reassembled(contents, tildes, 1) == contents[0] + "\n\n" + tildes[0] + "\n\n"
    ensures Reassembled(contents, tildes, 1) <= Reassembled(contents, tildes, |contents|)
  {
    assert TildeAt(tildes, 0);
    assert Reassembled(contents, tildes, 0) == "";
    ReassembledGrows(contents, tildes, 1, |contents|);
  }

  /** The reassembled text ends with the last tilde-line, two newlines and the last content. */
  lemma ReassembledTail(contents: seq<string>, tildes: seq<string>)
    requires |contents| == |tildes| + 1 && |tildes| >= 1 && tildes[|tildes| - 1] != ""
    ensures var n := |tildes|;
      Reassembled(contents, tildes, n + 1)
      == (Reassembled(contents, tildes, n - 1) + contents[n - 1] + ("\n\n" + tildes[n - 1] + "\n\n")) + contents[n]
  {
  }

  /** Blank lines a trim removes at the front: two when the first content is empty, else none. */
  function FrontGap(contents: seq<string>): nat
    requires |contents| >= 1
  {
    if contents[0] == "" then 2 else 0
  }

  /** Blank lines a trim removes at the back: two when the last content is empty, else none. */
  function BackGap(contents: seq<string>): nat
    requires |contents| >= 1
  {
    if contents[|contents| - 1] == "" then 2 else 0
  }

  /** The reassembled text starts with its first content, or else with two newlines and the first tilde-line. */
  lemma ReassembledFront(contents: seq<string>, tildes: seq<string>)
    requires Assemblable(contents, tildes)
    ensures var x := Reassembled(contents, tildes, |contents|); var a := FrontGap(contents);
      && a < |x| && !IsWs(x[a])
      && (a == 2 ==> x[0] == '\n' && x[1] == '\n')
  {
    var x := Reassembled(contents, tildes, |contents|);
    var first := contents[0];
    var t0 := tildes[0];
    assert TildeAt(tildes, 0) && InertAt(contents, 0);
    ReassembledHead(contents, tildes);
    assert x[FrontGap(contents)] == if first == "" then t0[0] else first[0];
  }

  /** The reassembled text ends with its last content, or else with the last tilde-line and two newlines. */
  lemma ReassembledBack(contents: seq<string>, tildes: seq<string>)
    requires Assemblable(contents, tildes)
    ensures var x := Reassembled(contents, tildes, |contents|); var b := BackGap(contents);
      && b < |x| && !IsWs(x[|x| - 1 - b])
      && (b == 2 ==> x[|x| - 2] == '\n' && x[|x| - 1] == '\n')
  {
    var n := |tildes|;
    var x := Reassembled(contents, tildes, n + 1);
    var last := contents[n];
    var tl := tildes[n - 1];
    assert TildeAt(tildes, n - 1) && InertAt(contents, n);
    TildeLineLast(tl);
    ReassembledTail(contents, tildes);
    assert x[|x| - 1 - BackGap(contents)] == if last == "" then tl[|tl| - 1] else last[|last| - 1];
  }

  /** The first and the last content are not both next to the same character. */
  lemma ReassembledGaps(contents: seq<string>, tildes: seq<string>)
    requires Assemblable(contents, tildes)
    ensures FrontGap(contents) + BackGap(contents) < |Reassembled(contents, tildes, |contents|)|
  {
    assert TildeAt(tildes, 0);
    ReassembledHead(contents, tildes);
    if BackGap(contents) == 2 {
      ReassembledBack(contents, tildes);
    }
  }

  /**
    The final `trim` of the reassembled text removes at most the blank lines
    around it, so the rebuilt body holds exactly the moved tilde-lines, in
    their new order, and no dangling line.
  */
  lemma MoveTildes(contents: seq<string>, tildes: seq<string>)
    requires Assemblable(contents, tildes)
    ensures TildeLinesOf(Trim(Reassembled(contents, tildes, |contents|))) == tildes
    ensures NoDanglingLine(Trim(Reassembled(contents, tildes, |contents|)))
  {
    ReassembledTildes(contents, tildes);
    ReassembledFront(contents, tildes);
    ReassembledBack(contents, tildes);
    ReassembledGaps(contents, tildes);
    TrimAround(Reassembled(contents, tildes, |contents|), FrontGap(contents), BackGap(contents));
  }

  /** Two readings with the same tilde-lines whose pieces trim alike. */
  predicate SameTrims(g: Segments, h: Segments)
  {
    g.tildes == h.tildes && TrimAll(g.contents) == TrimAll(h.contents)
  }

  /** Pieces that trim alike one by one trim alike as a list. */
  lemma TrimAllSame(u: seq<string>, v: seq<string>)
    requires |u| == |v| && forall k :: 0 <= k < |u| ==> Trim(u[k]) == Trim(v[k])
    ensures TrimAll(u) == TrimAll(v)
  {
  }

  /** A blank line in front of a text changes its pieces only by whitespace. */
  lemma GlueBlankFront(h: Segments)
    requires |h.contents| == |h.tildes| + 1
    ensures SameTrims(Glue(Segments([], [""]), h), h)
  {
    var g := Glue(Segments([], [""]), h);
    assert g.contents[0] == "\n" + h.contents[0];
    TrimWsFront("\n", h.contents[0]);
    forall k | 1 <= k < |g.contents| ensures g.contents[k] == h.contents[k] {
    }
    TrimAllSame(g.contents, h.contents);
  }

  /** A blank line after a text changes its pieces only by whitespace. */
  lemma GlueBlankBack(h: Segments)
    requires |h.contents| == |h.tildes| + 1
    ensures SameTrims(Glue(h, Segments([], [""])), h)
  {
    var n := |h.tildes|;
    var g := Glue(h, Segments([], [""]));
    assert g.contents[n] == h.contents[n] + "\n";
    TrimWsBack(h.contents[n], "\n");
    forall k | 0 <= k < n ensures g.contents[k] == h.contents[k] {
    }
    assert g.tildes == h.tildes + [];
    TrimAllSame(g.contents, h.contents);
  }

  /** Two blank lines in front of a text change its pieces only by whitespace. */
  lemma BlankFrontPieces(y: string)
    ensures SameTrims(LineSplit("\n\n" + y, 0, 0), LineSplit(y, 0, 0))
  {
    var e := LineSplit("", 0, 0);
    assert e == Segments([], [""]);
    LineSplitJoin("", y);
    LineSplitJoin("", "" + "\n" + y);
    assert "" + "\n" + ("" + "\n" + y) == "\n\n" + y;
    GlueBlankFront(LineSplit(y, 0, 0));
    GlueBlankFront(LineSplit("" + "\n" + y, 0, 0));
  }

  /** Two blank lines after a text change its pieces only by whitespace. */
  lemma BlankBackPieces(z: string)
    ensures SameTrims(LineSplit(z + "\n\n", 0, 0), LineSplit(z, 0, 0))
  {
    var e := LineSplit("", 0, 0);
    assert e == Segments([], [""]);
    LineSplitJoin(z, "");
    LineSplitJoin(z + "\n" + "", "");
    assert z + "\n" + "" + "\n" + "" == z + "\n\n";
    GlueBlankBack(LineSplit(z, 0, 0));
    GlueBlankBack(LineSplit(z + "\n" + "", 0, 0));
  }

  /** The pieces of a tilde-line and a blank line. */
  lemma TildeBlankPieces(t: string)
    requires TildeLine(t) && NoTerm(t)
    ensures LineSplit(t + "\n" + "", 0, 0) == Segments([t], ["", "\n"])
  {
    var e := Segments([], [""]);
    assert LineSplit("", 0, 0) == e;
    LineSplitTilde(t);
    LineSplitJoin(t, "");
    var g := Glue(Segments([t], ["", ""]), e);
    assert g.tildes == [t] + [] == [t];
    assert g.contents == ["", ""][..1] + ["" + "\n" + ""] + [""][1..];
    assert ["", ""][..1] == [""] && [""][1..] == [] && "" + "\n" + "" == "\n";
    assert g.contents == ["", "\n"];
  }

  /** The pieces of a blank line, a tilde-line and a blank line. */
  lemma PaddedPieces(t: string)
    requires TildeLine(t) && NoTerm(t)
    ensures LineSplit("\n" + t + "\n", 0, 0) == Segments([t], ["\n", "\n"])
  {
    var e := Segments([], [""]);
    assert LineSplit("", 0, 0) == e;
    var tb := t + "\n" + "";
    TildeBlankPieces(t);
    LineSplitJoin("", tb);
    assert "" + "\n" + tb == "\n" + t + "\n";
    var g := Glue(e, Segments([t], ["", "\n"]));
    assert g.tildes == [] + [t] == [t];
    assert g.contents == [""][..0] + ["" + "\n" + ""] + ["", "\n"][1..];
    assert g.contents == ["\n", "\n"];
  }

  /** The pieces of an inert text, a blank line, a tilde-line and a blank line. */
  lemma BlockPieces(c: string, t: string)
    requires Inert(c) && TildeLine(t) && NoTerm(t)
    ensures LineSplit(c + "\n\n" + t + "\n", 0, 0) == Segments([t], [c + "\n\n", "\n"])
  {
    var btb := "\n" + t + "\n";
    PaddedPieces(t);
    assert c[0..] == c;
    LineSplitNone(c, 0, 0);
    LineSplitJoin(c, btb);
    assert c + "\n" + btb == c + "\n\n" + t + "\n";
    assert c + "\n" + "\n" == c + "\n\n";
    assert [c][..0] == [] && ["\n", "\n"][1..] == ["\n"] && [] + [t] == [t];
  }

  /**
    The pieces of `w` when `w + "\n"` is the text built after `i` rounds of
    the loop: the first `i` tilde-lines, then the first `i` contents padded
    with whitespace and a last piece holding a newline.
  */
  predicate PiecesOk(g: Segments, contents: seq<string>, tildes: seq<string>, i: nat)
    requires i <= |contents| && i <= |tildes|
  {
    && g.tildes == tildes[..i] && |g.contents| == i + 1 && g.contents[i] == "\n"
    && forall k :: 0 <= k < i ==> Trim(g.contents[k]) == contents[k]
  }

  /** After the first `i` rounds of the loop the text built so far ends in a newline, and its pieces before it are `PiecesOk`. */
  predicate PiecesHold(contents: seq<string>, tildes: seq<string>, i: nat)
    requires i <= |contents| && i <= |tildes|
  {
    var r := Reassembled(contents, tildes, i);
    |r| >= 1 && r[|r| - 1] == '\n' && PiecesOk(LineSplit(r[..|r| - 1], 0, 0), contents, tildes, i)
  }

  /** Round `i` of the loop adds the content, a blank line, the tilde-line and a blank line. */
  lemma RoundText(contents: seq<string>, tildes: seq<string>, i: nat)
    requires Assemblable(contents, tildes) && 1 <= i <= |tildes|
    ensures var r := Reassembled(contents, tildes, i);
      && |r| >= 1 && r[|r| - 1] == '\n'
      && r[..|r| - 1] == Reassembled(contents, tildes, i - 1) + (contents[i - 1] + "\n\n" + tildes[i - 1] + "\n")
  {
    var t := tildes[i - 1];
    assert TildeAt(tildes, i - 1);
    assert t != "";
    var r := Reassembled(contents, tildes, i);
    var prev := Reassembled(contents, tildes, i - 1);
    assert r == prev + (contents[i - 1] + "\n\n" + t + "\n") + "\n";
  }

  /** The first round's pieces: the first content then the first tilde-line. */
  lemma PiecesFirst(contents: seq<string>, tildes: seq<string>)
    requires Assemblable(contents, tildes)
    ensures PiecesHold(contents, tildes, 1)
  {
    var c := contents[0];
    var t := tildes[0];
    assert TildeAt(tildes, 0) && InertAt(contents, 0);
    RoundText(contents, tildes, 1);
    assert Reassembled(contents, tildes, 0) == "";
    assert "" + (c + "\n\n" + t + "\n") == c + "\n\n" + t + "\n";
    BlockPieces(c, t);
    FirstOk(Segments([t], [c + "\n\n", "\n"]), contents, tildes);
  }

  /** The first block's pieces are `PiecesOk` after one round. */
  lemma FirstOk(g: Segments, contents: seq<string>, tildes: seq<string>)
    requires Assemblable(contents, tildes)
    requires g == Segments([tildes[0]], [contents[0] + "\n\n", "\n"])
    ensures PiecesOk(g, contents, tildes, 1)
  {
    assert InertAt(contents, 0);
    TrimPadded("", contents[0], "\n\n");
    assert "" + contents[0] + "\n\n" == contents[0] + "\n\n";
    assert tildes[..1] == [tildes[0]];
  }

  /** A later block joined to the text built so far: its tilde-line and content follow the earlier ones. */
  lemma JoinBlock(pw: string, c: string, t: string, block: string)
    requires Inert(c) && TildeLine(t) && NoTerm(t) && block == c + "\n\n" + t + "\n"
    ensures LineSplit(pw + "\n" + block, 0, 0) == Glue(LineSplit(pw, 0, 0), Segments([t], [c + "\n\n", "\n"]))
  {
    LineSplitJoin(pw, block);
    BlockPieces(c, t);
  }

  /** Gluing block `i` to pieces that are `PiecesOk` after round `i - 1` keeps them `PiecesOk`. */
  lemma NextOk(g: Segments, contents: seq<string>, tildes: seq<string>, i: nat)
    requires Assemblable(contents, tildes) && 2 <= i <= |tildes|
    requires PiecesOk(g, contents, tildes, i - 1)
    ensures PiecesOk(Glue(g, Segments([tildes[i - 1]], [contents[i - 1] + "\n\n", "\n"])), contents, tildes, i)
  {
    var c := contents[i - 1];
    var t := tildes[i - 1];
    var h := Glue(g, Segments([t], [c + "\n\n", "\n"]));
    assert InertAt(contents, i - 1);
    GlueAt(g, Segments([t], [c + "\n\n", "\n"]));
    TrimPadded("\n\n", c, "\n\n");
    assert "\n" + "\n" + (c + "\n\n") == "\n\n" + c + "\n\n";
    assert tildes[..i] == tildes[..i - 1] + [t];
  }

  /** One more round of the loop keeps `PiecesHold`. */
  lemma PiecesNext(contents: seq<string>, tildes: seq<string>, i: nat)
    requires Assemblable(contents, tildes)
    requires 2 <= i <= |tildes| && PiecesHold(contents, tildes, i - 1)
    ensures PiecesHold(contents, tildes, i)
  {
    var c := contents[i - 1];
    var t := tildes[i - 1];
    var prev := Reassembled(contents, tildes, i - 1);
    var pw := prev[..|prev| - 1];
    var block := c + "\n\n" + t + "\n";
    assert TildeAt(tildes, i - 1) && InertAt(contents, i - 1);
    RoundText(contents, tildes, i);
    assert prev == pw + "\n";
    assert prev + block == pw + "\n" + block;
    JoinBlock(pw, c, t, block);
    NextOk(LineSplit(pw, 0, 0), contents, tildes, i);
  }

  lemma {:induction false} ReassembledPieces(contents: seq<string>, tildes: seq<string>, i: nat)
    requires Assemblable(contents, tildes)
    requires 1 <= i <= |tildes|
    ensures PiecesHold(contents, tildes, i)
  {
    if i == 1 {
      PiecesFirst(contents, tildes);
    } else {
      ReassembledPieces(contents, tildes, i - 1);
      PiecesNext(contents, tildes, i);
    }
  }

  /** Gluing the last content to pieces that are `PiecesOk` after every round: all contents are there. */
  lemma LastOk(g: Segments, contents: seq<string>, tildes: seq<string>)
    requires Assemblable(contents, tildes)
    requires PiecesOk(g, contents, tildes, |tildes|)
    ensures var x := Glue(g, Segments([], [contents[|tildes|]]));
      x.tildes == tildes && TrimAll(x.contents) == contents
  {
    var n := |tildes|;
    var c := contents[n];
    assert InertAt(contents, n);
    assert tildes[..n] == tildes;
    GlueAt(g, Segments([], [c]));
    assert "\n" + "\n" + c == "\n\n" + c + "";
    TrimPadded("\n\n", c, "");
    assert tildes + [] == tildes;
  }

  /** The last content joined to the text built so far. */
  lemma JoinLast(pw: string, c: string)
    requires Inert(c)
    ensures LineSplit(pw + "\n" + c, 0, 0) == Glue(LineSplit(pw, 0, 0), Segments([], [c]))
  {
    assert c[0..] == c;
    LineSplitNone(c, 0, 0);
    LineSplitJoin(pw, c);
  }

  /** The untrimmed reassembly has the given tilde-lines, and its pieces trim to the given contents. */
  lemma ReassembledContents(contents: seq<string>, tildes: seq<string>)
    requires Assemblable(contents, tildes)
    ensures var x := LineSplit(Reassembled(contents, tildes, |contents|), 0, 0);
      x.tildes == tildes && TrimAll(x.contents) == contents
  {
    var n := |tildes|;
    var c := contents[n];
    ReassembledPieces(contents, tildes, n);
    var prev := Reassembled(contents, tildes, n);
    var pw := prev[..|prev| - 1];
    assert Reassembled(contents, tildes, n + 1) == pw + "\n" + c by {
      assert Reassembled(contents, tildes, n + 1) == prev + c;
      assert prev == pw + "\n";
    }
    LastPieces(Reassembled(contents, tildes, n + 1), pw, contents, tildes);
  }

  /** The last piece, joined to a text `pw` that reads back as the pieces before it. */
  lemma LastPieces(x: string, pw: string, contents: seq<string>, tildes: seq<string>)
    requires Assemblable(contents, tildes)
    requires x == pw + "\n" + contents[|tildes|]
    requires PiecesOk(LineSplit(pw, 0, 0), contents, tildes, |tildes|)
    ensures var r := LineSplit(x, 0, 0); r.tildes == tildes && TrimAll(r.contents) == contents
  {
    assert InertAt(contents, |tildes|);
    JoinLast(pw, contents[|tildes|]);
    LastOk(LineSplit(pw, 0, 0), contents, tildes);
  }

  /**
    The final `trim` of the reassembly removes only blank lines (`TrimCut`),
    so the pieces trim as before.
  */
  lemma TrimAroundPieces(x: string, a: nat, b: nat)
    requires (a == 0 || a == 2) && (b == 0 || b == 2) && a + b <= |x|
    requires a == 2 ==> x[0] == '\n' && x[1] == '\n'
    requires b == 2 ==> x[|x| - 2] == '\n' && x[|x| - 1] == '\n'
    ensures SameTrims(LineSplit(x[a..][..|x[a..]| - b], 0, 0), LineSplit(x, 0, 0))
  {
    var y := x[a..];
    var z := y[..|y| - b];
    if a == 2 {
      FrontCut(x);
    } else {
      assert x == y;
    }
    if b == 2 {
      BackCut(y);
    } else {
      assert y == z;
    }
    BackPeel(y, z, b == 2);
    FrontPeel(x, y, a == 2);
  }

  lemma FrontPeel(x: string, y: string, blank: bool)
    requires x == (if blank then "\n\n" + y else y)
    ensures SameTrims(LineSplit(y, 0, 0), LineSplit(x, 0, 0))
  {
    if blank {
      BlankFrontPieces(y);
    }
  }

  lemma BackPeel(y: string, z: string, blank: bool)
    requires y == (if blank then z + "\n\n" else z)
    ensures SameTrims(LineSplit(z, 0, 0), LineSplit(y, 0, 0))
  {
    if blank {
      BlankBackPieces(z);
    }
  }

  /**
    The rebuilt body read line by line: the given tilde-lines, and pieces
    that trim to the given contents.
  */
  lemma MoveContents(contents: seq<string>, tildes: seq<string>)
    requires Assemblable(contents, tildes)
    ensures LineSplit(Trim(Reassembled(contents, tildes, |contents|)), 0, 0).tildes == tildes
    ensures TrimAll(LineSplit(Trim(Reassembled(contents, tildes, |contents|)), 0, 0).contents) == contents
  {
    var x := Reassembled(contents, tildes, |contents|);
    ReassembledFront(contents, tildes);
    ReassembledBack(contents, tildes);
    ReassembledGaps(contents, tildes);
    ReassembledContents(contents, tildes);
    ReadTrimmed(x, FrontGap(contents), BackGap(contents), contents, tildes);
  }

  /** A text whose reading has the given tilde-lines and contents keeps them when it is trimmed, if the trim cuts only blank lines. */
  lemma ReadTrimmed(x: string, a: nat, b: nat, contents: seq<string>, tildes: seq<string>)
    requires (a == 0 || a == 2) && (b == 0 || b == 2) && a + b < |x|
    requires !IsWs(x[a]) && !IsWs(x[|x| - 1 - b])
    requires a == 2 ==> x[0] == '\n' && x[1] == '\n'
    requires b == 2 ==> x[|x| - 2] == '\n' && x[|x| - 1] == '\n'
    requires LineSplit(x, 0, 0).tildes == tildes && TrimAll(LineSplit(x, 0, 0).contents) == contents
    ensures LineSplit(Trim(x), 0, 0).tildes == tildes && TrimAll(LineSplit(Trim(x), 0, 0).contents) == contents
  {
    TrimCut(x, a, b);
    TrimAroundPieces(x, a, b);
  }

  /** The tilde-lines of a well-formed body are single lines that the regex matches and that end in a non-space. */
  lemma WellFormedTildes(body: string)
    requires WellFormed(body)
    ensures forall t <- Split(body).tildes :: TildeLine(t) && NoTerm(t) && t[|t| - 1] != ' '
  {
    SplitByLines(body);
    FilterTildeKeeps(Lines(body));
    LinesNoTerm(body);
  }

  /** Moving the pieces of a well-formed body gives pieces a reassembly accepts. */
  lemma MovedAssemblable(contents: seq<string>, tildes: seq<string>, from: nat, to: nat)
    requires |contents| == |tildes| + 1 && from < |tildes| && to < |tildes|
    requires forall t <- tildes :: TildeLine(t) && NoTerm(t) && t[|t| - 1] != ' '
    requires forall c <- contents :: Inert(Trim(c))
    ensures Assemblable(TrimAll(Reorder(contents, from + 1, to + 1)), Reorder(tildes, from, to))
  {
    var ts := Reorder(tildes, from, to);
    var cs := TrimAll(Reorder(contents, from + 1, to + 1));
    forall j | 0 <= j < |ts| ensures TildeAt(ts, j) {
      MovedTildeAt(tildes, from, to, j);
    }
    forall j | 0 <= j < |cs| ensures InertAt(cs, j) {
      MovedInertAt(contents, from, to, j);
    }
  }

  lemma MovedTildeAt(tildes: seq<string>, from: nat, to: nat, j: nat)
    requires from < |tildes| && to < |tildes| && j < |tildes|
    requires forall t <- tildes :: TildeLine(t) && NoTerm(t) && t[|t| - 1] != ' '
    ensures TildeAt(Reorder(tildes, from, to), j)
  {
    ReorderMember(tildes, from, to, j);
  }

  lemma MovedInertAt(contents: seq<string>, from: nat, to: nat, j: nat)
    requires from + 1 < |contents| && to + 1 < |contents| && j < |contents|
    requires forall c <- contents :: Inert(Trim(c))
    ensures InertAt(TrimAll(Reorder(contents, from + 1, to + 1)), j)
  {
    var moved := Reorder(contents, from + 1, to + 1);
    ReorderMember(contents, from + 1, to + 1, j);
    TrimEnds(moved[j]);
  }

  /**
    Round trip of a drag: on a well-formed body, the labels of the moved
    body are the old labels with item `from` moved to `to`, the moved body
    again has no dangling line, and `split` of the moved body gives back the
    old contents, trimmed, with content `from + 1` moved to `to + 1`.
  */
  lemma MoveRoundTrip(body: string, from: nat, to: nat)
    requires Movable(body, from, to) && WellFormed(body)
    ensures Labels(MovedBody(body, from, to)) == Reorder(Labels(body), from, to)
    ensures TildeLinesOf(MovedBody(body, from, to)) == Reorder(Split(body).tildes, from, to)
    ensures NoDanglingLine(MovedBody(body, from, to))
    ensures TrimAll(Split(MovedBody(body, from, to)).contents) == TrimAll(Reorder(Split(body).contents, from + 1, to + 1))
  {
    var seg := Split(body);
    WellFormedTildes(body);
    MovedAssemblable(seg.contents, seg.tildes, from, to);
    var contents := TrimAll(Reorder(seg.contents, from + 1, to + 1));
    MoveTildes(contents, Reorder(seg.tildes, from, to));
    MoveContents(contents, Reorder(seg.tildes, from, to));
    SplitByLines(MovedBody(body, from, to));
    SplitIsLineSplit(MovedBody(body, from, to));
    MapStripReorder(seg.tildes, from, to);
  }

  /**
    The text `onKeyPress` (and the reducer's ADD_BRAIN) appends for a new
    brain dump: a tilde-line, `~ ` and the label, and a blank line, straight after
    the body when the body is blank or already ends in a newline, and after
    a blank line otherwise.
  */
  function AppendTilde(body: string, item: string): (r: string)
    ensures |r| > |body| && r[..|body|] == body
    ensures EndsWith(r, "~ " + item + "\n\n")
  {
    if Trim(body) == "" || EndsWith(body, "\n") then body + "~ " + item + "\n\n"
    else body + "\n\n~ " + item + "\n\n"
  }

  /** A label that reads back as itself: non-empty, starting with a non-whitespace character, made of `[\S ]` only. */
  predicate GoodLabel(item: string)
  {
    item != [] && !IsWs(item[0]) && AllLabel(item)
  }

  /**
    The bodies an append reads back from: no dangling line, and a blank
    body is empty or ends in a line terminator (otherwise the new `~` does
    not start a line).
  */
  predicate Appendable(body: string)
  {
    NoDanglingLine(body) && (Trim(body) == "" ==> body == "" || IsTerm(body[|body| - 1]))
  }

  /** `~ ` and a good label make a tilde-line of one line whose label is that label again. */
  lemma TildeOfLabel(item: string)
    requires GoodLabel(item)
    ensures TildeLine("~ " + item) && NoTerm("~ " + item) && Strip("~ " + item) == item
  {
    var t := "~ " + item;
    assert forall i :: 2 <= i < |t| ==> t[i] == item[i - 2];
    WsEndUnique(t, 1, 2);
    assert t[2..] == item;
  }

  /** A tilde-line followed by a blank line. */
  lemma EntryTildes(t: string)
    requires TildeLine(t) && NoTerm(t)
    ensures TildeLinesOf(t + "\n\n") == [t]
    ensures NoDanglingLine(t + "\n\n")
  {
    BlankBack(t);
    LinesOfLine(t);
    TildeLineNotDangling(t);
    assert [t][1..] == [];
    assert FilterTilde([t]) == [t] + FilterTilde([]);
  }

  lemma EmptyTildes()
    ensures TildeLinesOf("") == [] && NoDanglingLine("")
  {
    LinesOfLine("");
  }

  /** Appending right after a line terminator adds one tilde-line. */
  lemma AppendAfterTerm(body: string, t: string)
    requires body != [] && IsTerm(body[|body| - 1])
    requires TildeLine(t) && NoTerm(t)
    ensures TildeLinesOf(body + (t + "\n\n")) == TildeLinesOf(body) + [t]
    ensures NoDanglingLine(body + (t + "\n\n")) <==> NoDanglingLine(body)
  {
    var a := body[..|body| - 1];
    var c := body[|body| - 1];
    assert body == a + [c] + "";
    assert body + (t + "\n\n") == a + [c] + (t + "\n\n");
    JoinAtTerm(a, c, "");
    JoinAtTerm(a, c, t + "\n\n");
    EmptyTildes();
    EntryTildes(t);
  }

  /** Appending after a blank line adds one tilde-line. */
  lemma AppendAfterText(body: string, t: string)
    requires TildeLine(t) && NoTerm(t)
    ensures TildeLinesOf(body + "\n" + ("\n" + (t + "\n\n"))) == TildeLinesOf(body) + [t]
    ensures NoDanglingLine(body + "\n" + ("\n" + (t + "\n\n"))) <==> NoDanglingLine(body)
  {
    JoinTildes(body, "\n" + (t + "\n\n"));
    JoinTildes("", t + "\n\n");
    assert "" + "\n" + (t + "\n\n") == "\n" + (t + "\n\n");
    EmptyTildes();
    EntryTildes(t);
  }

  /**
    An append to an appendable body adds exactly one tilde-line, `~ ` and
    the label, at the end of the body's list, and no dangling line.
  */
  lemma AppendTildes(body: string, item: string)
    requires Appendable(body) && GoodLabel(item)
    ensures TildeLinesOf(AppendTilde(body, item)) == TildeLinesOf(body) + ["~ " + item]
    ensures NoDanglingLine(AppendTilde(body, item))
  {
    var t := "~ " + item;
    var r := AppendTilde(body, item);
    TildeOfLabel(item);
    if Trim(body) == "" || EndsWith(body, "\n") {
      assert r == body + (t + "\n\n");
      if body == "" {
        assert r == t + "\n\n";
        EmptyTildes();
        EntryTildes(t);
      } else {
        assert IsTerm(body[|body| - 1]) by {
          EndsWithChar(body, '\n');
        }
        AppendAfterTerm(body, t);
      }
    } else {
      assert r == body + "\n" + ("\n" + (t + "\n\n"));
      AppendAfterText(body, t);
    }
  }

  /**
    Round trip of an append: on an appendable body and a good label, the
    labels of the new body are the old labels and then the new one.
  */
  lemma AppendRoundTrip(body: string, item: string)
    requires Appendable(body) && GoodLabel(item)
    ensures Labels(AppendTilde(body, item)) == Labels(body) + [item]
    ensures NoDanglingLine(AppendTilde(body, item))
  {
    AppendTildes(body, item);
    TildeOfLabel(item);
    LabelsGrow(body, AppendTilde(body, item), "~ " + item);
  }

  /** One more tilde-line, one more label. */
  lemma LabelsGrow(before: string, after: string, t: string)
    requires NoDanglingLine(before) && NoDanglingLine(after)
    requires TildeLinesOf(after) == TildeLinesOf(before) + [t]
    ensures Labels(after) == Labels(before) + [Strip(t)]
  {
    SplitByLines(after);
    SplitByLines(before);
    assert MapStrip(TildeLinesOf(before) + [t]) == MapStrip(TildeLinesOf(before)) + [Strip(t)];
  }

  /**
    A body holding only a space does not start a line where the `~` goes:
    the appended brain dump is not read back.
  */
  lemma AppendToBlank()
    ensures AppendTilde(" ", "x") == " ~ x\n\n"
    ensures Labels(AppendTilde(" ", "x")) == []
  {
    assert Trim(" ") == "" by { TrimEmptyIffAllWs(" "); }
    NoLabelAfterSpace();
  }

  /** A line starting with a space is no tilde-line, so ` ~ x` and two newlines hold no label. */
  lemma NoLabelAfterSpace()
    ensures Labels(" ~ x\n\n") == []
  {
    var line := " ~ x";
    assert NoTerm(line);
    LinesOfLine(line);
    BlankBack(line);
    assert !Dangling(line) && !TildeLine(line);
    assert line + "\n\n" == " ~ x\n\n";
    LabelsByLines(line + "\n\n");
  }

  /** What a key press in the input box does: the body dispatched, if any, and the input afterwards. */
  datatype KeyPress = KeyPress(dispatched: Option<string>, input: string)

  /**
    `onKeyPress`: Enter with a non-empty input appends it as a brain dump
    and clears the input; any other key press changes nothing. An Enter on
    an appendable body with a good label adds exactly that label.
  */
  function OnKeyPress(key: string, body: string, input: string): (r: KeyPress)
    ensures r.dispatched.Some? <==> key == "Enter" && input != ""
    ensures r.dispatched.Some? ==> r.input == "" && |r.dispatched.value| > |body| && r.dispatched.value[..|body|] == body
    ensures r.dispatched.None? ==> r.input == input
    ensures r.dispatched.Some? && Appendable(body) && GoodLabel(input) ==>
      Labels(r.dispatched.value) == Labels(body) + [input]
  {
    if key == "Enter" && |input| > 0 then
      assert Appendable(body) && GoodLabel(input) ==> Labels(AppendTilde(body, input)) == Labels(body) + [input] by {
        if Appendable(body) && GoodLabel(input) { AppendRoundTrip(body, input); }
      }
      KeyPress(Some(AppendTilde(body, input)), "")
    else KeyPress(None, input)
  }
}
