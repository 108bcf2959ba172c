/** Folding of content lines into physical lines (section 3.1 of RFC 5545), and reading a folded document back. */
module IcsFolding {
  import opened Bytes
  import opened IcsText
  import opened Ordering

  const LIMIT := 75
  const CRLF: seq<byte> := [CR, LF]

  /** The buffer the feed is written to. */
  class Buffer {
    var bytes: seq<byte>

    constructor ()
      ensures bytes == []
    {
      bytes := [];
    }

    method Append(more: seq<byte>)
      modifies this
      ensures bytes == old(bytes) + more
    {
      bytes := bytes + more;
    }
  }

  lemma Associates(a: seq<byte>, b: seq<byte>, c: seq<byte>)
    ensures (a + b) + c == a + (b + c)
  {
  }

  // ---------- Physical lines ----------

  /** A continuation starts with a space. */
  ghost function Mark(marked: bool): (n: nat)
    ensures n <= 1
  {
    if marked then 1 else 0
  }

  ghost function MarkedLine(marked: bool, rest: seq<byte>): (line: seq<byte>)
    ensures |line| == Mark(marked) + |rest|
  {
    if marked then [SPACE] + rest else rest
  }

  /** A physical line that comes after `done`. */
  ghost function Marked(done: seq<seq<byte>>, piece: seq<byte>): seq<byte> {
    MarkedLine(done != [], piece)
  }

  /** One physical line for each piece; every piece but the first is marked by a space. */
  ghost function Render(pieces: seq<seq<byte>>): seq<byte> {
    if pieces == [] then []
    else
      var front := pieces[..|pieces| - 1];
      Render(front) + (Marked(front, pieces[|pieces| - 1]) + CRLF)
  }

  /** The last start of a character at or before the limit; the limit itself when there is none. */
  ghost predicate IsCut(line: seq<byte>, cut: nat)
    requires |line| > LIMIT
  {
    && 1 <= cut <= LIMIT
    && (RuneStart(line[cut]) || (cut == LIMIT && forall i :: 1 <= i <= LIMIT ==> !RuneStart(line[i])))
    && (forall i :: cut < i <= LIMIT ==> !RuneStart(line[i]))
  }

  /** From here on every physical line takes all it can hold of what is left. */
  ghost predicate TakesMost(rest: seq<byte>, marked: bool, pieces: seq<seq<byte>>)
    decreases |pieces|
  {
    var line := MarkedLine(marked, rest);
    if |line| <= LIMIT then pieces == [rest]
    else
      && pieces != [] && pieces[0] <= rest && IsCut(line, Mark(marked) + |pieces[0]|)
      && TakesMost(rest[|pieces[0]|..], true, pieces[1..])
  }

  lemma CutIsUnique(line: seq<byte>, c: nat, d: nat)
    requires |line| > LIMIT && IsCut(line, c) && IsCut(line, d)
    ensures c == d
  {
  }

  /** A line is folded in one way only. */
  lemma {:induction false} FoldingIsUnique(rest: seq<byte>, marked: bool, a: seq<seq<byte>>, b: seq<seq<byte>>)
    requires TakesMost(rest, marked, a) && TakesMost(rest, marked, b)
    ensures a == b
    decreases |a|
  {
    var line := MarkedLine(marked, rest);
    if |line| > LIMIT {
      CutIsUnique(line, Mark(marked) + |a[0]|, Mark(marked) + |b[0]|);
      assert a[0] == rest[..|a[0]|] && b[0] == rest[..|b[0]|];
      FoldingIsUnique(rest[|a[0]|..], true, a[1..], b[1..]);
      SameHeadSameTail(a, b);
    }
  }

  /** However the rest is folded, it continues what is done. */
  ghost predicate Continues(content: seq<byte>, done: seq<seq<byte>>, rest: seq<byte>) {
    forall tail :: TakesMost(rest, done != [], tail) ==> TakesMost(content, false, done + tail)
  }

  lemma ContinuesFromStart(content: seq<byte>)
    ensures Continues(content, [], content)
  {
    forall tail | TakesMost(content, false, tail) ensures TakesMost(content, false, [] + tail) {
      assert [] + tail == tail;
    }
  }

  lemma OneMorePiece(done: seq<seq<byte>>, rest: seq<byte>, cut: nat, tail: seq<seq<byte>>)
    requires |Marked(done, rest)| > LIMIT && cut <= |rest|
    requires IsCut(Marked(done, rest), |Marked(done, rest[..cut])|) && TakesMost(rest[cut..], true, tail)
    ensures TakesMost(rest, done != [], [rest[..cut]] + tail)
  {
    var longer := [rest[..cut]] + tail;
    assert longer[1..] == tail && longer[0] == rest[..cut];
  }

  lemma Regroup(done: seq<seq<byte>>, piece: seq<byte>, tail: seq<seq<byte>>)
    ensures (done + [piece]) + tail == done + ([piece] + tail)
  {
  }

  lemma ContinuesStep(content: seq<byte>, done: seq<seq<byte>>, rest: seq<byte>, cut: nat)
    requires Continues(content, done, rest) && |Marked(done, rest)| > LIMIT && cut <= |rest|
    requires IsCut(Marked(done, rest), |Marked(done, rest[..cut])|)
    ensures Continues(content, done + [rest[..cut]], rest[cut..])
  {
    forall tail | TakesMost(rest[cut..], true, tail) ensures TakesMost(content, false, (done + [rest[..cut]]) + tail) {
      OneMorePiece(done, rest, cut, tail);
      Regroup(done, rest[..cut], tail);
    }
  }

  lemma RenderAppend(pieces: seq<seq<byte>>, piece: seq<byte>)
    ensures Render(pieces + [piece]) == Render(pieces) + (Marked(pieces, piece) + CRLF)
  {
    assert (pieces + [piece])[..|pieces|] == pieces;
  }

  // ---------- What a folding is ----------

  /** Physical lines of at most 75 octets. */
  ghost predicate WithinLimit(pieces: seq<seq<byte>>) {
    forall k :: 0 <= k < |pieces| ==> Mark(k > 0) + |pieces[k]| <= LIMIT
  }

  /** No character is split, and all lines but the last are nearly full. */
  ghost predicate KeepsCharacters(pieces: seq<seq<byte>>) {
    && (forall k :: 1 <= k < |pieces| ==> pieces[k] != [] && RuneStart(pieces[k][0]))
    && (forall k :: 0 <= k < |pieces| - 1 ==> Mark(k > 0) + |pieces[k]| >= LIMIT - 3)
  }

  /** Together the content line, in physical lines of at most 75 octets, each as long as it can be; characters of at most
      four octets are kept whole. */
  ghost predicate IsFolding(line: seq<byte>, pieces: seq<seq<byte>>) {
    && pieces != [] && Concat(pieces) == line && WithinLimit(pieces) && TakesMost(line, false, pieces)
    && (ShortRuns(line, 0) ==> KeepsCharacters(pieces))
  }

  /** Lines that take all they can hold hold the content line together. */
  lemma {:induction false} TakingMostFolds(rest: seq<byte>, marked: bool, pieces: seq<seq<byte>>)
    requires TakesMost(rest, marked, pieces)
    ensures pieces != [] && Concat(pieces) == rest
    decreases |pieces|
  {
    if Mark(marked) + |rest| <= LIMIT {
      ConcatOne(rest);
    } else {
      TakingMostFolds(rest[|pieces[0]|..], true, pieces[1..]);
      ConcatFirst(pieces);
    }
  }

  lemma {:induction false} TakingMostIsWithinLimit(rest: seq<byte>, marked: bool, pieces: seq<seq<byte>>)
    requires TakesMost(rest, marked, pieces)
    ensures forall k :: 0 <= k < |pieces| ==> Mark(marked || k > 0) + |pieces[k]| <= LIMIT
    decreases |pieces|
  {
    if Mark(marked) + |rest| > LIMIT {
      TakingMostIsWithinLimit(rest[|pieces[0]|..], true, pieces[1..]);
      assert forall k :: 1 <= k < |pieces| ==> pieces[k] == pieces[1..][k - 1];
    }
  }

  lemma {:induction false} RunsAreShort(s: seq<byte>, run: nat, i: nat)
    requires ShortRuns(s, run) && i + 4 <= |s|
    ensures RuneStart(s[i]) || RuneStart(s[i + 1]) || RuneStart(s[i + 2]) || RuneStart(s[i + 3])
    decreases i
  {
    if i == 0 {
      if !RuneStart(s[0]) && !RuneStart(s[1]) && !RuneStart(s[2]) {
        assert ShortRuns(s[1..], run + 1);
        assert ShortRuns(s[1..][1..], run + 2);
        assert ShortRuns(s[1..][1..][1..], run + 3);
      }
    } else {
      RunsAreShort(s[1..], if RuneStart(s[0]) then 0 else run + 1, i - 1);
    }
  }

  lemma {:induction false} ShortRunsSuffix(s: seq<byte>, run: nat, k: nat)
    requires ShortRuns(s, run) && k < |s| && RuneStart(s[k])
    ensures ShortRuns(s[k..], 0)
    decreases k
  {
    if k == 0 {
      assert s[0..] == s;
    } else {
      ShortRunsSuffix(s[1..], if RuneStart(s[0]) then 0 else run + 1, k - 1);
      assert s[1..][k - 1..] == s[k..];
    }
  }

  lemma CutOfShortRuns(line: seq<byte>, cut: nat)
    requires |line| > LIMIT && IsCut(line, cut) && ShortRuns(line, 0)
    ensures cut >= LIMIT - 3 && RuneStart(line[cut]) && ShortRuns([SPACE] + line[cut..], 0)
  {
    RunsAreShort(line, 0, LIMIT - 3);
    ShortRunsSuffix(line, 0, cut);
    assert ([SPACE] + line[cut..])[1..] == line[cut..];
  }

  /** How a piece of text with no more than three continuation octets in a row is cut off. */
  lemma TextIsCutWell(rest: seq<byte>, marked: bool, pieces: seq<seq<byte>>)
    requires TakesMost(rest, marked, pieces) && ShortRuns(MarkedLine(marked, rest), 0) && Mark(marked) + |rest| > LIMIT
    ensures |pieces| > 1 && Mark(marked) + |pieces[0]| >= LIMIT - 3 && pieces[0] <= rest && |pieces[0]| < |rest|
    ensures RuneStart(rest[|pieces[0]|]) && ShortRuns([SPACE] + rest[|pieces[0]|..], 0)
  {
    var line, n := MarkedLine(marked, rest), |pieces[0]|;
    CutOfShortRuns(line, Mark(marked) + n);
    assert line[Mark(marked) + n..] == rest[n..] && line[Mark(marked) + n] == rest[n];
  }

  /** The piece that comes next starts where the last one was cut off. */
  lemma NextPieceStarts(rest: seq<byte>, pieces: seq<seq<byte>>)
    requires TakesMost(rest, true, pieces) && ShortRuns([SPACE] + rest, 0) && rest != []
    ensures pieces != [] && pieces[0] != [] && pieces[0][0] == rest[0]
  {
    if |rest| >= LIMIT { TextIsCutWell(rest, true, pieces); }
  }

  lemma KeepsOneMore(pieces: seq<seq<byte>>, marked: bool)
    requires |pieces| > 1 && Mark(marked) + |pieces[0]| >= LIMIT - 3 && pieces[1] != [] && RuneStart(pieces[1][0])
    requires forall k :: 1 <= k < |pieces[1..]| ==> pieces[1..][k] != [] && RuneStart(pieces[1..][k][0])
    requires forall k :: 0 <= k < |pieces[1..]| - 1 ==> 1 + |pieces[1..][k]| >= LIMIT - 3
    ensures forall k :: 1 <= k < |pieces| ==> pieces[k] != [] && RuneStart(pieces[k][0])
    ensures forall k :: 0 <= k < |pieces| - 1 ==> Mark(marked || k > 0) + |pieces[k]| >= LIMIT - 3
  {
    assert forall k :: 1 <= k < |pieces| ==> pieces[k] == pieces[1..][k - 1];
  }

  lemma {:induction false} TakingMostKeepsCharacters(rest: seq<byte>, marked: bool, pieces: seq<seq<byte>>)
    requires TakesMost(rest, marked, pieces) && ShortRuns(MarkedLine(marked, rest), 0)
    ensures forall k :: 1 <= k < |pieces| ==> pieces[k] != [] && RuneStart(pieces[k][0])
    ensures forall k :: 0 <= k < |pieces| - 1 ==> Mark(marked || k > 0) + |pieces[k]| >= LIMIT - 3
    decreases |pieces|
  {
    if Mark(marked) + |rest| > LIMIT {
      var left, tail := rest[|pieces[0]|..], pieces[1..];
      TextIsCutWell(rest, marked, pieces);
      NextPieceStarts(left, tail);
      TakingMostKeepsCharacters(left, true, tail);
      KeepsOneMore(pieces, marked);
    }
  }

  // ---------- Where to cut ----------

  /** A cut leaves a shorter line exactly when it is not right behind the first octet; otherwise the next round
      of folding would find the same line again. */
  lemma CutMakesProgress(line: seq<byte>, cut: nat)
    requires |line| > LIMIT && IsCut(line, cut)
    ensures |[SPACE] + line[cut..]| < |line| <==> cut > 1
    ensures cut == 1 <==> RuneStart(line[1]) && forall i :: 2 <= i <= LIMIT ==> !RuneStart(line[i])
    ensures cut == 1 && line[0] == SPACE ==> [SPACE] + line[cut..] == line
  {
  }

  method FindCut(line: seq<byte>) returns (cut: nat)
    requires |line| > LIMIT
    ensures IsCut(line, cut)
  {
    cut := LIMIT;
    while cut > 0 && !RuneStart(line[cut])
      invariant 0 <= cut <= LIMIT
      invariant forall i :: cut < i <= LIMIT ==> !RuneStart(line[i])
    {
      cut := cut - 1;
    }
    if cut == 0 {
      cut := LIMIT;
    }
  }

  // ---------- Which lines can be folded ----------

  /** A character at `at` that is followed by continuation octets for as long as a physical line lasts, and by more. */
  ghost predicate StuckAt(rest: seq<byte>, at: nat) {
    at + LIMIT - 1 < |rest| && RuneStart(rest[at]) && forall i :: at < i < at + LIMIT ==> !RuneStart(rest[i])
  }

  /** No such character stands in what is left; at the very start of the content line it does no harm. */
  ghost predicate FoldableFrom(rest: seq<byte>, marked: bool) {
    forall at: nat :: (marked || at > 0) ==> !StuckAt(rest, at)
  }

  ghost predicate Foldable(content: seq<byte>) {
    FoldableFrom(content, false)
  }

  lemma StuckInRest(rest: seq<byte>, n: nat, at: nat)
    requires n <= at
    ensures n <= |rest| ==> (StuckAt(rest, at) <==> StuckAt(rest[n..], at - n))
  {
    if n <= |rest| {
      assert forall i :: n <= i < |rest| ==> rest[i] == rest[n..][i - n];
      if StuckAt(rest[n..], at - n) {
        forall i | at < i < at + LIMIT ensures !RuneStart(rest[i]) {
          assert !RuneStart(rest[n..][i - n]);
        }
      }
    }
  }

  /** Where no such character stands a cut leaves a shorter line, which can be folded as well. */
  lemma CutLeavesFoldable(rest: seq<byte>, marked: bool, n: nat)
    requires FoldableFrom(rest, marked) && |MarkedLine(marked, rest)| > LIMIT
    requires IsCut(MarkedLine(marked, rest), Mark(marked) + n)
    ensures 0 < n < |rest| && FoldableFrom(rest[n..], true)
  {
    var line := MarkedLine(marked, rest);
    if n == 0 {
      forall i | 0 < i < LIMIT ensures !RuneStart(rest[i]) {
        assert line[i + 1] == rest[i];
      }
      assert line[1] == rest[0] && StuckAt(rest, 0);
    }
    forall at: nat ensures !StuckAt(rest[n..], at) {
      StuckInRest(rest, n, n + at);
    }
  }

  lemma {:induction false} ACutExists(line: seq<byte>, from: nat) returns (cut: nat)
    requires |line| > LIMIT >= from && forall i :: from < i <= LIMIT ==> !RuneStart(line[i])
    ensures IsCut(line, cut)
  {
    if from == 0 {
      cut := LIMIT;
    } else if RuneStart(line[from]) {
      cut := from;
    } else {
      cut := ACutExists(line, from - 1);
    }
  }

  lemma {:induction false} FoldableIsFolded(rest: seq<byte>, marked: bool) returns (pieces: seq<seq<byte>>)
    requires FoldableFrom(rest, marked)
    ensures TakesMost(rest, marked, pieces)
    decreases |rest|
  {
    if |MarkedLine(marked, rest)| <= LIMIT {
      pieces := [rest];
    } else {
      var cut := ACutExists(MarkedLine(marked, rest), LIMIT);
      var n: nat := cut - Mark(marked);
      CutLeavesFoldable(rest, marked, n);
      var tail := FoldableIsFolded(rest[n..], true);
      pieces := [rest[..n]] + tail;
      assert pieces[1..] == tail;
    }
  }

  ghost predicate IsFoldedBy(content: seq<byte>, pieces: seq<seq<byte>>) {
    TakesMost(content, false, pieces)
  }

  /** No cut passes a character of that kind: the physical line in which it comes ends before it. */
  lemma CutStopsAtStuck(rest: seq<byte>, marked: bool, n: nat, at: nat)
    requires |MarkedLine(marked, rest)| > LIMIT && IsCut(MarkedLine(marked, rest), Mark(marked) + n)
    requires at < n && (marked || at > 0)
    ensures !StuckAt(rest, at)
  {
    var line := MarkedLine(marked, rest);
    assert line[Mark(marked) + n] == rest[n];
    if RuneStart(rest[at]) { assert line[Mark(marked) + at] == rest[at] && RuneStart(rest[n]); }
  }

  lemma {:induction false} FoldedIsNotStuck(rest: seq<byte>, marked: bool, pieces: seq<seq<byte>>, at: nat)
    requires TakesMost(rest, marked, pieces) && (marked || at > 0)
    ensures !StuckAt(rest, at)
    decreases |pieces|
  {
    if Mark(marked) + |rest| > LIMIT {
      var n := |pieces[0]|;
      if at < n {
        CutStopsAtStuck(rest, marked, n, at);
      } else {
        FoldedIsNotStuck(rest[n..], true, pieces[1..], at - n);
        StuckInRest(rest, n, at);
      }
    }
  }

  /** A content line can be folded, and the loop that folds it ends, exactly when behind its first octet no character is
      followed by 74 continuation octets and then by more octets. */
  lemma FoldedExactlyWhenFoldable(content: seq<byte>)
    ensures (exists pieces :: IsFoldedBy(content, pieces)) <==> Foldable(content)
  {
    if Foldable(content) {
      var pieces := FoldableIsFolded(content, false);
      assert IsFoldedBy(content, pieces);
    } else {
      var at: nat :| at > 0 && StuckAt(content, at);
      forall pieces ensures !IsFoldedBy(content, pieces) {
        if IsFoldedBy(content, pieces) { FoldedIsNotStuck(content, false, pieces, at); }
      }
    }
  }

  /** Two letters and 74 continuation octets. */
  const STUCK: seq<byte> := [65, 65] + seq(74, _ => 128)

  /** A line that is never folded: from its second round on the loop meets one line again and again. */
  lemma SomeLineIsNeverFolded(pieces: seq<seq<byte>>)
    ensures !Foldable(STUCK) && !IsFoldedBy(STUCK, pieces)
  {
    assert StuckAt(STUCK, 1);
    FoldedExactlyWhenFoldable(STUCK);
  }

  lemma ShortRunsAreFoldable(content: seq<byte>)
    requires ShortRuns(content, 0)
    ensures Foldable(content)
  {
    forall at: nat ensures !StuckAt(content, at) {
      if at + LIMIT - 1 < |content| { RunsAreShort(content, 0, at + 1); }
    }
  }

  // ---------- Writing ----------

  /** What is written so far, and what is left of the content line. */
  ghost predicate Folds(content: seq<byte>, done: seq<seq<byte>>, rest: seq<byte>) {
    FoldableFrom(rest, done != []) && Continues(content, done, rest)
  }

  /** One round of folding: what is written, and what is left and marked. */
  lemma FoldRound(content: seq<byte>, done: seq<seq<byte>>, rest: seq<byte>, cut: nat)
    returns (piece: seq<byte>, left: seq<byte>)
    requires Folds(content, done, rest) && |Marked(done, rest)| > LIMIT && IsCut(Marked(done, rest), cut)
    ensures Folds(content, done + [piece], left) && Marked(done, piece) == Marked(done, rest)[..cut]
    ensures [SPACE] + Marked(done, rest)[cut..] == Marked(done + [piece], left) && |left| < |rest|
  {
    var at: nat := cut - Mark(done != []);
    CutLeavesFoldable(rest, done != [], at);
    piece, left := rest[..at], rest[at..];
    ContinuesStep(content, done, rest, at);
  }

  lemma FoldEnd(content: seq<byte>, done: seq<seq<byte>>, rest: seq<byte>)
    requires Continues(content, done, rest) && |Marked(done, rest)| <= LIMIT
    ensures IsFolding(content, done + [rest])
  {
    assert TakesMost(rest, done != [], [rest]);
    TakingMostFolds(content, false, done + [rest]);
    TakingMostIsWithinLimit(content, false, done + [rest]);
    if ShortRuns(content, 0) { TakingMostKeepsCharacters(content, false, done + [rest]); }
  }

  /** Writes one content line. The loop of the source ends for the lines that can be folded, and for no others. */
  method WriteLine(output: Buffer, content: seq<byte>)
    requires Foldable(content)
    modifies output
    ensures exists pieces :: IsFolding(content, pieces) && output.bytes == old(output.bytes) + Render(pieces)
  {
    var line := content;
    ghost var done: seq<seq<byte>>, rest := [], content;
    ContinuesFromStart(content);
    while |line| > LIMIT
      invariant Folds(content, done, rest) && line == Marked(done, rest)
      invariant output.bytes == old(output.bytes) + Render(done)
      decreases |rest|
    {
      var cut := FindCut(line);
      ghost var piece, left := FoldRound(content, done, rest, cut);
      Associates(old(output.bytes), Render(done), line[..cut] + CRLF);
      output.Append(line[..cut] + CRLF);
      RenderAppend(done, piece);
      line := [SPACE] + line[cut..];
      done, rest := done + [piece], left;
    }
    Associates(old(output.bytes), Render(done), line + CRLF);
    output.Append(line + CRLF);
    RenderAppend(done, rest);
    FoldEnd(content, done, rest);
  }

  // ---------- Reading back ----------

  /** Deletes every line break that is followed by a space, and that space. */
  ghost function Unfold(s: seq<byte>): seq<byte>
    decreases |s|
  {
    if s == [] then []
    else if |s| >= 3 && s[0] == CR && s[1] == LF && s[2] == SPACE then Unfold(s[3..])
    else [s[0]] + Unfold(s[1..])
  }

  /** No line break inside; single halves of one do not count. */
  ghost predicate Unbroken(s: seq<byte>) {
    forall k :: 0 <= k < |s| - 1 ==> !(s[k] == CR && s[k + 1] == LF)
  }

  lemma {:induction false} UnfoldPlain(a: seq<byte>, b: seq<byte>)
    requires Unbroken(a) && (b == [] || b[0] != LF)
    ensures Unfold(a + b) == a + Unfold(b)
  {
    if a == [] {
      assert a + b == b;
    } else {
      assert (a + b)[1..] == a[1..] + b;
      UnfoldPlain(a[1..], b);
    }
  }

  lemma UnfoldMark(rest: seq<byte>)
    ensures Unfold(CRLF + ([SPACE] + rest)) == Unfold(rest)
  {
    assert (CRLF + ([SPACE] + rest))[3..] == rest;
  }

  lemma UnfoldOne(b: byte, rest: seq<byte>)
    requires !(b == CR && |rest| >= 2 && rest[0] == LF && rest[1] == SPACE)
    ensures Unfold([b] + rest) == [b] + Unfold(rest)
  {
    assert ([b] + rest)[1..] == rest;
  }

  /** A break that no space follows is kept. */
  lemma UnfoldBreak(rest: seq<byte>)
    requires rest == [] || rest[0] != SPACE
    ensures Unfold(CRLF + rest) == CRLF + Unfold(rest)
  {
    UnfoldOne(LF, rest);
    UnfoldOne(CR, [LF] + rest);
    Associates([CR], [LF], rest);
    Associates([CR], [LF], Unfold(rest));
  }

  ghost predicate AllUnbroken(pieces: seq<seq<byte>>) {
    forall k :: 0 <= k < |pieces| ==> Unbroken(pieces[k])
  }

  /** Deleting each break with its space restores the content line, whatever follows. */
  lemma {:induction false} RenderedUnfolds(pieces: seq<seq<byte>>, tail: seq<byte>)
    requires pieces != [] && AllUnbroken(pieces)
    ensures Unfold(Render(pieces) + tail) == Concat(pieces) + Unfold(CRLF + tail)
    decreases |pieces|
  {
    var front, last := pieces[..|pieces| - 1], pieces[|pieces| - 1];
    var rest := last + (CRLF + tail);
    UnfoldPlain(last, CRLF + tail);
    Associates(last, CRLF, tail);
    if front == [] {
      assert Render(front) == [];
      assert [] + (last + CRLF) == last + CRLF;
    } else {
      Associates(Render(front), ([SPACE] + last) + CRLF, tail);
      Associates([SPACE] + last, CRLF, tail);
      Associates([SPACE], last, CRLF + tail);
      RenderedUnfolds(front, [SPACE] + rest);
      UnfoldMark(rest);
      Associates(Concat(front), last, Unfold(CRLF + tail));
    }
  }

  lemma SidesAreUnbroken(a: seq<byte>, b: seq<byte>)
    requires Unbroken(a + b)
    ensures Unbroken(a) && Unbroken(b)
  {
    forall k | 0 <= k < |a| - 1 ensures !(a[k] == CR && a[k + 1] == LF) {
      assert a[k] == (a + b)[k] && a[k + 1] == (a + b)[k + 1];
    }
    forall k | 0 <= k < |b| - 1 ensures !(b[k] == CR && b[k + 1] == LF) {
      var at := |a| + k;
      assert b[k] == (a + b)[at] && b[k + 1] == (a + b)[at + 1];
    }
  }

  lemma {:induction false} PartsAreUnbroken(pieces: seq<seq<byte>>)
    requires Unbroken(Concat(pieces))
    ensures AllUnbroken(pieces)
  {
    if pieces != [] {
      var n := |pieces| - 1;
      SidesAreUnbroken(Concat(pieces[..n]), pieces[n]);
      PartsAreUnbroken(pieces[..n]);
      assert forall k :: 0 <= k < n ==> pieces[k] == pieces[..n][k];
    }
  }

  /** A content line that a reader can tell from a continuation. */
  ghost predicate ContentLine(line: seq<byte>) {
    line == [] || line[0] != SPACE
  }

  ghost predicate ContentLines(lines: seq<seq<byte>>) {
    forall k :: 0 <= k < |lines| ==> ContentLine(lines[k])
  }

  ghost function Terminated(lines: seq<seq<byte>>): seq<byte> {
    if lines == [] then [] else lines[0] + CRLF + Terminated(lines[1..])
  }

  ghost predicate AreFoldings(lines: seq<seq<byte>>, foldings: seq<seq<seq<byte>>>) {
    |foldings| == |lines| && forall k :: 0 <= k < |lines| ==> IsFolding(lines[k], foldings[k])
  }

  ghost function Rendered(foldings: seq<seq<seq<byte>>>): seq<byte> {
    if foldings == [] then [] else Render(foldings[0]) + Rendered(foldings[1..])
  }

  /** The document is a folding of each content line, one after the other. */
  ghost predicate IsDocument(lines: seq<seq<byte>>, document: seq<byte>) {
    exists foldings :: AreFoldings(lines, foldings) && document == Rendered(foldings)
  }

  lemma {:induction false} RenderedAppend(foldings: seq<seq<seq<byte>>>, folding: seq<seq<byte>>)
    ensures Rendered(foldings + [folding]) == Rendered(foldings) + Render(folding)
  {
    if foldings == [] {
      assert ([] + [folding])[1..] == [];
    } else {
      assert (foldings + [folding])[1..] == foldings[1..] + [folding];
      RenderedAppend(foldings[1..], folding);
    }
  }

  /** Writing one more line to a document gives the document of one more line. */
  lemma DocumentAppend(lines: seq<seq<byte>>, document: seq<byte>, line: seq<byte>, folding: seq<seq<byte>>)
    requires IsDocument(lines, document) && IsFolding(line, folding)
    ensures IsDocument(lines + [line], document + Render(folding))
  {
    var foldings :| AreFoldings(lines, foldings) && document == Rendered(foldings);
    RenderedAppend(foldings, folding);
    assert AreFoldings(lines + [line], foldings + [folding]);
  }

  /** A line never starts with a continuation's mark, so the break before it is kept. */
  lemma {:induction false} RenderStart(pieces: seq<seq<byte>>)
    requires pieces != [] && ContentLine(Concat(pieces))
    ensures Render(pieces) != [] && Render(pieces)[0] != SPACE
  {
    var front, last := pieces[..|pieces| - 1], pieces[|pieces| - 1];
    if front == [] {
      ConcatOne(last);
      assert pieces == [last];
    } else {
      assert Concat(pieces) == Concat(front) + last;
      RenderStart(front);
    }
  }

  lemma {:induction false} DocumentUnfolds(lines: seq<seq<byte>>, foldings: seq<seq<seq<byte>>>)
    requires AreFoldings(lines, foldings) && ContentLines(lines) && AllUnbroken(lines)
    ensures Unfold(Rendered(foldings)) == Terminated(lines)
    decreases |lines|
  {
    if lines != [] {
      var rest := Rendered(foldings[1..]);
      DocumentUnfolds(lines[1..], foldings[1..]);
      assert IsFolding(lines[0], foldings[0]) && ContentLine(lines[0]);
      PartsAreUnbroken(foldings[0]);
      RenderedUnfolds(foldings[0], rest);
      if |lines| > 1 {
        assert IsFolding(lines[1], foldings[1]) && ContentLine(lines[1]);
        RenderStart(foldings[1]);
        assert rest[0] == Render(foldings[1])[0];
      }
      UnfoldBreak(rest);
      Associates(lines[0], CRLF, Terminated(lines[1..]));
    }
  }

  /** The octets up to the next line break, and what follows it. */
  function ReadLine(s: seq<byte>): (r: (seq<byte>, seq<byte>))
    ensures s != [] ==> |r.1| < |s|
    decreases |s|
  {
    if s == [] then ([], [])
    else if |s| >= 2 && s[0] == CR && s[1] == LF then ([], s[2..])
    else
      var (line, rest) := ReadLine(s[1..]);
      ([s[0]] + line, if s[1..] == [] then [] else rest)
  }

  ghost function SplitLines(s: seq<byte>): seq<seq<byte>>
    decreases |s|
  {
    if s == [] then [] else [ReadLine(s).0] + SplitLines(ReadLine(s).1)
  }

  lemma {:induction false} LineIsRead(line: seq<byte>, rest: seq<byte>)
    requires Unbroken(line)
    ensures ReadLine(line + CRLF + rest) == (line, rest)
  {
    var s := line + CRLF + rest;
    if line == [] {
      assert s == CRLF + rest && s[2..] == rest;
    } else {
      assert s[1..] == line[1..] + CRLF + rest;
      LineIsRead(line[1..], rest);
      assert line == [line[0]] + line[1..];
    }
  }

  lemma {:induction false} TerminatedLinesSplit(lines: seq<seq<byte>>)
    requires AllUnbroken(lines)
    ensures SplitLines(Terminated(lines)) == lines
    decreases |lines|
  {
    if lines != [] {
      TerminatedLinesSplit(lines[1..]);
      LineIsRead(lines[0], Terminated(lines[1..]));
      assert lines == [lines[0]] + lines[1..];
    }
  }

  lemma {:induction false} ReadLineIsUnbroken(s: seq<byte>)
    ensures Unbroken(ReadLine(s).0) && (ReadLine(s).0 != [] ==> s != [] && ReadLine(s).0[0] == s[0])
    decreases |s|
  {
    if s != [] && !(|s| >= 2 && s[0] == CR && s[1] == LF) {
      var line := ReadLine(s[1..]).0;
      ReadLineIsUnbroken(s[1..]);
      forall k | 0 <= k < |line| ensures !(([s[0]] + line)[k] == CR && line[k] == LF) {
        if k > 0 { assert ([s[0]] + line)[k] == line[k - 1]; }
      }
    }
  }

  lemma {:induction false} SplitIsUnbroken(s: seq<byte>)
    ensures AllUnbroken(SplitLines(s))
    decreases |s|
  {
    if s != [] {
      ReadLineIsUnbroken(s);
      SplitIsUnbroken(ReadLine(s).1);
    }
  }

  /** A reader that unfolds and splits finds exactly the content lines that were written, if and only if none of them
      holds a line break. */
  lemma DocumentIsReadBack(lines: seq<seq<byte>>, document: seq<byte>)
    requires IsDocument(lines, document) && ContentLines(lines)
    ensures SplitLines(Unfold(document)) == lines <==> AllUnbroken(lines)
  {
    SplitIsUnbroken(Unfold(document));
    if AllUnbroken(lines) {
      var foldings :| AreFoldings(lines, foldings) && document == Rendered(foldings);
      DocumentUnfolds(lines, foldings);
      TerminatedLinesSplit(lines);
    }
  }
}
