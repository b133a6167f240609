/** `smart_split` (pplx_api/pplx_api.py): cut a reply into chunks of at most
    about `limit` characters along line boundaries, closing a code block at
    the end of a chunk and reopening it at the start of the next one.

    The function is a fold over the lines of the text carrying the finished
    chunks, the lines of the chunk being built, its counted length and whether
    a code block is open. Each chunk is kept as a `Piece` that records whether
    it was opened with an added "```" line and closed with an added "\n```", so
    that the input lines can be traced through the result. `Variant` selects
    the code as written or the corrected step described under `Corrected`. */
module SmartSplit {
  import opened Text

  const DefaultLimit := 1950
  const Fence := "```"
  const Newline := "\n"

  /** The line toggles the code-block state: after its leading whitespace it
      starts with "```". */
  predicate IsFenceLine(line: string)
    decreases |line|
  {
    if |line| > 0 && IsSpace(line[0]) then IsFenceLine(line[1..]) else StartsWith(line, Fence)
  }

  /** `IsFenceLine` is the code's `line.strip().startswith('```')`: trailing
      whitespace plays no part in the test. */
  lemma {:induction false} IsFenceLineStrip(line: string)
    ensures IsFenceLine(line) == StartsWith(Strip(line), Fence)
    decreases |line|
  {
    if |line| > 0 && IsSpace(line[0]) {
      IsFenceLineStrip(line[1..]);
      assert TrimLeft(line) == TrimLeft(line[1..]);
    } else {
      assert TrimLeft(line) == line;
      FenceSurvivesTrimRight(line);
    }
  }

  /** Trailing whitespace never reaches into a leading "```". */
  lemma FenceSurvivesTrimRight(s: string)
    ensures StartsWith(TrimRight(s), Fence) == StartsWith(s, Fence)
  {
    var r := TrimRight(s);
    forall k | |r| <= k < |s|
      ensures IsSpace(s[k])
    {
      assert s[|r|..][k - |r|] == s[k];
    }
    if StartsWith(s, Fence) {
      assert s[2] == Fence[2];
      assert r[..3] == s[..3];
    }
    if StartsWith(r, Fence) {
      assert s[..3] == r[..3];
    }
  }

  lemma FenceIsFenceLine()
    ensures IsFenceLine(Fence)
  {
  }

  /** An odd number of `lines` are fence lines. */
  predicate OddFences(lines: seq<string>) {
    if |lines| == 0 then false
    else OddFences(lines[..|lines| - 1]) != IsFenceLine(lines[|lines| - 1])
  }

  lemma {:induction false} OddFencesAppend(a: seq<string>, b: seq<string>)
    ensures OddFences(a + b) == (OddFences(a) != OddFences(b))
    decreases |b|
  {
    if |b| == 0 {
      assert a + b == a;
    } else {
      var binit := b[..|b| - 1];
      assert (a + b)[..|a + b| - 1] == a + binit;
      OddFencesAppend(a, binit);
    }
  }

  /** After reading `lines`, a code block is open. */
  predicate OpenAfter(lines: seq<string>) {
    OddFences(lines)
  }

  /** A chunk has balanced fences when an even number of its lines are fences. */
  predicate Balanced(chunk: string) {
    !OddFences(Split(chunk, Newline))
  }

  /** `AsWritten` is the code of pplx_api/pplx_api.py:308-350; `Corrected`
      decides closing and reopening on the state before the current line and
      counts the carried line in the new chunk's length. */
  datatype Variant = AsWritten | Corrected

  /** One chunk: an optional reopening "```" line, the input lines it carries,
      and an optional closing "\n```". */
  datatype Piece = Piece(reopened: bool, body: seq<string>, closed: bool)

  /** The fold's accumulator: finished pieces, then the chunk being built
      (`current_chunk` is `Opener(reopened) + current`), `current_length` and
      `in_code_block`. */
  datatype State = State(done: seq<Piece>, reopened: bool, current: seq<string>, length: int, inCode: bool)

  function Opener(reopened: bool): seq<string> {
    if reopened then [Fence] else []
  }

  /** The lines of a chunk before its closing fence. */
  function Head(p: Piece): seq<string> {
    Opener(p.reopened) + p.body
  }

  /** All the lines of a chunk. */
  function LinesOf(p: Piece): seq<string> {
    Head(p) + (if p.closed then [Fence] else [])
  }

  /** `current_chunk`. */
  function OpenLines(st: State): seq<string> {
    Opener(st.reopened) + st.current
  }

  /** `'\n'.join(current_chunk)`, plus `'\n```'` when the chunk is closed. */
  function Render(p: Piece): string {
    Join(Head(p), Newline) + (if p.closed then Newline + Fence else "")
  }

  const Start := State([], false, [], 0, false)

  /** One turn of the loop over the lines. */
  function Step(v: Variant, limit: int, st: State, line: string): State {
    var inCode := if IsFenceLine(line) then !st.inCode else st.inCode;
    var newLength := st.length + |line| + 1;
    if newLength <= limit then
      st.(current := st.current + [line], length := newLength, inCode := inCode)
    else
      var close := if v == AsWritten then inCode else st.inCode;
      var emitted := Piece(st.reopened, st.current, close);
      var carried := if v == AsWritten then |Fence| else |Fence| + 1 + |line| + 1;
      State(st.done + [emitted], close, [line], if close then carried else |line| + 1, inCode)
  }

  /** The state after the loop has read `lines`. */
  function Run(v: Variant, limit: int, lines: seq<string>): State
    decreases |lines|
  {
    if |lines| == 0 then Start
    else Step(v, limit, Run(v, limit, lines[..|lines| - 1]), lines[|lines| - 1])
  }

  /** The tail of the function: the chunk being built is added when non-empty. */
  function Finish(st: State): seq<Piece> {
    if |OpenLines(st)| > 0 then st.done + [Piece(st.reopened, st.current, st.inCode)] else st.done
  }

  function Pieces(v: Variant, text: string, limit: int): seq<Piece> {
    Finish(Run(v, limit, Split(text, Newline)))
  }

  function Chunks(ps: seq<Piece>): (r: seq<string>)
    ensures |r| == |ps|
    ensures forall i :: 0 <= i < |ps| ==> r[i] == Render(ps[i])
  {
    seq(|ps|, i requires 0 <= i < |ps| => Render(ps[i]))
  }

  /** `smart_split(text, limit)` as written. */
  function SplitReply(text: string, limit: int): seq<string> {
    Chunks(Pieces(AsWritten, text, limit))
  }

  /** `smart_split` with both corrections. */
  function SplitReplyCorrected(text: string, limit: int): seq<string> {
    Chunks(Pieces(Corrected, text, limit))
  }

  /** The input lines carried by a list of pieces, in order. */
  function Bodies(ps: seq<Piece>): seq<string> {
    if |ps| == 0 then [] else Bodies(ps[..|ps| - 1]) + ps[|ps| - 1].body
  }

  /** Consecutive pieces agree on the code block: a piece is closed exactly when
      the next one is reopened, and the first piece is not reopened. */
  predicate Chained(done: seq<Piece>, reopened: bool) {
    && (|done| == 0 ==> !reopened)
    && (|done| > 0 ==> !done[0].reopened && done[|done| - 1].closed == reopened)
    && forall i :: 0 <= i < |done| - 1 ==> Links(done, i)
  }

  /** Piece `i` is closed exactly when piece `i + 1` is reopened. */
  predicate Links(ps: seq<Piece>, i: int)
    requires 0 <= i < |ps| - 1
  {
    ps[i].closed == ps[i + 1].reopened
  }

  /** What both variants keep through the fold, once `lines` have been read:
      the pieces and the open chunk carry exactly those lines, in order; pieces
      chain; the code-block flag is the parity of the fences read; after a
      line, the open chunk is not empty. */
  predicate Shaped(st: State, lines: seq<string>) {
    && Bodies(st.done) + st.current == lines
    && Chained(st.done, st.reopened)
    && st.inCode == OpenAfter(lines)
    && (|lines| > 0 ==> |st.current| > 0)
  }

  lemma StepCarriesLines(v: Variant, limit: int, st: State, lines: seq<string>, line: string)
    requires Bodies(st.done) + st.current == lines
    ensures Bodies(Step(v, limit, st, line).done) + Step(v, limit, st, line).current == lines + [line]
  {
    var next := Step(v, limit, st, line);
    if st.length + |line| + 1 > limit {
      assert next.done[..|next.done| - 1] == st.done;
    }
  }

  lemma StepChains(v: Variant, limit: int, st: State, line: string)
    requires Chained(st.done, st.reopened)
    ensures Chained(Step(v, limit, st, line).done, Step(v, limit, st, line).reopened)
  {
    var next := Step(v, limit, st, line);
    if st.length + |line| + 1 > limit {
      var n := |st.done|;
      assert next.done == st.done + [next.done[n]];
      assert next.done[n].reopened == st.reopened;
      forall i | 0 <= i < n
        ensures Links(next.done, i)
      {
        assert next.done[i] == st.done[i];
        if i < n - 1 {
          assert Links(st.done, i);
          assert next.done[i + 1] == st.done[i + 1];
        }
      }
    }
  }

  lemma OddFencesLast(lines: seq<string>, line: string)
    ensures OddFences(lines + [line]) == (OddFences(lines) != IsFenceLine(line))
  {
    assert (lines + [line])[..|lines|] == lines;
  }

  lemma StepFlags(v: Variant, limit: int, st: State, line: string)
    ensures Step(v, limit, st, line).inCode == (if IsFenceLine(line) then !st.inCode else st.inCode)
    ensures |Step(v, limit, st, line).current| > 0
  {
  }

  lemma StepParity(v: Variant, limit: int, st: State, lines: seq<string>, line: string)
    requires st.inCode == OpenAfter(lines)
    ensures Step(v, limit, st, line).inCode == OpenAfter(lines + [line])
  {
    StepFlags(v, limit, st, line);
    OddFencesLast(lines, line);
  }

  lemma {:induction false} RunShape(v: Variant, limit: int, lines: seq<string>)
    ensures Shaped(Run(v, limit, lines), lines)
    decreases |lines|
  {
    if |lines| > 0 {
      var init := lines[..|lines| - 1];
      var line := lines[|lines| - 1];
      RunShape(v, limit, init);
      var prev := Run(v, limit, init);
      assert init + [line] == lines;
      StepCarriesLines(v, limit, prev, init, line);
      StepChains(v, limit, prev, line);
      StepParity(v, limit, prev, init, line);
      StepFlags(v, limit, prev, line);
    }
  }

  /** The finished pieces carry `lines`, in order; there is at least one; the
      first is not reopened; consecutive pieces link; and the last is closed
      exactly when the lines leave a code block open. */
  predicate PiecesShaped(ps: seq<Piece>, lines: seq<string>) {
    && |ps| >= 1
    && Bodies(ps) == lines
    && !ps[0].reopened
    && (forall i :: 0 <= i < |ps| - 1 ==> Links(ps, i))
    && ps[|ps| - 1].closed == OpenAfter(lines)
  }

  /** The pieces of a fold over any list of lines. */
  lemma FinishShape(v: Variant, limit: int, lines: seq<string>)
    requires |lines| > 0
    ensures PiecesShaped(Finish(Run(v, limit, lines)), lines)
  {
    RunShape(v, limit, lines);
    var st := Run(v, limit, lines);
    var last := Piece(st.reopened, st.current, st.inCode);
    var ps := Finish(st);
    assert ps == st.done + [last];
    assert ps[..|ps| - 1] == st.done;
    var n := |st.done|;
    forall i | 0 <= i < n
      ensures Links(ps, i)
    {
      assert ps[i] == st.done[i];
      if i < n - 1 {
        assert Links(st.done, i);
        assert ps[i + 1] == st.done[i + 1];
      }
    }
  }

  lemma PiecesShape(v: Variant, text: string, limit: int)
    ensures |Pieces(v, text, limit)| >= 1
    ensures Bodies(Pieces(v, text, limit)) == Split(text, Newline)
    ensures !Pieces(v, text, limit)[0].reopened
    ensures forall i :: 0 <= i < |Pieces(v, text, limit)| - 1 ==> Links(Pieces(v, text, limit), i)
    ensures Pieces(v, text, limit)[|Pieces(v, text, limit)| - 1].closed == OpenAfter(Split(text, Newline))
  {
    var lines := Split(text, Newline);
    assert Pieces(v, text, limit) == Finish(Run(v, limit, lines));
    FinishShape(v, limit, lines);
    assert PiecesShaped(Pieces(v, text, limit), lines);
  }

  /** The lines the fold had read when it finished piece `i`: the lines of
      pieces `0..i` and, as written, also the line that overflowed the chunk,
      whose fence the code counts before it decides whether to close. */
  function ReadAtClose(v: Variant, ps: seq<Piece>, i: int): seq<string>
    requires 0 <= i < |ps| - 1 && |ps[i + 1].body| > 0
  {
    Bodies(ps[..i + 1]) + (if v == AsWritten then [ps[i + 1].body[0]] else [])
  }

  /** Piece `i` is followed by a piece that starts with the line that overflowed
      it, and it is closed exactly when the lines read by then leave a code
      block open. */
  predicate ClosedAtSplit(v: Variant, ps: seq<Piece>, i: int)
    requires 0 <= i < |ps| - 1
  {
    |ps[i + 1].body| > 0 && ps[i].closed == OpenAfter(ReadAtClose(v, ps, i))
  }

  /** What the fold keeps about the pieces it has closed. The last finished
      piece is followed by the open chunk, which starts with the line that
      overflowed it. */
  predicate SplitsRecorded(v: Variant, st: State) {
    && (|st.done| > 0 ==> |st.current| > 0)
    && (forall i :: 0 <= i < |st.done| - 1 ==> ClosedAtSplit(v, st.done, i))
    && (|st.done| > 0 ==>
          st.done[|st.done| - 1].closed ==
            OpenAfter(Bodies(st.done) + (if v == AsWritten then [st.current[0]] else [])))
  }

  lemma StepRecordsSplits(v: Variant, limit: int, st: State, lines: seq<string>, line: string)
    requires Bodies(st.done) + st.current == lines
    requires st.inCode == OpenAfter(lines)
    requires SplitsRecorded(v, st)
    ensures SplitsRecorded(v, Step(v, limit, st, line))
  {
    var next := Step(v, limit, st, line);
    var n := |st.done|;
    if st.length + |line| + 1 <= limit {
      assert next.done == st.done;
      if n > 0 {
        assert next.current[0] == st.current[0];
      }
    } else {
      assert next.done[..n] == st.done;
      assert next.done[n].body == st.current;
      assert Bodies(next.done) == lines;
      assert next.current == [line];
      assert |next.done| == n + 1;
      if v == AsWritten {
        StepParity(v, limit, st, lines, line);
        assert next.done[n].closed == next.inCode == OpenAfter(lines + [line]);
        assert Bodies(next.done) + [next.current[0]] == lines + [line];
      } else {
        assert Bodies(next.done) + [] == Bodies(next.done);
        assert next.done[n].closed == st.inCode == OpenAfter(Bodies(next.done) + []);
      }
      forall i | 0 <= i < n
        ensures ClosedAtSplit(v, next.done, i)
      {
        assert next.done[..i + 1] == st.done[..i + 1];
        assert next.done[i] == st.done[i];
        if i < n - 1 {
          assert ClosedAtSplit(v, st.done, i);
          assert next.done[i + 1] == st.done[i + 1];
        } else {
          assert st.done[..i + 1] == st.done;
        }
      }
    }
  }

  lemma {:induction false} RunRecordsSplits(v: Variant, limit: int, lines: seq<string>)
    ensures SplitsRecorded(v, Run(v, limit, lines))
    decreases |lines|
  {
    if |lines| > 0 {
      var init := lines[..|lines| - 1];
      var line := lines[|lines| - 1];
      RunRecordsSplits(v, limit, init);
      RunShape(v, limit, init);
      StepRecordsSplits(v, limit, Run(v, limit, init), init, line);
    }
  }

  /** Where a chunk is cut, it is closed with an added fence exactly when a
      code block is open: as written, after the line that overflowed it (whose
      fence has already been counted); corrected, after its own last line. */
  lemma PiecesCloseAtSplits(v: Variant, text: string, limit: int)
    ensures forall i :: 0 <= i < |Pieces(v, text, limit)| - 1 ==> ClosedAtSplit(v, Pieces(v, text, limit), i)
  {
    var lines := Split(text, Newline);
    RunRecordsSplits(v, limit, lines);
    RunShape(v, limit, lines);
    var st := Run(v, limit, lines);
    assert Pieces(v, text, limit) == st.done + [Piece(st.reopened, st.current, st.inCode)];
    forall i | 0 <= i < |st.done|
      ensures ClosedAtSplit(v, st.done + [Piece(st.reopened, st.current, st.inCode)], i)
    {
      FinishedClosedAtSplit(v, st, i);
    }
  }

  /** Adding the open chunk as the last piece turns the fold's record of its
      last finished piece into a cut. */
  lemma FinishedClosedAtSplit(v: Variant, st: State, i: int)
    requires SplitsRecorded(v, st)
    requires 0 <= i < |st.done|
    ensures ClosedAtSplit(v, st.done + [Piece(st.reopened, st.current, st.inCode)], i)
  {
    var ps := st.done + [Piece(st.reopened, st.current, st.inCode)];
    var n := |st.done|;
    assert ps[..i + 1] == st.done[..i + 1];
    assert ps[i] == st.done[i];
    if i < n - 1 {
      assert ClosedAtSplit(v, st.done, i);
      assert ps[i + 1] == st.done[i + 1];
    } else {
      assert st.done[..i + 1] == st.done;
      assert ps[i + 1].body == st.current;
    }
  }

  /** There is always at least one chunk, and the chunks carry every input line
      exactly once, in the input's order. */
  lemma SplitReplyKeepsLines(text: string, limit: int)
    ensures |SplitReply(text, limit)| >= 1
    ensures Bodies(Pieces(AsWritten, text, limit)) == Split(text, Newline)
  {
    PiecesShape(AsWritten, text, limit);
  }

  /** A chunk closed with an added "\n```" is followed by one that starts with
      an added "```" line, and only such a chunk is; the first chunk is not
      reopened. */
  lemma SplitReplyReopensCodeBlocks(text: string, limit: int)
    ensures var ps := Pieces(AsWritten, text, limit);
            forall j :: 1 <= j < |ps| ==> |ps[j].body| > 0
    ensures var ps := Pieces(AsWritten, text, limit);
            forall i :: 0 <= i < |ps| - 1 ==> (ps[i].closed <==> OpenAfter(ReadAtClose(AsWritten, ps, i)))
    ensures !Pieces(AsWritten, text, limit)[0].reopened
    ensures forall i :: 0 <= i < |Pieces(AsWritten, text, limit)| - 1 ==>
              Pieces(AsWritten, text, limit)[i].closed == Pieces(AsWritten, text, limit)[i + 1].reopened
    ensures forall i :: 0 <= i < |Pieces(AsWritten, text, limit)| - 1 && Pieces(AsWritten, text, limit)[i].closed ==>
              EndsWith(SplitReply(text, limit)[i], "\n```") && StartsWith(SplitReply(text, limit)[i + 1], Fence)
  {
    var ps := Pieces(AsWritten, text, limit);
    PiecesShape(AsWritten, text, limit);
    PiecesCloseAtSplits(AsWritten, text, limit);
    forall j | 1 <= j < |ps|
      ensures |ps[j].body| > 0
    {
      assert ClosedAtSplit(AsWritten, ps, j - 1);
    }
    forall i | 0 <= i < |ps| - 1
      ensures ps[i].closed == ps[i + 1].reopened
      ensures ps[i].closed <==> OpenAfter(ReadAtClose(AsWritten, ps, i))
    {
      assert Links(ps, i);
      assert ClosedAtSplit(AsWritten, ps, i);
    }
    ChunksMarked(ps);
  }

  lemma ChunksMarked(ps: seq<Piece>)
    requires forall i :: 0 <= i < |ps| - 1 ==> Links(ps, i)
    ensures forall i :: 0 <= i < |ps| - 1 && ps[i].closed ==>
              EndsWith(Chunks(ps)[i], "\n```") && StartsWith(Chunks(ps)[i + 1], Fence)
  {
    forall i | 0 <= i < |ps| - 1 && ps[i].closed
      ensures EndsWith(Chunks(ps)[i], "\n```") && StartsWith(Chunks(ps)[i + 1], Fence)
    {
      assert Links(ps, i);
      RenderEnds(ps[i]);
      RenderEnds(ps[i + 1]);
    }
  }

  /** A text that ends inside a code block (an odd number of fence lines) has a
      last chunk closed with "\n```", and only such a text. */
  lemma SplitReplyClosesFinalBlock(text: string, limit: int)
    ensures Pieces(AsWritten, text, limit)[|Pieces(AsWritten, text, limit)| - 1].closed <==>
              OpenAfter(Split(text, Newline))
    ensures OpenAfter(Split(text, Newline)) ==>
              EndsWith(SplitReply(text, limit)[|SplitReply(text, limit)| - 1], "\n```")
  {
    var ps := Pieces(AsWritten, text, limit);
    PiecesShape(AsWritten, text, limit);
    RenderEnds(ps[|ps| - 1]);
  }

  lemma RenderEnds(p: Piece)
    ensures p.closed ==> EndsWith(Render(p), "\n```")
    ensures p.reopened ==> StartsWith(Render(p), Fence)
  {
    var h := Head(p);
    if p.reopened {
      if |h| > 1 {
        assert Join(h, Newline) == Fence + Newline + Join(h[1..], Newline);
      }
      assert Join(h, Newline)[..3] == Fence;
    }
  }

  // ---- Text without code blocks ----

  /** A line that neither toggles a code block nor overflows a chunk alone. */
  predicate PlainLine(line: string, limit: int) {
    !IsFenceLine(line) && |line| < limit
  }

  predicate PlainPiece(p: Piece, limit: int) {
    !p.reopened && !p.closed && |p.body| >= 1 && |Join(p.body, Newline)| <= limit - 1
  }

  /** The counted length is the length of the open chunk plus its newline. */
  predicate Counted(open: seq<string>, length: int) {
    && (|open| == 0 ==> length == 0)
    && (|open| > 0 ==> length == |Join(open, Newline)| + 1)
  }

  predicate PlainState(st: State, limit: int) {
    && !st.inCode && !st.reopened
    && (forall i :: 0 <= i < |st.done| ==> PlainPiece(st.done[i], limit))
    && Counted(st.current, st.length)
    && (|st.current| > 0 ==> st.length <= limit)
  }

  lemma JoinSnoc(xs: seq<string>, y: string)
    ensures |Join(xs + [y], Newline)| == if |xs| == 0 then |y| else |Join(xs, Newline)| + 1 + |y|
  {
    if |xs| == 0 {
      assert xs + [y] == [y];
    } else {
      JoinAppend(xs, [y], Newline);
    }
  }

  lemma StepPlain(v: Variant, limit: int, st: State, line: string)
    requires PlainState(st, limit) && PlainLine(line, limit)
    ensures PlainState(Step(v, limit, st, line), limit)
  {
    var next := Step(v, limit, st, line);
    JoinSnoc(st.current, line);
    if st.length + |line| + 1 > limit {
      assert next.done == st.done + [Piece(false, st.current, false)];
      assert Join([line], Newline) == line;
    }
  }

  lemma {:induction false} RunPlain(v: Variant, limit: int, lines: seq<string>)
    requires forall i :: 0 <= i < |lines| ==> PlainLine(lines[i], limit)
    ensures PlainState(Run(v, limit, lines), limit)
    decreases |lines|
  {
    if |lines| > 0 {
      var init := lines[..|lines| - 1];
      RunPlain(v, limit, init);
      StepPlain(v, limit, Run(v, limit, init), lines[|lines| - 1]);
    }
  }

  /** Joining the chunks of plain pieces gives the joined lines back. */
  lemma {:induction false} JoinPlainPieces(ps: seq<Piece>, limit: int)
    requires forall i :: 0 <= i < |ps| ==> PlainPiece(ps[i], limit)
    ensures |Bodies(ps)| >= |ps|
    ensures Join(Chunks(ps), Newline) == Join(Bodies(ps), Newline)
    decreases |ps|
  {
    if |ps| > 0 {
      var init := ps[..|ps| - 1];
      var last := ps[|ps| - 1];
      JoinPlainPieces(init, limit);
      assert Head(last) == last.body;
      assert Chunks(ps) == Chunks(init) + [Render(last)];
      if |init| == 0 {
        assert Chunks(ps) == [Render(last)];
        assert Bodies(ps) == last.body;
      } else {
        JoinAppend(Chunks(init), [Render(last)], Newline);
        JoinAppend(Bodies(init), last.body, Newline);
      }
    }
  }

  lemma FinishPlain(v: Variant, limit: int, lines: seq<string>)
    requires |lines| > 0
    requires forall i :: 0 <= i < |lines| ==> PlainLine(lines[i], limit)
    ensures forall i :: 0 <= i < |Finish(Run(v, limit, lines))| ==> PlainPiece(Finish(Run(v, limit, lines))[i], limit)
  {
    RunPlain(v, limit, lines);
    RunShape(v, limit, lines);
    var st := Run(v, limit, lines);
    var last := Piece(false, st.current, false);
    assert Finish(st) == st.done + [last];
    assert PlainPiece(last, limit);
  }

  lemma PlainChunksShort(ps: seq<Piece>, limit: int)
    requires forall i :: 0 <= i < |ps| ==> PlainPiece(ps[i], limit)
    ensures forall i :: 0 <= i < |Chunks(ps)| ==> |Chunks(ps)[i]| <= limit - 1
  {
    forall i | 0 <= i < |ps|
      ensures |Render(ps[i])| <= limit - 1
    {
      assert Head(ps[i]) == ps[i].body;
    }
  }

  /** A text with no fence line and no line as long as the limit is cut into
      chunks shorter than the limit that, joined with newlines, give the text
      back. */
  lemma SplitReplyPlainText(text: string, limit: int)
    requires forall i :: 0 <= i < |Split(text, Newline)| ==> PlainLine(Split(text, Newline)[i], limit)
    ensures forall i :: 0 <= i < |SplitReply(text, limit)| ==> |SplitReply(text, limit)[i]| <= limit - 1
    ensures Join(SplitReply(text, limit), Newline) == text
  {
    var lines := Split(text, Newline);
    var ps := Pieces(AsWritten, text, limit);
    assert ps == Finish(Run(AsWritten, limit, lines));
    FinishPlain(AsWritten, limit, lines);
    PlainChunksShort(ps, limit);
    JoinPlainPieces(ps, limit);
    PiecesShape(AsWritten, text, limit);
    JoinSplit(text, Newline);
  }

  // ---- Findings: fence balance and chunk length ----

  lemma OddFencesOpener(reopened: bool)
    ensures OddFences(Opener(reopened)) == reopened
  {
    if reopened {
      FenceIsFenceLine();
      assert [Fence][..0] == [];
    }
  }

  lemma FenceHasNoNewline()
    ensures !Contains(Fence, Newline)
  {
    IndexOfSpec(Fence, Newline);
    forall k | 0 <= k < 3
      ensures !OccursAt(Fence, Newline, k)
    {
      assert Fence[k] == '`';
      assert Fence[k..k + 1][0] != Newline[0];
    }
  }

  /** Each piece holds an even number of fence lines, and a closed piece has a
      line to close. */
  predicate BalancedPiece(p: Piece) {
    !OddFences(LinesOf(p)) && (p.closed ==> |Head(p)| >= 1)
  }

  predicate BalancedState(st: State) {
    && (forall i :: 0 <= i < |st.done| ==> BalancedPiece(st.done[i]))
    && st.inCode == OddFences(OpenLines(st))
  }

  /** The piece that closes the open chunk with the code-block flag `inCode`
      is balanced when that flag is the parity of the chunk's fences. */
  lemma CloseBalanced(st: State)
    requires st.inCode == OddFences(OpenLines(st))
    ensures BalancedPiece(Piece(st.reopened, st.current, st.inCode))
  {
    var p := Piece(st.reopened, st.current, st.inCode);
    assert Head(p) == OpenLines(st);
    if st.inCode {
      FenceIsFenceLine();
      OddFencesLast(OpenLines(st), Fence);
    } else {
      assert LinesOf(p) == OpenLines(st);
    }
  }

  lemma StepBalanced(limit: int, st: State, line: string)
    requires BalancedState(st)
    ensures BalancedState(Step(Corrected, limit, st, line))
  {
    if st.length + |line| + 1 <= limit {
      AppendBalanced(limit, st, line);
    } else {
      SplitBalanced(limit, st, line);
    }
  }

  lemma AppendBalanced(limit: int, st: State, line: string)
    requires BalancedState(st) && st.length + |line| + 1 <= limit
    ensures BalancedState(Step(Corrected, limit, st, line))
  {
    var next := Step(Corrected, limit, st, line);
    assert next.done == st.done;
    assert OpenLines(next) == OpenLines(st) + [line];
    OddFencesLast(OpenLines(st), line);
    StepFlags(Corrected, limit, st, line);
  }

  lemma SplitBalanced(limit: int, st: State, line: string)
    requires BalancedState(st) && st.length + |line| + 1 > limit
    ensures BalancedState(Step(Corrected, limit, st, line))
  {
    var next := Step(Corrected, limit, st, line);
    var emitted := Piece(st.reopened, st.current, st.inCode);
    CloseBalanced(st);
    assert next.done == st.done + [emitted];
    assert forall i :: 0 <= i < |next.done| ==> BalancedPiece(next.done[i]);
    assert OpenLines(next) == Opener(st.inCode) + [line];
    OddFencesLast(Opener(st.inCode), line);
    OddFencesOpener(st.inCode);
    StepFlags(Corrected, limit, st, line);
  }

  lemma {:induction false} RunBalanced(limit: int, lines: seq<string>)
    ensures BalancedState(Run(Corrected, limit, lines))
    decreases |lines|
  {
    if |lines| > 0 {
      var init := lines[..|lines| - 1];
      RunBalanced(limit, init);
      StepBalanced(limit, Run(Corrected, limit, init), lines[|lines| - 1]);
    }
  }

  lemma FinishBalanced(limit: int, lines: seq<string>)
    ensures forall i :: 0 <= i < |Finish(Run(Corrected, limit, lines))| ==>
              BalancedPiece(Finish(Run(Corrected, limit, lines))[i])
  {
    RunBalanced(limit, lines);
    var st := Run(Corrected, limit, lines);
    if |OpenLines(st)| > 0 {
      CloseBalanced(st);
      assert Finish(st) == st.done + [Piece(st.reopened, st.current, st.inCode)];
    }
  }

  /** Every line a piece carries is one of the lines its list carries. */
  lemma {:induction false} BodiesMember(ps: seq<Piece>, i: int, k: int)
    requires 0 <= i < |ps| && 0 <= k < |ps[i].body|
    ensures ps[i].body[k] in Bodies(ps)
    decreases |ps|
  {
    var init := ps[..|ps| - 1];
    if i < |ps| - 1 {
      BodiesMember(init, i, k);
      assert init[i] == ps[i];
    } else {
      assert Bodies(ps) == Bodies(init) + ps[i].body;
    }
  }

  /** A rendered chunk reads back as its lines when they hold no newline. */
  lemma RenderLines(p: Piece)
    requires |Head(p)| >= 1
    requires forall k :: 0 <= k < |p.body| ==> !Contains(p.body[k], Newline)
    ensures Split(Render(p), Newline) == LinesOf(p)
  {
    FenceHasNoNewline();
    var ls := LinesOf(p);
    if p.closed {
      assert ls == Head(p) + [Fence];
      JoinAppend(Head(p), [Fence], Newline);
      assert Join([Fence], Newline) == Fence;
      assert Render(p) == Join(ls, Newline);
    } else {
      assert ls == Head(p);
      assert Render(p) == Join(ls, Newline) + "";
    }
    assert Render(p) == Join(ls, Newline);
    assert Newline == ['\n'];
    forall k | 0 <= k < |ls|
      ensures !Contains(ls[k], Newline)
    {
      var o := |Opener(p.reopened)|;
      if o <= k < o + |p.body| {
        assert ls[k] == p.body[k - o];
      }
    }
    SplitJoin(ls, '\n');
    assert Split(Join(ls, Newline), Newline) == ls;
  }

  lemma BalancedRender(p: Piece)
    requires BalancedPiece(p)
    requires forall k :: 0 <= k < |p.body| ==> !Contains(p.body[k], Newline)
    ensures Balanced(Render(p))
  {
    if |Head(p)| == 0 {
      assert Render(p) == "";
      assert Split("", Newline) == [""];
      assert !IsFenceLine("");
      assert [""][..0] == [];
    } else {
      RenderLines(p);
    }
  }

  /** Corrected: every chunk holds an even number of fence lines, so no chunk
      leaves a code block open or closes one it did not open. */
  lemma CorrectedChunksBalanced(text: string, limit: int)
    ensures forall i :: 0 <= i < |SplitReplyCorrected(text, limit)| ==> Balanced(SplitReplyCorrected(text, limit)[i])
  {
    var lines := Split(text, Newline);
    var ps := Pieces(Corrected, text, limit);
    FinishBalanced(limit, lines);
    PiecesShape(Corrected, text, limit);
    SplitPiecesFree(text, Newline);
    forall i | 0 <= i < |ps|
      ensures Balanced(Render(ps[i]))
    {
      forall k | 0 <= k < |ps[i].body|
        ensures !Contains(ps[i].body[k], Newline)
      {
        BodiesMember(ps, i, k);
      }
      BalancedRender(ps[i]);
    }
  }

  lemma JoinThree(x: string, y: string, z: string)
    ensures |Join([x, y, z], Newline)| == |x| + |y| + |z| + 2
  {
    var h := [x, y, z];
    assert h[1..] == [y, z];
    assert [y, z][1..] == [z];
    assert Join([z], Newline) == z;
    assert Join([y, z], Newline) == y + Newline + z;
  }

  lemma RunSnoc(v: Variant, limit: int, lines: seq<string>, line: string)
    ensures Run(v, limit, lines + [line]) == Step(v, limit, Run(v, limit, lines), line)
  {
    assert (lines + [line])[..|lines|] == lines;
  }

  /** As written, a line that fills the chunk followed by an opening fence
      gives a first chunk ending in a fence it never opened, and a second
      chunk of three fences. */
  lemma AsWrittenUnbalanced(line: string, limit: int)
    requires |line| + 2 == limit
    requires !Contains(line, Newline) && !IsFenceLine(line)
    ensures SplitReply(line + "\n```", limit) == [line + "\n```", "```\n```\n```"]
    ensures !Balanced(SplitReply(line + "\n```", limit)[0])
  {
    var text := line + "\n```";
    var p1 := Piece(false, [line], true);
    var p2 := Piece(true, [Fence], true);
    UnbalancedPieces(line, limit);
    RenderClosedLine(line);
    RenderReopenedFence();
    ChunksOfTwo(p1, p2);
    UnbalancedLines(line);
    FenceIsFenceLine();
    OneLineEven(line);
    OddFencesLast([line], Fence);
    assert [line] + [Fence] == [line, Fence];
  }

  /** The text splits into the line and the fence. */
  lemma UnbalancedLines(line: string)
    requires !Contains(line, Newline)
    ensures Split(line + "\n```", Newline) == [line, Fence]
  {
    FenceHasNoNewline();
    JoinTwo(line, Fence);
    assert Newline + Fence == "\n```";
    assert line + "\n```" == line + Newline + Fence;
    SplitJoin([line, Fence], '\n');
  }

  lemma JoinTwo(x: string, y: string)
    ensures Join([x, y], Newline) == x + Newline + y
  {
    assert [x, y][1..] == [y];
  }

  lemma OneLineEven(line: string)
    ensures !OddFences([line]) == !IsFenceLine(line)
  {
    assert [line][..0] == [];
  }

  lemma UnbalancedPieces(line: string, limit: int)
    requires |line| + 2 == limit
    requires !Contains(line, Newline) && !IsFenceLine(line)
    ensures Pieces(AsWritten, line + "\n```", limit) == [Piece(false, [line], true), Piece(true, [Fence], true)]
  {
    UnbalancedLines(line);
    UnbalancedRun(line, limit);
  }

  lemma RenderClosedLine(line: string)
    ensures Render(Piece(false, [line], true)) == line + "\n```"
  {
    assert Head(Piece(false, [line], true)) == [line];
    assert Newline + Fence == "\n```";
  }

  lemma RenderReopenedFence()
    ensures Render(Piece(true, [Fence], true)) == "```\n```\n```"
  {
    assert Head(Piece(true, [Fence], true)) == [Fence, Fence];
    assert Join([Fence, Fence], Newline) == Fence + Newline + Fence;
  }

  lemma ChunksOfTwo(p1: Piece, p2: Piece)
    ensures Chunks([p1, p2]) == [Render(p1), Render(p2)]
  {
  }

  lemma UnbalancedRun(line: string, limit: int)
    requires |line| + 2 == limit && !IsFenceLine(line)
    ensures Run(AsWritten, limit, [line, Fence]) == State([Piece(false, [line], true)], true, [Fence], |Fence|, true)
  {
    var s1 := Step(AsWritten, limit, Start, line);
    assert s1 == State([], false, [line], limit - 1, false);
    assert Run(AsWritten, limit, [line]) == s1 by {
      RunSnoc(AsWritten, limit, [], line);
      assert [] + [line] == [line];
    }
    FenceIsFenceLine();
    RunSnoc(AsWritten, limit, [line], Fence);
    assert [line] + [Fence] == [line, Fence];
  }

  /** A line the corrected split accepts: it fits a reopened chunk. */
  predicate ShortLine(line: string, limit: int) {
    |line| + 5 <= limit
  }

  predicate BoundedState(st: State, limit: int) {
    && (forall i :: 0 <= i < |st.done| ==> |Render(st.done[i])| <= limit + 3)
    && Counted(OpenLines(st), st.length)
    && (|OpenLines(st)| > 0 ==> st.length <= limit)
  }

  /** Closing the open chunk adds at most the four characters of "\n```". */
  lemma CloseBounded(st: State, limit: int)
    requires |OpenLines(st)| > 0 && Counted(OpenLines(st), st.length) && st.length <= limit
    ensures |Render(Piece(st.reopened, st.current, st.inCode))| <= limit + 3
  {
    assert Head(Piece(st.reopened, st.current, st.inCode)) == OpenLines(st);
  }

  lemma StepBounded(limit: int, st: State, line: string)
    requires BoundedState(st, limit) && ShortLine(line, limit)
    ensures BoundedState(Step(Corrected, limit, st, line), limit)
  {
    var next := Step(Corrected, limit, st, line);
    if st.length + |line| + 1 <= limit {
      assert OpenLines(next) == OpenLines(st) + [line];
      JoinSnoc(OpenLines(st), line);
    } else {
      var emitted := Piece(st.reopened, st.current, st.inCode);
      CloseBounded(st, limit);
      assert next.done == st.done + [emitted];
      if st.inCode {
        assert OpenLines(next) == [Fence, line];
        assert Join([Fence, line], Newline) == Fence + Newline + line;
      } else {
        assert OpenLines(next) == [line];
      }
    }
  }

  lemma {:induction false} RunBounded(limit: int, lines: seq<string>)
    requires forall i :: 0 <= i < |lines| ==> ShortLine(lines[i], limit)
    ensures BoundedState(Run(Corrected, limit, lines), limit)
    decreases |lines|
  {
    if |lines| > 0 {
      var init := lines[..|lines| - 1];
      RunBounded(limit, init);
      StepBounded(limit, Run(Corrected, limit, init), lines[|lines| - 1]);
    }
  }

  /** Corrected: when every line fits a reopened chunk, no chunk is longer than
      the limit plus the closing "\n```" less its newline. */
  lemma CorrectedChunksBounded(text: string, limit: int)
    requires forall i :: 0 <= i < |Split(text, Newline)| ==> ShortLine(Split(text, Newline)[i], limit)
    ensures forall i :: 0 <= i < |SplitReplyCorrected(text, limit)| ==> |SplitReplyCorrected(text, limit)[i]| <= limit + 3
  {
    var lines := Split(text, Newline);
    RunBounded(limit, lines);
    var st := Run(Corrected, limit, lines);
    if |OpenLines(st)| > 0 {
      CloseBounded(st, limit);
      assert Finish(st) == st.done + [Piece(st.reopened, st.current, st.inCode)];
    }
    assert Pieces(Corrected, text, limit) == Finish(st);
  }

  /** As written, after a split inside a code block the new chunk is counted
      as three characters long, so three lines that each fit a reopened chunk
      give a second chunk of `2 * limit - 1` characters, beyond the
      `limit + 3` the corrected split keeps to. */
  lemma AsWrittenOverlong(a: string, b: string, c: string, limit: int)
    requires |a| + 5 == limit && |b| + 5 == limit && |c| + 5 == limit && limit >= 8
    requires !IsFenceLine(a) && !IsFenceLine(b) && !IsFenceLine(c)
    requires !Contains(a, Newline) && !Contains(b, Newline) && !Contains(c, Newline)
    ensures |SplitReply(Join([Fence, a, b, c], Newline), limit)| == 2
    ensures |SplitReply(Join([Fence, a, b, c], Newline), limit)[1]| == 2 * limit - 1 > limit + 3
    ensures forall i :: 0 <= i < |Split(Join([Fence, a, b, c], Newline), Newline)| ==>
              ShortLine(Split(Join([Fence, a, b, c], Newline), Newline)[i], limit)
  {
    var p1 := Piece(false, [Fence, a], true);
    var p2 := Piece(true, [b, c], true);
    OverlongLines(a, b, c);
    OverlongPieces(a, b, c, limit);
    ChunksOfTwo(p1, p2);
    assert Head(p2) == [Fence, b, c];
    JoinThree(Fence, b, c);
  }

  lemma OverlongLines(a: string, b: string, c: string)
    requires !Contains(a, Newline) && !Contains(b, Newline) && !Contains(c, Newline)
    ensures Split(Join([Fence, a, b, c], Newline), Newline) == [Fence, a, b, c]
  {
    FenceHasNoNewline();
    SplitJoin([Fence, a, b, c], '\n');
  }

  lemma OverlongPieces(a: string, b: string, c: string, limit: int)
    requires |a| + 5 == limit && |b| + 5 == limit && |c| + 5 == limit && limit >= 8
    requires !IsFenceLine(a) && !IsFenceLine(b) && !IsFenceLine(c)
    requires !Contains(a, Newline) && !Contains(b, Newline) && !Contains(c, Newline)
    ensures Pieces(AsWritten, Join([Fence, a, b, c], Newline), limit) ==
            [Piece(false, [Fence, a], true), Piece(true, [b, c], true)]
  {
    OverlongLines(a, b, c);
    OverlongRun(a, b, c, limit);
  }

  lemma OverlongOpening(a: string, limit: int)
    requires |a| + 5 == limit && !IsFenceLine(a)
    ensures Run(AsWritten, limit, [Fence, a]) == State([], false, [Fence, a], limit, true)
  {
    var s1 := Step(AsWritten, limit, Start, Fence);
    assert s1 == State([], false, [Fence], 4, true) by {
      FenceIsFenceLine();
    }
    assert Run(AsWritten, limit, [Fence]) == s1 by {
      RunSnoc(AsWritten, limit, [], Fence);
      assert [] + [Fence] == [Fence];
    }
    RunSnoc(AsWritten, limit, [Fence], a);
    assert [Fence] + [a] == [Fence, a];
  }

  lemma OverlongRun(a: string, b: string, c: string, limit: int)
    requires |a| + 5 == limit && |b| + 5 == limit && |c| + 5 == limit && limit >= 8
    requires !IsFenceLine(a) && !IsFenceLine(b) && !IsFenceLine(c)
    ensures Run(AsWritten, limit, [Fence, a, b, c]) ==
            State([Piece(false, [Fence, a], true)], true, [b, c], limit - 1, true)
  {
    var l2 := [Fence, a];
    var l3 := l2 + [b];
    OverlongOpening(a, limit);
    var s2 := State([], false, l2, limit, true);
    var p1 := Piece(false, l2, true);
    var s3 := Step(AsWritten, limit, s2, b);
    assert s3 == State([p1], true, [b], |Fence|, true);
    RunSnoc(AsWritten, limit, l2, b);
    RunSnoc(AsWritten, limit, l3, c);
    assert l3 + [c] == [Fence, a, b, c];
  }
}
