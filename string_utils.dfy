/**
 * `stringUtils.cut` (src/stringUtils.js, repeated verbatim in index.js): the
 * delimiter extractor every field of a syslog record is cut with.
 */
module StringUtils {
  import opened Text

  /**
   * `cut(content, start, end, preserve)`: the piece of `content` after its
   * first `start`, up to the second `start` (the second element of
   * `content.split(start)`), then cut at the first `end` within that piece.
   */
  function Cut(content: string, start: string, end: string, preserve: bool): string
  {
    if content == [] || start == [] || end == [] then ""
    else
      var parts := Split(content, start);
      if |parts| < 2 then ""
      else
        var inner := Split(parts[1], end)[0];
        if preserve then start + inner + end else inner
  }

  /** What follows the first `start` in `content`. */
  function AfterFirst(content: string, start: string): (rest: string)
    requires |start| > 0 && Contains(content, start)
    ensures var i := |content| - |rest| - |start|;
            && OccursAt(content, start, i)
            && (forall j :: 0 <= j < i ==> !OccursAt(content, start, j))
            && rest == content[i + |start|..]
  {
    var i := IndexOf(content, start).value;
    content[i + |start|..]
  }

  /** `cut` gives `''` when an argument is empty or `start` does not occur in `content`. */
  lemma CutEmpty(content: string, start: string, end: string, preserve: bool)
    requires content == [] || start == [] || end == [] || !Contains(content, start)
    ensures Cut(content, start, end, preserve) == ""
  {
    if content != [] && start != [] && end != [] {
      SplitHasSecondPiece(content, start);
    }
  }

  /** The second element of `content.split(start)` is what follows the first `start`, up to the next `start`. */
  lemma SecondPiece(content: string, start: string)
    requires |start| > 0 && Contains(content, start)
    ensures |Split(content, start)| >= 2
    ensures Split(content, start)[1] == FirstPiece(AfterFirst(content, start), start)
  {
    var i := IndexOf(content, start).value;
    SplitAt(content, start, i);
  }

  /**
   * Without `preserve`, the result is what follows the first `start`, cut
   * at the next `start` and then at the first `end` inside that piece: no
   * `start` begins in it and no `end` begins in it within the piece, and
   * the piece, or the result, stops exactly where the next one begins.
   */
  lemma CutLocates(content: string, start: string, end: string)
    requires |content| > 0 && |start| > 0 && |end| > 0
    requires Contains(content, start)
    ensures var r := Cut(content, start, end, false);
            var rest := AfterFirst(content, start);
            var seg := FirstPiece(rest, start);
            && StartsWith(rest, r) && StartsWith(seg, r)
            && !Contains(r, start) && !Contains(r, end)
            && (forall j :: 0 <= j < |r| ==> !OccursAt(rest, start, j) && !OccursAt(seg, end, j))
            && (r == seg || OccursAt(seg, end, |r|))
            && (seg == rest || OccursAt(rest, start, |seg|))
  {
    var rest := AfterFirst(content, start);
    var seg := FirstPiece(rest, start);
    SecondPiece(content, start);
    NestedFirstPiece(rest, start, end);
    FirstPieceFirst(rest, start);
    FirstPieceFirst(seg, end);
  }

  /** Cutting at the first `a` and then at the first `b` stops at the first place where an `a` or a `b` begins. */
  lemma NestedFirstPiece(rest: string, a: string, b: string)
    requires |a| > 0 && |b| > 0
    ensures var r := FirstPiece(FirstPiece(rest, a), b);
            && StartsWith(rest, r)
            && !Contains(r, a) && !Contains(r, b)
            && (r == rest || StartsWith(rest[|r|..], a) || StartsWith(rest[|r|..], b))
  {
    var seg := FirstPiece(rest, a);
    var r := FirstPiece(seg, b);
    assert seg[0..|r|] == r;
    if Contains(r, a) {
      ContainsSlice(seg, a, 0, |r|);
    }
    if r != seg {
      assert seg[|r|..][..|b|] == rest[|r|..][..|b|];
    }
  }

  /** With `preserve`, the extracted text comes back wrapped in `start` and `end`, whether or not `end` occurred. */
  lemma CutPreserve(content: string, start: string, end: string)
    requires |content| > 0 && |start| > 0 && |end| > 0
    requires Contains(content, start)
    ensures Cut(content, start, end, true) == start + Cut(content, start, end, false) + end
  {
    SplitHasSecondPiece(content, start);
  }

  /** When no `end` follows the first `start`, the result is the whole remainder up to any second `start`. */
  lemma CutWithoutEnd(content: string, start: string, end: string)
    requires |content| > 0 && |start| > 0 && |end| > 0
    requires Contains(content, start)
    requires !Contains(AfterFirst(content, start), end)
    ensures Cut(content, start, end, false) == FirstPiece(AfterFirst(content, start), start)
  {
    var rest := AfterFirst(content, start);
    SecondPiece(content, start);
    var seg := FirstPiece(rest, start);
    assert rest[0..|seg|] == seg;
    if Contains(seg, end) {
      ContainsSlice(rest, end, 0, |seg|);
    }
  }
}
