/**
 * `parse_srt` (parsers.py): find every non-overlapping match of the block
 * pattern
 *     (\d+)\n(\d{2}:\d{2}:\d{2},\d{3})\s*-->\s*(\d{2}:\d{2}:\d{2},\d{3})\n(.*?)\n\n
 * (with `re.DOTALL`) in the decoded text, left to right, and turn each match
 * into a cue `[index, start, end, text]` whose text has its lines joined by
 * single spaces.  The matcher below is written out by hand: every quantifier of
 * the pattern is followed by a character it cannot consume, so the greedy runs
 * never need to back off, and the lazy body stops at the first blank line.
 */
module SrtParser {
  import opened Wrappers
  import opened Exceptions
  import opened Text
  import opened TimeCodec

  /** The four groups of one match: index, start, end and the raw body. */
  datatype Block = Block(index: string, start: string, end: string, body: string)

  /** What every match carries: a non-empty digit index and two SRT times. */
  predicate WellFormedBlock(b: Block) {
    b.index != [] && IsDigits(b.index) && IsSrtTime(b.start) && IsSrtTime(b.end)
  }

  /** Where the run of digits `\d+` that starts at position `i` ends. */
  function DigitEnd(s: string, i: nat): (j: nat)
    requires i <= |s|
    ensures i <= j <= |s|
    decreases |s| - i
  {
    if i < |s| && IsDigit(s[i]) then DigitEnd(s, i + 1) else i
  }

  /** The run is all digits, and as long as it can be. */
  lemma {:induction false} DigitEndDigits(s: string, i: nat)
    requires i <= |s|
    ensures forall k :: i <= k < DigitEnd(s, i) ==> IsDigit(s[k])
    ensures DigitEnd(s, i) == |s| || !IsDigit(s[DigitEnd(s, i)])
    decreases |s| - i
  {
    if i < |s| && IsDigit(s[i]) {
      DigitEndDigits(s, i + 1);
    }
  }

  /** Where the run of white space `\s*` that starts at position `i` ends. */
  function SpaceEnd(s: string, i: nat): (j: nat)
    requires i <= |s|
    ensures i <= j <= |s|
    decreases |s| - i
  {
    if i < |s| && IsSpace(s[i]) then SpaceEnd(s, i + 1) else i
  }

  /** No blank line (two consecutive '\n') starts at a position from `i` on, before `j`. */
  predicate NoBlankBetween(s: string, i: nat, j: nat) {
    forall k :: i <= k < j && k + 1 < |s| ==> !(s[k] == '\n' && s[k + 1] == '\n')
  }

  /** Where the lazy `(.*?)\n\n` that starts at `i` stops: the first blank line, if any. */
  function BlankFrom(s: string, i: nat): (r: Option<nat>)
    requires i <= |s|
    ensures r.Some? ==> i <= r.value && r.value + 2 <= |s|
    decreases |s| - i
  {
    if i + 2 > |s| then None
    else if s[i] == '\n' && s[i + 1] == '\n' then Some(i)
    else BlankFrom(s, i + 1)
  }

  /** The lazy body stops at the first blank line, and finds one whenever there is one. */
  lemma {:induction false} BlankFromFirst(s: string, i: nat)
    requires i <= |s|
    ensures BlankFrom(s, i).None? ==> NoBlankBetween(s, i, |s|)
    ensures BlankFrom(s, i).Some? ==>
      var j := BlankFrom(s, i).value;
      s[j] == '\n' && s[j + 1] == '\n' && NoBlankBetween(s, i, j)
    decreases |s| - i
  {
    if i + 2 <= |s| && !(s[i] == '\n' && s[i + 1] == '\n') {
      BlankFromFirst(s, i + 1);
    }
  }

  /**
   * `\s*(\d{2}:\d{2}:\d{2},\d{3})\n(.*?)\n\n` from position `j`: the end time,
   * the raw body and the position just past the match.
   */
  function EndFrom(s: string, j: nat): (r: Option<(string, string, nat)>)
    requires j <= |s|
    ensures r.Some? ==> IsSrtTime(r.value.0) && j < r.value.2 <= |s|
  {
    var b := SpaceEnd(s, j);
    if b + 13 > |s| || !IsSrtTime(s[b..b + 12]) || s[b + 12] != '\n' then None
    else
      var blank := BlankFrom(s, b + 13);
      if blank.None? then None
      else Some((s[b..b + 12], s[b + 13..blank.value], blank.value + 2))
  }

  /** `\s*-->` followed by the end time and the body, from position `j`. */
  function ArrowFrom(s: string, j: nat): (r: Option<(string, string, nat)>)
    requires j <= |s|
    ensures r.Some? ==> IsSrtTime(r.value.0) && j < r.value.2 <= |s|
  {
    var a := SpaceEnd(s, j);
    if a + 3 > |s| || s[a..a + 3] != "-->" then None
    else EndFrom(s, a + 3)
  }

  /**
   * The whole pattern tried at position `i`: the groups of the match and the
   * position just past it.
   */
  function MatchFrom(s: string, i: nat): (r: Option<(Block, nat)>)
    requires i <= |s|
    ensures r.Some? ==> i < r.value.1 <= |s| && r.value.0.index != []
    ensures r.Some? ==> IsSrtTime(r.value.0.start) && IsSrtTime(r.value.0.end)
  {
    var d := DigitEnd(s, i);
    if d == i || d + 13 > |s| || s[d] != '\n' || !IsSrtTime(s[d + 1..d + 13]) then None
    else
      var rest := ArrowFrom(s, d + 13);
      if rest.None? then None
      else Some((Block(s[i..d], s[d + 1..d + 13], rest.value.0, rest.value.1), rest.value.2))
  }

  /** Every match carries a non-empty digit index and two SRT times. */
  lemma MatchFromWellFormed(s: string, i: nat)
    requires i <= |s|
    ensures MatchFrom(s, i).Some? ==> WellFormedBlock(MatchFrom(s, i).value.0)
  {
    DigitEndDigits(s, i);
  }

  /**
   * `pattern.findall` from position `i`: each match is sought from where the
   * previous one ended, and a failed attempt moves on by one character.
   */
  function FindAllFrom(s: string, i: nat): (r: seq<Block>)
    requires i <= |s|
    ensures forall k :: 0 <= k < |r| ==> WellFormedBlock(r[k])
    decreases |s| - i
  {
    if i == |s| then []
    else
      var m := MatchFrom(s, i);
      if m.Some? then
        MatchFromWellFormed(s, i);
        [m.value.0] + FindAllFrom(s, m.value.1)
      else FindAllFrom(s, i + 1)
  }

  /** `pattern.findall(s)` */
  function FindAll(s: string): (r: seq<Block>)
    ensures forall k :: 0 <= k < |r| ==> WellFormedBlock(r[k])
  {
    FindAllFrom(s, 0)
  }

  /** `' '.join(body.replace('\r\n', '\n').split('\n'))` */
  function JoinLines(body: string): (t: string)
    ensures '\n' !in t
  {
    var pieces := Split(ReplacePair(body, '\r', '\n', '\n'), '\n');
    JoinAvoids(pieces, ' ', '\n');
    Join(pieces, ' ')
  }

  /** A single-line body is kept as it is. */
  lemma JoinLinesSingleLine(body: string)
    requires '\n' !in body
    ensures JoinLines(body) == body
  {
    assert !HasPair(body, '\r', '\n');
    ReplacePairUnchanged(body, '\r', '\n', '\n');
    SplitNone(body, '\n');
  }

  /** The cue `parse_srt` appends for one match. */
  function CueOf(b: Block): seq<string> {
    [b.index, b.start, b.end, JoinLines(b.body)]
  }

  /** A cue as the SRT side produces it and can read it back. */
  predicate IsSrtCue(c: seq<string>) {
    |c| == 4 && c[0] != [] && IsDigits(c[0]) && IsSrtTime(c[1]) && IsSrtTime(c[2]) && '\n' !in c[3]
  }

  /**
   * The cue list `parse_srt` returns for decoded text `s`: one cue per match,
   * each with a non-empty digit index copied from the text, two SRT times and
   * a one-line text.
   */
  function SrtCues(s: string): (r: seq<seq<string>>)
    ensures |r| == |FindAll(s)|
    ensures forall k :: 0 <= k < |r| ==> IsSrtCue(r[k]) && r[k][0] == FindAll(s)[k].index
  {
    var blocks := FindAll(s);
    seq(|blocks|, k requires 0 <= k < |blocks| => CueOf(blocks[k]))
  }

  /** No match can start where no blank line follows. */
  lemma NoBlankNoMatch(s: string, i: nat)
    requires i <= |s| && NoBlankBetween(s, i, |s|)
    ensures MatchFrom(s, i).None?
  {
    var d := DigitEnd(s, i);
    if d + 13 <= |s| {
      var a := SpaceEnd(s, d + 13);
      if a + 3 <= |s| {
        var b := SpaceEnd(s, a + 3);
        if b + 13 <= |s| {
          BlankFromFirst(s, b + 13);
        }
      }
    }
  }

  /** Text without a blank line from `i` on holds no block there. */
  lemma {:induction false} NoBlankNoBlocks(s: string, i: nat)
    requires i <= |s| && NoBlankBetween(s, i, |s|)
    ensures FindAllFrom(s, i) == []
    decreases |s| - i
  {
    if i < |s| {
      NoBlankNoMatch(s, i);
      NoBlankNoBlocks(s, i + 1);
    }
  }

  /** Text without a blank line holds no block: the result is empty, not an error. */
  lemma NoBlankLineNoCues(s: string)
    requires !HasPair(s, '\n', '\n')
    ensures SrtCues(s) == []
  {
    NoBlankNoBlocks(s, 0);
  }

  /**
   * The last block of a file that ends right after its text line, without the
   * blank line the pattern requires, yields no cue.
   */
  lemma LastBlockNeedsBlankLine(s: string)
    requires s == "1\n00:00:01,000 --> 00:00:02,000\nHi\n"
    ensures SrtCues(s) == []
  {
    assert !HasPair(s, '\n', '\n') by {
      forall i | 0 <= i < |s| - 1 && s[i] == '\n'
        ensures s[i + 1] != '\n'
      {
      }
    }
    NoBlankLineNoCues(s);
  }

  /**
   * `parse_srt`: read the file (the reading is given as `file`), collect the
   * matches, and append one cue per match.  A read failure is re-raised as a
   * ParseError naming the file; no match at all is an empty list.
   */
  method ParseSrt(path: string, file: IoResult<string>) returns (r: Result<seq<seq<string>>>)
    ensures file.IoError? ==> r == Err(Error(ParseError, "解析 SRT 文件 '" + path + "' 时出错: " + file.reason))
    ensures file.Read? ==> r == Ok(SrtCues(file.content))
  {
    if file.IoError? {
      return Err(Error(ParseError, "解析 SRT 文件 '" + path + "' 时出错: " + file.reason));
    }
    var matches := FindAll(file.content);
    var data: seq<seq<string>> := [];
    for i := 0 to |matches|
      invariant |data| == i
      invariant forall k :: 0 <= k < i ==> data[k] == CueOf(matches[k])
    {
      var m := matches[i];
      var text := JoinLines(m.body);
      data := data + [[m.index, m.start, m.end, text]];
    }
    assert data == SrtCues(file.content);
    return Ok(data);
  }
}
