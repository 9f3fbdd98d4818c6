/**
 * The SRT writer and the SRT parser are inverse on cue lists they can both
 * carry: writing such a list with `write_to_srt` and reading the file back
 * with `parse_srt` gives the list back, indices included.
 */
module SrtRoundTrip {
  import opened Wrappers
  import opened Text
  import opened TimeCodec
  import opened SrtParser
  import opened SrtWriter

  /** `\d+` from `i` stops at the first character that is not a digit. */
  lemma {:induction false} DigitEndAt(s: string, i: nat, j: nat)
    requires i <= j <= |s|
    requires forall k :: i <= k < j ==> IsDigit(s[k])
    requires j == |s| || !IsDigit(s[j])
    ensures DigitEnd(s, i) == j
    decreases j - i
  {
    if i < j {
      DigitEndAt(s, i + 1, j);
    }
  }

  /** The lazy body from `i` stops at the first blank line, at `j`. */
  lemma {:induction false} BlankFromAt(s: string, i: nat, j: nat)
    requires i <= j && j + 2 <= |s|
    requires forall k :: i <= k < j ==> s[k] != '\n'
    requires s[j] == '\n' && s[j + 1] == '\n'
    ensures BlankFrom(s, i) == Some(j)
    decreases j - i
  {
    if i < j {
      BlankFromAt(s, i + 1, j);
    }
  }

  /** The end time, the text line and the blank line of a written block, from its space. */
  lemma EndFromWritten(s: string, j: nat, end: string, text: string)
    requires IsSrtTime(end) && '\n' !in text
    requires j + 16 + |text| <= |s|
    requires s[j] == ' ' && s[j + 1..j + 13] == end && s[j + 13] == '\n'
    requires s[j + 14..j + 14 + |text|] == text
    requires s[j + 14 + |text|] == '\n' && s[j + 15 + |text|] == '\n'
    ensures EndFrom(s, j) == Some((end, text, j + 16 + |text|))
  {
    assert s[j + 1] == end[0];
    assert SpaceEnd(s, j + 1) == j + 1;
    assert SpaceEnd(s, j) == j + 1;
    forall k | j + 14 <= k < j + 14 + |text|
      ensures s[k] != '\n'
    {
      assert s[k] == text[k - j - 14];
    }
    BlankFromAt(s, j + 14, j + 14 + |text|);
  }

  /** The arrow and everything after it in a written block. */
  lemma ArrowFromWritten(s: string, j: nat, end: string, text: string)
    requires IsSrtTime(end) && '\n' !in text
    requires j + 20 + |text| <= |s|
    requires s[j] == ' ' && s[j + 1..j + 4] == "-->"
    requires s[j + 4] == ' ' && s[j + 5..j + 17] == end && s[j + 17] == '\n'
    requires s[j + 18..j + 18 + |text|] == text
    requires s[j + 18 + |text|] == '\n' && s[j + 19 + |text|] == '\n'
    ensures ArrowFrom(s, j) == Some((end, text, j + 20 + |text|))
  {
    assert s[j + 1] == '-';
    assert SpaceEnd(s, j + 1) == j + 1;
    assert SpaceEnd(s, j) == j + 1;
    EndFromWritten(s, j + 4, end, text);
  }

  /** Where the characters of a written block sit inside it. */
  lemma BlockLayout(c: seq<string>)
    requires |c| == 4 && |c[1]| == 12 && |c[2]| == 12
    ensures var t := SrtBlock(c[0], c[1], c[2], c[3]);
      var e := |c[0]|;
      |t| == e + 33 + |c[3]|
      && t[..e] == c[0] && t[e] == '\n' && t[e + 1..e + 13] == c[1]
      && t[e + 13] == ' ' && t[e + 14..e + 17] == "-->" && t[e + 17] == ' '
      && t[e + 18..e + 30] == c[2] && t[e + 30] == '\n'
      && t[e + 31..e + 31 + |c[3]|] == c[3]
      && t[e + 31 + |c[3]|] == '\n' && t[e + 32 + |c[3]|] == '\n'
  {
  }

  /** The length of a written block with twelve-character times. */
  lemma BlockLength(idx: string, start: string, end: string, text: string)
    requires |start| == 12 && |end| == 12
    ensures |SrtBlock(idx, start, end, text)| == |idx| + 33 + |text|
  {
  }

  /** A block written at position `i` of `s`, read off position by position. */
  lemma BlockAt(c: seq<string>, s: string, i: nat)
    requires |c| == 4 && |c[1]| == 12 && |c[2]| == 12
    requires i + |SrtBlock(c[0], c[1], c[2], c[3])| <= |s|
    requires s[i..i + |SrtBlock(c[0], c[1], c[2], c[3])|] == SrtBlock(c[0], c[1], c[2], c[3])
    ensures var e := i + |c[0]|;
      e + 33 + |c[3]| <= |s|
      && s[i..e] == c[0] && s[e] == '\n' && s[e + 1..e + 13] == c[1]
      && s[e + 13] == ' ' && s[e + 14..e + 17] == "-->" && s[e + 17] == ' '
      && s[e + 18..e + 30] == c[2] && s[e + 30] == '\n'
      && s[e + 31..e + 31 + |c[3]|] == c[3]
      && s[e + 31 + |c[3]|] == '\n' && s[e + 32 + |c[3]|] == '\n'
  {
    var t := SrtBlock(c[0], c[1], c[2], c[3]);
    BlockLayout(c);
    var e := |c[0]|;
    SliceOfSlice(s, i, t, 0, e);
    SliceOfSlice(s, i, t, e + 1, e + 13);
    SliceOfSlice(s, i, t, e + 14, e + 17);
    SliceOfSlice(s, i, t, e + 18, e + 30);
    SliceOfSlice(s, i, t, e + 31, e + 31 + |c[3]|);
    assert s[i + e] == t[e];
    assert s[i + e + 13] == t[e + 13];
    assert s[i + e + 17] == t[e + 17];
    assert s[i + e + 30] == t[e + 30];
    assert s[i + e + 31 + |c[3]|] == t[e + 31 + |c[3]|];
    assert s[i + e + 32 + |c[3]|] == t[e + 32 + |c[3]|];
  }

  /** A slice of a copy is the copy of the slice. */
  lemma SliceOfSlice(s: string, i: nat, t: string, a: nat, b: nat)
    requires i + |t| <= |s| && s[i..i + |t|] == t && a <= b <= |t|
    ensures s[i + a..i + b] == t[a..b]
  {
    forall k | 0 <= k < b - a
      ensures s[i + a..i + b][k] == t[a..b][k]
    {
      assert s[i + a + k] == s[i..i + |t|][a + k];
    }
  }

  /** A suffix that starts with `t` then `rest`, cut in two. */
  lemma SuffixCut(s: string, i: nat, t: string, rest: string)
    requires i <= |s| && s[i..] == t + rest
    ensures i + |t| <= |s| && s[i..i + |t|] == t && s[i + |t|..] == rest
  {
    assert s[i..][..|t|] == t;
    assert s[i..][|t|..] == rest;
  }

  /** The pattern matches a written block exactly, with its four fields as groups. */
  lemma MatchFromBlock(c: seq<string>, s: string, i: nat)
    requires |c| == 4 && IsSrtCue(c)
    requires i + |SrtBlock(c[0], c[1], c[2], c[3])| <= |s|
    requires s[i..i + |SrtBlock(c[0], c[1], c[2], c[3])|] == SrtBlock(c[0], c[1], c[2], c[3])
    ensures MatchFrom(s, i) == Some((Block(c[0], c[1], c[2], c[3]), i + |SrtBlock(c[0], c[1], c[2], c[3])|))
  {
    BlockAt(c, s, i);
    BlockLength(c[0], c[1], c[2], c[3]);
    MatchFromLaidOut(c[0], c[1], c[2], c[3], s, i);
  }

  /** The same, from where the four fields of the block sit. */
  lemma MatchFromLaidOut(idx: string, start: string, end: string, text: string, s: string, i: nat)
    requires idx != [] && IsDigits(idx) && IsSrtTime(start) && IsSrtTime(end) && '\n' !in text
    requires var e := i + |idx|;
      e + 33 + |text| <= |s|
      && s[i..e] == idx && s[e] == '\n' && s[e + 1..e + 13] == start
      && s[e + 13] == ' ' && s[e + 14..e + 17] == "-->" && s[e + 17] == ' '
      && s[e + 18..e + 30] == end && s[e + 30] == '\n'
      && s[e + 31..e + 31 + |text|] == text
      && s[e + 31 + |text|] == '\n' && s[e + 32 + |text|] == '\n'
    ensures MatchFrom(s, i) == Some((Block(idx, start, end, text), i + |idx| + 33 + |text|))
  {
    var e := i + |idx|;
    var next := e + 33 + |text|;
    DigitsAt(s, i, e);
    ArrowFromWritten(s, e + 13, end, text);
    assert ArrowFrom(s, e + 13) == Some((end, text, next));
    assert s[i..e] == idx;
    assert s[e + 1..e + 13] == start;
    assert DigitEnd(s, i) == e;
    MatchFromParts(s, i, e, Block(idx, start, end, text), next);
  }

  /** A non-empty digit string copied at `i` ends, as a digit run, where the copy ends. */
  lemma DigitsAt(s: string, i: nat, e: nat)
    requires i < e < |s| && IsDigits(s[i..e]) && s[e] == '\n'
    ensures DigitEnd(s, i) == e
  {
    forall k | i <= k < e
      ensures IsDigit(s[k])
    {
      assert s[k] == s[i..e][k - i];
    }
    DigitEndAt(s, i, e);
  }

  /** The pattern at `i`, put together from its index run, start time and the rest. */
  lemma MatchFromParts(s: string, i: nat, d: nat, b: Block, next: nat)
    requires i < d && d + 13 <= |s| && DigitEnd(s, i) == d
    requires s[d] == '\n' && s[i..d] == b.index && s[d + 1..d + 13] == b.start && IsSrtTime(b.start)
    requires ArrowFrom(s, d + 13) == Some((b.end, b.body, next))
    ensures MatchFrom(s, i) == Some((b, next))
  {
  }

  /** The blocks found from a position where a written file starts are its entries. */
  lemma {:induction false} FindAllWritten(rows: seq<seq<string>>, s: string, i: nat)
    requires forall k :: 0 <= k < |rows| ==> |rows[k]| == 4 && IsSrtCue(rows[k])
    requires i <= |s| && s[i..] == SrtText(rows)
    ensures |FindAllFrom(s, i)| == |rows|
    ensures forall k :: 0 <= k < |rows| ==>
      FindAllFrom(s, i)[k] == Block(rows[k][0], rows[k][1], rows[k][2], rows[k][3])
    decreases |rows|
  {
    if rows == [] {
      assert |s| == i;
    } else {
      var c := rows[0];
      var t := SrtBlock(c[0], c[1], c[2], c[3]);
      SuffixCut(s, i, t, SrtText(rows[1..]));
      MatchFromBlock(c, s, i);
      FindAllWritten(rows[1..], s, i + |t|);
    }
  }

  /** The cue made from the groups of a written block is the written entry. */
  lemma CueOfWritten(c: seq<string>)
    requires |c| == 4 && IsSrtCue(c)
    ensures CueOf(Block(c[0], c[1], c[2], c[3])) == c
  {
    JoinLinesSingleLine(c[3]);
  }

  /**
   * `parse_srt` reads back what `write_to_srt` wrote: every cue whose index is
   * a non-empty digit string, whose times are `HH:MM:SS,mmm` and whose text is
   * one line comes back unchanged.
   */
  lemma SrtRoundTrip(rows: seq<seq<string>>)
    requires forall k :: 0 <= k < |rows| ==> |rows[k]| == 4 && IsSrtCue(rows[k])
    ensures SrtCues(SrtText(rows)) == rows
  {
    var s := SrtText(rows);
    var blocks := FindAll(s);
    assert s[0..] == s;
    FindAllWritten(rows, s, 0);
    forall k | 0 <= k < |rows|
      ensures CueOf(blocks[k]) == rows[k]
    {
      CueOfWritten(rows[k]);
    }
    assert SrtCues(s) == seq(|blocks|, k requires 0 <= k < |blocks| => CueOf(blocks[k]));
  }

  /** A written SRT timestamp holds digits, ':' and ',' only. */
  lemma TimeWithoutCR(t: string)
    requires IsSrtTime(t)
    ensures '\r' !in t
  {
    assert '\r' !in SrtTimeMask;
    forall k | 0 <= k < |t|
      ensures t[k] != '\r'
    {
      assert FitsMask(t[k], SrtTimeMask[k]);
    }
  }

  /** `write_to_srt` adds no '\r' of its own: one appears only where a text has one. */
  lemma {:induction false} SrtTextWithoutCR(rows: seq<seq<string>>)
    requires forall k :: 0 <= k < |rows| ==> |rows[k]| == 4 && IsSrtCue(rows[k]) && '\r' !in rows[k][3]
    ensures '\r' !in SrtText(rows)
  {
    if rows != [] {
      var c := rows[0];
      assert |c| == 4 && IsSrtCue(c) && '\r' !in c[3];
      assert forall i :: 0 <= i < |c[0]| ==> IsDigit(c[0][i]);
      TimeWithoutCR(c[1]);
      TimeWithoutCR(c[2]);
      assert '\r' !in SrtBlock(c[0], c[1], c[2], c[3]);
      SrtTextWithoutCR(rows[1..]);
    }
  }

  /**
   * Through a real file: `parse_srt` reads in text mode, so the round trip
   * holds for texts free of '\r' as well as of '\n'.
   */
  lemma SrtFileRoundTrip(rows: seq<seq<string>>)
    requires forall k :: 0 <= k < |rows| ==> |rows[k]| == 4 && IsSrtCue(rows[k]) && '\r' !in rows[k][3]
    ensures SrtCues(UniversalNewlines(SrtText(rows))) == rows
  {
    SrtTextWithoutCR(rows);
    UniversalNewlinesUnchanged(SrtText(rows));
    SrtRoundTrip(rows);
  }
}
