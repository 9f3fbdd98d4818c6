/**
 * `parse_ass_to_srt_structure` (parsers.py): a single pass over the lines of
 * an ASS file with three pieces of state, the "in [Events]" flag, the field
 * map of the last `Format:` line and the running cue number.  `Dialogue:`
 * lines after a `Format:` line become cues `[number, start, end, text]`,
 * with the times converted to SRT and the text cleaned of `{...}` override
 * tags and of the `\N` / `\n` line-break escapes.
 */
module AssParser {
  import opened Wrappers
  import opened Exceptions
  import opened Text
  import opened TimeCodec

  // ---------------------------------------------------------------------
  // Text cleaning: `re.sub(r'\{.*?\}', '', raw)` and the two escapes.
  // ---------------------------------------------------------------------

  /**
   * Where the lazy `.*?\}` that starts at `q` ends: the first '}' from `q` on,
   * provided no '\n' comes before it ('.' does not match a line break).
   */
  function CloseFrom(s: string, q: nat): (r: Option<nat>)
    requires q <= |s|
    ensures r.Some? ==> q <= r.value < |s| && s[r.value] == '}'
    decreases |s| - q
  {
    if q == |s| then None
    else if s[q] == '}' then Some(q)
    else if s[q] == '\n' then None
    else CloseFrom(s, q + 1)
  }

  /** On a line without breaks, the tag is left open exactly when no '}' follows. */
  lemma {:induction false} CloseFromNone(s: string, q: nat)
    requires q <= |s|
    requires forall k :: q <= k < |s| ==> s[k] != '\n'
    ensures CloseFrom(s, q).None? <==> forall k :: q <= k < |s| ==> s[k] != '}'
    decreases |s| - q
  {
    if q < |s| && s[q] != '}' {
      CloseFromNone(s, q + 1);
    }
  }

  /**
   * The substitution from position `p` on: a '{' that starts a match is
   * dropped with everything up to its '}', and scanning resumes after the
   * match; any other character is kept and scanning moves on by one.
   */
  function StripTagsFrom(s: string, p: nat): string
    requires p <= |s|
    decreases |s| - p
  {
    if p == |s| then ""
    else if s[p] == '{' && CloseFrom(s, p + 1).Some? then StripTagsFrom(s, CloseFrom(s, p + 1).value + 1)
    else [s[p]] + StripTagsFrom(s, p + 1)
  }

  /** `re.sub(r'\{.*?\}', '', s)` */
  function StripTags(s: string): string {
    StripTagsFrom(s, 0)
  }

  /** No '{' is followed, anywhere later, by a '}'. */
  predicate BraceFree(t: string) {
    forall i, j :: 0 <= i < j < |t| && t[i] == '{' ==> t[j] != '}'
  }

  /** A character in front of a brace-free string. */
  lemma BraceFreeCons(c: char, t: string)
    requires BraceFree(t)
    requires c == '{' ==> '}' !in t
    ensures BraceFree([c] + t)
  {
    var u := [c] + t;
    forall i, j | 0 <= i < j < |u| && u[i] == '{'
      ensures u[j] != '}'
    {
      assert u[j] == t[j - 1];
      if i > 0 {
        assert u[i] == t[i - 1];
      }
    }
  }

  /** The substitution only drops characters, so it brings in none. */
  lemma {:induction false} StripTagsAvoids(s: string, p: nat, c: char)
    requires p <= |s|
    requires forall k :: p <= k < |s| ==> s[k] != c
    ensures c !in StripTagsFrom(s, p)
    decreases |s| - p
  {
    if p < |s| {
      if s[p] == '{' && CloseFrom(s, p + 1).Some? {
        StripTagsAvoids(s, CloseFrom(s, p + 1).value + 1, c);
      } else {
        StripTagsAvoids(s, p + 1, c);
      }
    }
  }

  /** On a line without breaks, no '{' is left in front of a '}'. */
  lemma {:induction false} StripTagsBraceFree(s: string, p: nat)
    requires p <= |s|
    requires forall k :: p <= k < |s| ==> s[k] != '\n'
    ensures BraceFree(StripTagsFrom(s, p))
    decreases |s| - p
  {
    if p < |s| {
      if s[p] == '{' && CloseFrom(s, p + 1).Some? {
        StripTagsBraceFree(s, CloseFrom(s, p + 1).value + 1);
      } else {
        StripTagsBraceFree(s, p + 1);
        StripTagsKeptHead(s, p);
      }
    }
  }

  /** The character kept at `p` can stand in front of the rest of the result. */
  lemma StripTagsKeptHead(s: string, p: nat)
    requires p < |s|
    requires forall k :: p <= k < |s| ==> s[k] != '\n'
    requires !(s[p] == '{' && CloseFrom(s, p + 1).Some?)
    requires BraceFree(StripTagsFrom(s, p + 1))
    ensures BraceFree(StripTagsFrom(s, p))
  {
    if s[p] == '{' {
      CloseFromNone(s, p + 1);
      StripTagsAvoids(s, p + 1, '}');
    }
    BraceFreeCons(s[p], StripTagsFrom(s, p + 1));
  }

  /** Text without '{' holds no tag and is left as it is. */
  lemma {:induction false} StripTagsUnchanged(s: string, p: nat)
    requires p <= |s|
    requires forall k :: p <= k < |s| ==> s[k] != '{'
    ensures StripTagsFrom(s, p) == s[p..]
    decreases |s| - p
  {
    if p < |s| {
      StripTagsUnchanged(s, p + 1);
      assert s[p..] == [s[p]] + s[p + 1..];
    }
  }

  /** A one-character replacement other than `c` brings in no `c`. */
  lemma {:induction false} ReplacePairAvoids(s: string, x: char, y: char, rep: char, c: char)
    requires c !in s && c != rep
    ensures c !in ReplacePair(s, x, y, rep)
    decreases |s|
  {
    if |s| >= 2 && s[0] == x && s[1] == y {
      ReplacePairAvoids(s[2..], x, y, rep, c);
    } else if s != [] {
      ReplacePairAvoids(s[1..], x, y, rep, c);
    }
  }

  /** A suffix of a brace-free string is brace-free. */
  lemma BraceFreeSuffix(s: string, k: nat)
    requires BraceFree(s) && k <= |s|
    ensures BraceFree(s[k..])
  {
    var t := s[k..];
    forall i, j | 0 <= i < j < |t| && t[i] == '{'
      ensures t[j] != '}'
    {
      assert t[i] == s[i + k] && t[j] == s[j + k];
    }
  }

  /** Replacing a pair by a character other than a brace keeps a string brace-free. */
  lemma {:induction false} ReplacePairBraceFree(s: string, x: char, y: char, rep: char)
    requires BraceFree(s) && rep != '{' && rep != '}'
    ensures BraceFree(ReplacePair(s, x, y, rep))
    decreases |s|
  {
    if |s| >= 2 && s[0] == x && s[1] == y {
      BraceFreeSuffix(s, 2);
      ReplacePairBraceFree(s[2..], x, y, rep);
      BraceFreeCons(rep, ReplacePair(s[2..], x, y, rep));
    } else if s != [] {
      BraceFreeSuffix(s, 1);
      ReplacePairBraceFree(s[1..], x, y, rep);
      if s[0] == '{' {
        assert forall j :: 1 <= j < |s| ==> s[j] != '}';
        assert '}' !in s[1..] by {
          forall j | 0 <= j < |s[1..]|
            ensures s[1..][j] != '}'
          {
            assert s[1..][j] == s[j + 1];
          }
        }
        ReplacePairAvoids(s[1..], x, y, rep, '}');
      }
      BraceFreeCons(s[0], ReplacePair(s[1..], x, y, rep));
    }
  }

  /** The cue text made from a raw Text field. */
  function CleanText(raw: string): string {
    ReplacePair(ReplacePair(StripTags(raw), '\\', 'N', ' '), '\\', 'n', ' ')
  }

  /** No `\N` or `\n` escape is left in a cleaned text. */
  predicate EscapeFree(t: string) {
    !HasPair(t, '\\', 'N') && !HasPair(t, '\\', 'n')
  }

  /** Cleaning leaves no line-break escape behind. */
  lemma CleanTextEscapeFree(raw: string)
    ensures EscapeFree(CleanText(raw))
  {
    var once := ReplacePair(StripTags(raw), '\\', 'N', ' ');
    ReplacePairRemoves(StripTags(raw), '\\', 'N', ' ');
    ReplacePairKeepsAbsent(once, '\\', 'n', ' ', '\\', 'N');
    ReplacePairRemoves(once, '\\', 'n', ' ');
  }

  /** Cleaning a one-line field leaves no '{' in front of a '}'. */
  lemma CleanTextBraceFree(raw: string)
    requires '\n' !in raw
    ensures BraceFree(CleanText(raw))
  {
    StripTagsBraceFree(raw, 0);
    ReplacePairBraceFree(StripTags(raw), '\\', 'N', ' ');
    ReplacePairBraceFree(ReplacePair(StripTags(raw), '\\', 'N', ' '), '\\', 'n', ' ');
  }

  /** Cleaning a field with neither tags nor escapes keeps it as it is. */
  lemma CleanTextUnchanged(raw: string)
    requires '{' !in raw && EscapeFree(raw)
    ensures CleanText(raw) == raw
  {
    StripTagsUnchanged(raw, 0);
    assert raw[0..] == raw;
    ReplacePairUnchanged(raw, '\\', 'N', ' ');
    ReplacePairUnchanged(raw, '\\', 'n', ' ');
  }

  /** An override tag in front of the text is removed: `{\an8}Hi` becomes `Hi`. */
  lemma CleanTextExample(s: string)
    requires s == "{\\an8}Hi"
    ensures CleanText(s) == "Hi"
  {
    assert s[5] == '}' && s[4] == '8' && s[3] == 'n' && s[2] == 'a' && s[1] == '\\';
    assert CloseFrom(s, 5) == Some(5);
    assert CloseFrom(s, 4) == Some(5);
    assert CloseFrom(s, 3) == Some(5);
    assert CloseFrom(s, 2) == Some(5);
    assert CloseFrom(s, 1) == Some(5);
    assert StripTagsFrom(s, 8) == "";
    assert StripTagsFrom(s, 7) == "i";
    assert StripTagsFrom(s, 6) == "Hi";
    CleanTextUnchanged("Hi");
  }

  /** The lazy match from `q` ends at the first '}' when no '}' or '\n' comes before it. */
  lemma {:induction false} CloseFromAt(s: string, q: nat, c: nat)
    requires q <= c < |s| && s[c] == '}'
    requires '}' !in s[q..c] && '\n' !in s[q..c]
    ensures CloseFrom(s, q) == Some(c)
    decreases c - q
  {
    if q < c {
      assert s[q] == s[q..c][0];
      assert s[q + 1..c] == s[q..c][1..];
      CloseFromAt(s, q + 1, c);
    }
  }

  /** A run without '{' is kept as it is. */
  lemma {:induction false} StripTagsPlain(s: string, p: nat, m: nat)
    requires p + m <= |s| && '{' !in s[p..p + m]
    ensures StripTagsFrom(s, p) == s[p..p + m] + StripTagsFrom(s, p + m)
    decreases m
  {
    if m > 0 {
      assert s[p] == s[p..p + m][0];
      assert s[p + 1..p + m] == s[p..p + m][1..];
      StripTagsPlain(s, p + 1, m - 1);
      assert s[p..p + m] == [s[p]] + s[p + 1..p + m];
    }
  }

  /** The scan over a suffix does not depend on what comes before it. */
  lemma {:induction false} CloseFromShift(u: string, v: string, q: nat)
    requires q <= |v|
    ensures CloseFrom(v, q).None? ==> CloseFrom(u + v, |u| + q).None?
    ensures CloseFrom(v, q).Some? ==> CloseFrom(u + v, |u| + q) == Some(|u| + CloseFrom(v, q).value)
    decreases |v| - q
  {
    if q < |v| {
      assert (u + v)[|u| + q] == v[q];
      CloseFromShift(u, v, q + 1);
    }
  }

  lemma {:induction false} StripTagsShift(u: string, v: string, i: nat)
    requires i <= |v|
    ensures StripTagsFrom(u + v, |u| + i) == StripTagsFrom(v, i)
    decreases |v| - i
  {
    if i < |v| {
      var s := u + v;
      assert s[|u| + i] == v[i];
      CloseFromShift(u, v, i + 1);
      if v[i] == '{' && CloseFrom(v, i + 1).Some? {
        var c := CloseFrom(v, i + 1).value;
        assert CloseFrom(s, |u| + i + 1) == Some(|u| + c);
        assert StripTagsFrom(s, |u| + i) == StripTagsFrom(s, |u| + c + 1);
        StripTagsShift(u, v, c + 1);
      } else {
        assert !(s[|u| + i] == '{' && CloseFrom(s, |u| + i + 1).Some?);
        assert StripTagsFrom(s, |u| + i) == [v[i]] + StripTagsFrom(s, |u| + i + 1);
        StripTagsShift(u, v, i + 1);
      }
    }
  }

  /**
   * A tag in front of any text is removed up to its own first '}' (the lazy
   * `.*?`), and the rest is cleaned as if the tag had not been there.
   */
  lemma TagThenRest(x: string, rest: string)
    requires '}' !in x && '\n' !in x
    ensures StripTags("{" + x + "}" + rest) == StripTags(rest)
  {
    var tag := "{" + x + "}";
    var s := tag + rest;
    assert s[1..|x| + 1] == x && s[|x| + 1] == '}';
    CloseFromAt(s, 1, |x| + 1);
    StripTagsShift(tag, rest, 0);
  }

  /** Text without '{' in front of any text is kept as it is. */
  lemma PlainThenRest(a: string, rest: string)
    requires '{' !in a
    ensures StripTags(a + rest) == a + StripTags(rest)
  {
    var s := a + rest;
    assert s[0..|a|] == a;
    StripTagsPlain(s, 0, |a|);
    StripTagsShift(a, rest, 0);
  }

  /**
   * The lazy `.*?` closes each tag at its own '}': `{\an8}Hi {\i1}there{\i0}`
   * becomes `Hi there`, not `Hi ` with the middle text lost.
   */
  lemma CleanTextSeveralTags(s: string)
    requires s == "{\\an8}Hi {\\i1}there{\\i0}"
    ensures CleanText(s) == "Hi there"
  {
    var third := "{" + "\\i0" + "}" + "";
    var tail := "there" + third;
    var second := "{" + "\\i1" + "}" + tail;
    assert s == "{" + "\\an8" + "}" + ("Hi " + second);
    TagThenRest("\\an8", "Hi " + second);
    PlainThenRest("Hi ", second);
    TagThenRest("\\i1", tail);
    PlainThenRest("there", third);
    TagThenRest("\\i0", "");
    var t := StripTags(s);
    assert t == "Hi there";
    assert !HasPair(t, '\\', 'N') && !HasPair(t, '\\', 'n') by {
      assert forall i :: 0 <= i < |t| ==> t[i] != '\\';
    }
    ReplacePairUnchanged(t, '\\', 'N', ' ');
    ReplacePairUnchanged(t, '\\', 'n', ' ');
  }

  // ---------------------------------------------------------------------
  // The line state machine.
  // ---------------------------------------------------------------------

  /** The parser's state between two lines; `data` holds the cues so far. */
  datatype State = State(inEvents: bool, formatMap: map<string, nat>, count: nat, data: seq<seq<string>>)

  /** Before the first line: outside [Events], no Format line seen, numbering from 1. */
  const Init := State(false, map[], 1, [])

  /** The ParseError raised for a Format line without one of the needed fields. */
  const FormatError := Error(ParseError, "ASS 'Format' 行缺少 Start, End, 或 Text 关键字段。")

  /** The ParseError raised when the file cannot be read. */
  function ReadError(path: string, reason: string): Error {
    Error(ParseError, "读取 ASS 文件 '" + path + "' 时出错: " + reason)
  }

  /** A line whose lower-cased form starts with a keyword ending in ':' holds a ':'. */
  lemma ColonAt(line: string, keyword: string, k: nat)
    requires StartsWith(Lower(line), keyword) && k < |keyword| && keyword[k] == ':'
    ensures ':' in line
  {
    assert Lower(line)[k] == Lower(line)[..|keyword|][k];
    LowerKeeps(line, k, ':');
  }

  /** `line.split(':', 1)[1]`: everything after the first ':'. */
  function AfterColon(line: string): (r: string)
    requires ':' in line
    ensures |r| < |line|
  {
    SplitOnceHalves(line, ':');
    SplitN(line, ':', 1)[1]
  }

  /** The field names of a Format line, trimmed and lower-cased, in order. */
  function FormatFields(line: string): (fields: seq<string>)
    requires StartsWith(Lower(line), "format:")
  {
    ColonAt(line, "format:", 6);
    var names := Split(AfterColon(line), ',');
    seq(|names|, k requires 0 <= k < |names| => Lower(Strip(names[k])))
  }

  /** `{field: i for i, field in enumerate(fields[..n])}` */
  function FormatMapOf(fields: seq<string>, n: nat): map<string, nat>
    requires n <= |fields|
  {
    if n == 0 then map[] else FormatMapOf(fields, n - 1)[fields[n - 1] := n - 1]
  }

  /** The field map of a Format line. */
  function FormatMap(fields: seq<string>): map<string, nat> {
    FormatMapOf(fields, |fields|)
  }

  /** A name is mapped exactly when it is a field, and to its last position. */
  lemma {:induction false} FormatMapEntry(fields: seq<string>, n: nat, f: string)
    requires n <= |fields|
    ensures f in FormatMapOf(fields, n) <==> f in fields[..n]
    ensures f in FormatMapOf(fields, n) ==>
      var i := FormatMapOf(fields, n)[f];
      i < n && fields[i] == f && forall k :: i < k < n ==> fields[k] != f
  {
    if n > 0 {
      FormatMapEntry(fields, n - 1, f);
      assert fields[..n] == fields[..n - 1] + [fields[n - 1]];
    }
  }

  /** The three fields every cue needs. */
  predicate HasKeys(fm: map<string, nat>) {
    "start" in fm && "end" in fm && "text" in fm
  }

  /**
   * How the loop treats a stripped line, in the order it tests: a `[events]`
   * line, a Format line (with its trimmed lower-cased field names), a
   * Dialogue line (with the trimmed text after its first ':'), or any other line.
   */
  datatype LineKind = EventsLine | FormatLine(fields: seq<string>) | DialogueLine(body: string) | OtherLine

  /** A line that switches the parser into [Events]. */
  predicate IsEventsLine(raw: string) {
    Lower(Strip(raw)) == "[events]"
  }

  /** A line the parser takes as a Format line (once inside [Events]). */
  predicate IsFormatLine(raw: string) {
    !IsEventsLine(raw) && StartsWith(Lower(Strip(raw)), "format:")
  }

  /** A line the parser takes as a Dialogue line (once inside [Events]). */
  predicate IsDialogueLine(raw: string) {
    !IsEventsLine(raw) && !IsFormatLine(raw) && StartsWith(Lower(Strip(raw)), "dialogue:")
  }

  /** `line.split(':', 1)[1].strip()` of a Dialogue line. */
  function DialogueBody(line: string): (body: string)
    requires StartsWith(Lower(line), "dialogue:")
  {
    ColonAt(line, "dialogue:", 8);
    Strip(AfterColon(line))
  }

  /** The kind of a raw line, tested on `line.strip()` as the loop does. */
  function Classify(raw: string): (kind: LineKind)
    ensures kind.EventsLine? <==> IsEventsLine(raw)
    ensures kind.FormatLine? <==> IsFormatLine(raw)
    ensures kind.DialogueLine? <==> IsDialogueLine(raw)
  {
    var line := Strip(raw);
    if Lower(line) == "[events]" then EventsLine
    else if StartsWith(Lower(line), "format:") then FormatLine(FormatFields(line))
    else if StartsWith(Lower(line), "dialogue:") then DialogueLine(DialogueBody(line))
    else OtherLine
  }

  /**
   * The cue of a Dialogue line whose body is `body`, or None when a field
   * lookup fails (the IndexError or KeyError that makes the parser skip the
   * line).  The body is split at most `len(format_map) - 1` times.
   */
  function DialogueCue(body: string, fm: map<string, nat>, count: nat): Option<seq<string>>
    requires |fm| > 0
  {
    var parts := SplitN(body, ',', |fm| - 1);
    if !HasKeys(fm) || fm["start"] >= |parts| || fm["end"] >= |parts| || fm["text"] >= |parts| then None
    else Some([Show(count), AssToSrt(parts[fm["start"]]), AssToSrt(parts[fm["end"]]), CleanText(parts[fm["text"]])])
  }

  /** The state after a cue is appended: the counter moves on with it. */
  function AddCue(st: State, cue: seq<string>): State {
    st.(count := st.count + 1, data := st.data + [cue])
  }

  /** A Format line inside [Events]: the new field map, or the ParseError when a needed field is missing. */
  function FormatStep(st: State, fields: seq<string>): Result<State> {
    var fm := FormatMap(fields);
    if HasKeys(fm) then Ok(st.(formatMap := fm)) else Err(FormatError)
  }

  /**
   * A Dialogue line inside [Events]: ignored before any Format line, skipped
   * when a field lookup fails, and otherwise appended as the next cue.
   */
  function DialogueStep(st: State, body: string): State {
    if |st.formatMap| == 0 then st
    else
      var cue := DialogueCue(body, st.formatMap, st.count);
      if cue.None? then st else AddCue(st, cue.value)
  }

  /** One iteration of the loop, for a line of kind `kind`. */
  function Apply(st: State, kind: LineKind): Result<State> {
    match kind
    case EventsLine => Ok(st.(inEvents := true))
    case FormatLine(fields) => if st.inEvents then FormatStep(st, fields) else Ok(st)
    case DialogueLine(body) => if st.inEvents then Ok(DialogueStep(st, body)) else Ok(st)
    case OtherLine => Ok(st)
  }

  /** The kind of every line of the file. */
  function Kinds(lines: seq<string>): (kinds: seq<LineKind>)
    ensures |kinds| == |lines|
    ensures forall k :: 0 <= k < |lines| ==> kinds[k] == Classify(lines[k])
  {
    seq(|lines|, k requires 0 <= k < |lines| => Classify(lines[k]))
  }

  /** The state after the first `n` lines of kinds `kinds`, or the error that ended the parse. */
  function Run(kinds: seq<LineKind>, n: nat): Result<State>
    requires n <= |kinds|
  {
    if n == 0 then Ok(Init)
    else
      var prev := Run(kinds, n - 1);
      if prev.Err? then prev else Apply(prev.value, kinds[n - 1])
  }

  /** The state after the first `n` lines, or the error that ended the parse. */
  function RunTo(lines: seq<string>, n: nat): Result<State>
    requires n <= |lines|
  {
    Run(Kinds(lines), n)
  }

  /** What `parse_ass_to_srt_structure` returns for the lines of a file. */
  function AssCues(lines: seq<string>): Result<seq<seq<string>>> {
    var r := RunTo(lines, |lines|);
    if r.Err? then Err(r.error) else Ok(r.value.data)
  }

  // ---------------------------------------------------------------------
  // Properties of the state machine.
  // ---------------------------------------------------------------------

  /** A cue as the ASS parser makes it, the `k`-th one. */
  predicate NumberedCue(c: seq<string>, k: nat) {
    |c| == 4 && c[0] == Show(k + 1) && EscapeFree(c[3])
  }

  /**
   * The invariant of the loop: the counter is one past the number of cues,
   * the cues are numbered 1, 2, ... with escape-free texts, and the field
   * map is empty or maps all three needed fields.
   */
  predicate Valid(st: State) {
    st.count == |st.data| + 1
    && (st.formatMap == map[] || HasKeys(st.formatMap))
    && forall k :: 0 <= k < |st.data| ==> NumberedCue(st.data[k], k)
  }

  /** A Dialogue cue carries the counter as its index and an escape-free text. */
  lemma DialogueCueNumbered(body: string, fm: map<string, nat>, count: nat)
    requires |fm| > 0 && count > 0 && DialogueCue(body, fm, count).Some?
    ensures NumberedCue(DialogueCue(body, fm, count).value, count - 1)
  {
    var parts := SplitN(body, ',', |fm| - 1);
    CleanTextEscapeFree(parts[fm["text"]]);
  }

  /** Appending the next numbered cue keeps the invariant. */
  lemma AddCueValid(st: State, cue: seq<string>)
    requires Valid(st) && NumberedCue(cue, |st.data|)
    ensures Valid(AddCue(st, cue))
  {
    var data := st.data + [cue];
    assert forall k :: 0 <= k < |st.data| ==> data[k] == st.data[k];
  }

  /** Every line keeps the invariant. */
  lemma ApplyValid(st: State, kind: LineKind)
    requires Valid(st)
    ensures Apply(st, kind).Ok? ==> Valid(Apply(st, kind).value)
  {
    if kind.DialogueLine? && st.inEvents && |st.formatMap| > 0 {
      var cue := DialogueCue(kind.body, st.formatMap, st.count);
      if cue.Some? {
        DialogueCueNumbered(kind.body, st.formatMap, st.count);
        AddCueValid(st, cue.value);
      }
    }
  }

  /** Every state the parse reaches satisfies the invariant. */
  lemma {:induction false} RunValid(kinds: seq<LineKind>, n: nat)
    requires n <= |kinds|
    ensures Run(kinds, n).Ok? ==> Valid(Run(kinds, n).value)
  {
    if n > 0 {
      RunValid(kinds, n - 1);
      if Run(kinds, n - 1).Ok? {
        ApplyValid(Run(kinds, n - 1).value, kinds[n - 1]);
      }
    }
  }

  /**
   * The cues are numbered "1", "2", ..., "N" with no gaps, and no cue text
   * holds a `\N` or `\n` escape.
   */
  lemma AssCuesNumbered(lines: seq<string>)
    ensures AssCues(lines).Ok? ==>
      forall k :: 0 <= k < |AssCues(lines).value| ==> NumberedCue(AssCues(lines).value[k], k)
  {
    RunValid(Kinds(lines), |lines|);
  }

  /** An error ends the parse: every longer prefix fails with the same error. */
  lemma {:induction false} ErrorSticky(kinds: seq<LineKind>, n: nat, m: nat)
    requires n <= m <= |kinds|
    ensures Run(kinds, n).Err? ==> Run(kinds, m) == Run(kinds, n)
    decreases m
  {
    if n < m {
      ErrorSticky(kinds, n, m - 1);
    }
  }

  /** The only error a line can raise is the one for a bad Format line. */
  lemma {:induction false} RunErrorIsFormatError(kinds: seq<LineKind>, n: nat)
    requires n <= |kinds|
    ensures Run(kinds, n).Err? ==> Run(kinds, n).error == FormatError
  {
    if n > 0 {
      RunErrorIsFormatError(kinds, n - 1);
    }
  }

  /** A parse that fails, fails with the ParseError of a bad Format line. */
  lemma AssCuesError(lines: seq<string>)
    ensures AssCues(lines).Err? ==> AssCues(lines).error == FormatError
  {
    RunErrorIsFormatError(Kinds(lines), |lines|);
  }

  /** No line clears the events flag. */
  lemma ApplyKeepsEvents(st: State, kind: LineKind)
    requires st.inEvents && Apply(st, kind).Ok?
    ensures Apply(st, kind).value.inEvents
  {
  }

  /** Once inside [Events], the parser never leaves it. */
  lemma {:induction false} EventsSticky(kinds: seq<LineKind>, n: nat, m: nat)
    requires n <= m <= |kinds|
    requires Run(kinds, m).Ok? && Run(kinds, n).Ok? && Run(kinds, n).value.inEvents
    ensures Run(kinds, m).value.inEvents
    decreases m
  {
    if n < m {
      ErrorSticky(kinds, m - 1, m);
      EventsSticky(kinds, n, m - 1);
      ApplyKeepsEvents(Run(kinds, m - 1).value, kinds[m - 1]);
    }
  }

  /** Before the events flag is set, nothing but an `[events]` line changes the state. */
  lemma {:induction false} RunPreamble(kinds: seq<LineKind>, n: nat)
    requires n <= |kinds|
    requires forall k :: 0 <= k < n ==> !kinds[k].EventsLine?
    ensures Run(kinds, n) == Ok(Init)
  {
    if n > 0 {
      RunPreamble(kinds, n - 1);
    }
  }

  /** Lines before the first `[events]` line change nothing. */
  lemma PreambleIgnored(lines: seq<string>, n: nat)
    requires n <= |lines|
    requires forall k :: 0 <= k < n ==> !IsEventsLine(lines[k])
    ensures RunTo(lines, n) == Ok(Init)
  {
    RunPreamble(Kinds(lines), n);
  }

  /** A line that is not a Format line leaves an empty field map and cue list as they are. */
  lemma ApplyWithoutFormat(st: State, kind: LineKind)
    requires st.formatMap == map[] && st.data == [] && !kind.FormatLine?
    ensures Apply(st, kind).Ok?
    ensures Apply(st, kind).value.formatMap == map[] && Apply(st, kind).value.data == []
  {
  }

  /**
   * When every Format line comes before the first `[events]` line, the field
   * map stays empty and no cue is made.
   */
  lemma {:induction false} RunWithoutEventsFormat(kinds: seq<LineKind>, n: nat)
    requires n <= |kinds|
    requires forall j, k :: 0 <= j < k < n && kinds[k].FormatLine? ==> !kinds[j].EventsLine?
    ensures Run(kinds, n).Ok?
    ensures Run(kinds, n).value.formatMap == map[] && Run(kinds, n).value.data == []
  {
    if n > 0 {
      RunWithoutEventsFormat(kinds, n - 1);
      if kinds[n - 1].FormatLine? {
        RunPreamble(kinds, n - 1);
      } else {
        ApplyWithoutFormat(Run(kinds, n - 1).value, kinds[n - 1]);
      }
    }
  }

  /**
   * A file whose Format lines all come before its first `[events]` line (in
   * a styles section, say) gives no cue: the result is empty, not an error.
   */
  lemma NoEventsFormatNoCues(lines: seq<string>)
    requires forall j, k :: 0 <= j < k < |lines| && IsFormatLine(lines[k]) ==> !IsEventsLine(lines[j])
    ensures AssCues(lines) == Ok([])
  {
    RunWithoutEventsFormat(Kinds(lines), |lines|);
  }

  /** A Format line inside [Events] without one of the needed fields fails. */
  lemma ApplyBadFormat(st: State, fields: seq<string>)
    requires st.inEvents && !("start" in fields && "end" in fields && "text" in fields)
    ensures Apply(st, FormatLine(fields)) == Err(FormatError)
  {
    assert fields[..|fields|] == fields;
    FormatMapEntry(fields, |fields|, "start");
    FormatMapEntry(fields, |fields|, "end");
    FormatMapEntry(fields, |fields|, "text");
  }

  /**
   * A Format line inside [Events] whose fields lack `start`, `end` or `text`
   * makes the whole parse fail with the ParseError for it.
   */
  lemma BadFormatFails(lines: seq<string>, n: nat)
    requires n < |lines| && RunTo(lines, n).Ok? && RunTo(lines, n).value.inEvents
    requires IsFormatLine(lines[n])
    requires !("start" in Classify(lines[n]).fields && "end" in Classify(lines[n]).fields
      && "text" in Classify(lines[n]).fields)
    ensures AssCues(lines) == Err(FormatError)
  {
    var kinds := Kinds(lines);
    ApplyBadFormat(Run(kinds, n).value, kinds[n].fields);
    ErrorSticky(kinds, n + 1, |lines|);
  }

  /**
   * A Dialogue line whose split has too few parts for one of the mapped
   * positions is skipped: the state, and so the parse of the later lines, is
   * as if it were not there.
   */
  lemma ShortDialogueSkipped(st: State, body: string)
    requires st.inEvents && |st.formatMap| > 0
    requires var parts := SplitN(body, ',', |st.formatMap| - 1);
      !HasKeys(st.formatMap) || st.formatMap["start"] >= |parts| || st.formatMap["end"] >= |parts|
      || st.formatMap["text"] >= |parts|
    ensures Apply(st, DialogueLine(body)) == Ok(st)
  {
  }

  /**
   * With Text mapped to the last field, the text of a Dialogue line keeps
   * every comma it holds, and start and end are the converted times of their
   * mapped fields.
   */
  lemma DialogueTextKeepsCommas(fields: seq<string>, text: string, fm: map<string, nat>, count: nat)
    requires HasKeys(fm) && |fields| == |fm| - 1 && fm["text"] == |fields|
    requires fm["start"] < |fields| && fm["end"] < |fields|
    requires forall k :: 0 <= k < |fields| ==> ',' !in fields[k]
    ensures DialogueCue(Join(fields, ',') + [','] + text, fm, count)
      == Some([Show(count), AssToSrt(fields[fm["start"]]), AssToSrt(fields[fm["end"]]), CleanText(text)])
  {
    var parts := fields + [text];
    SplitNKeepsTail(fields, ',', text);
    assert SplitN(Join(fields, ',') + [','] + text, ',', |fm| - 1) == parts;
    var s, e := fm["start"], fm["end"];
    assert parts[s] == fields[s] && parts[e] == fields[e] && parts[|fields|] == text;
  }
  /** A cue whose text has no `{` followed later by a `}`. */
  predicate BraceFreeCue(c: seq<string>) {
    |c| == 4 && BraceFree(c[3])
  }

  /**
   * The body of a Dialogue line holds no '\n' when the stripped line holds
   * none (a line as `readlines` returns it ends in its only '\n').
   */
  lemma DialogueBodyOneLine(raw: string)
    requires '\n' !in Strip(raw)
    ensures Classify(raw).DialogueLine? ==> '\n' !in Classify(raw).body
  {
    var line := Strip(raw);
    if StartsWith(Lower(line), "dialogue:") && '\n' in DialogueBody(line) {
      ColonAt(line, "dialogue:", 8);
      StripKeeps(AfterColon(line), '\n');
      SplitOnceHalves(line, ':');
    }
  }

  /** The cue of a one-line Dialogue body has a brace-free text. */
  lemma DialogueCueBraceFree(body: string, fm: map<string, nat>, count: nat)
    requires |fm| > 0 && '\n' !in body && DialogueCue(body, fm, count).Some?
    ensures BraceFreeCue(DialogueCue(body, fm, count).value)
  {
    var parts := SplitN(body, ',', |fm| - 1);
    var t := fm["text"];
    if '\n' in parts[t] {
      JoinContains(parts, ',', t, '\n');
    }
    CleanTextBraceFree(parts[t]);
  }

  /** Every line of one-line Dialogue bodies keeps all cue texts brace-free. */
  lemma ApplyBraceFree(st: State, kind: LineKind)
    requires forall k :: 0 <= k < |st.data| ==> BraceFreeCue(st.data[k])
    requires kind.DialogueLine? ==> '\n' !in kind.body
    ensures Apply(st, kind).Ok? ==>
      forall k :: 0 <= k < |Apply(st, kind).value.data| ==> BraceFreeCue(Apply(st, kind).value.data[k])
  {
    if kind.DialogueLine? && st.inEvents && |st.formatMap| > 0 {
      var cue := DialogueCue(kind.body, st.formatMap, st.count);
      if cue.Some? {
        DialogueCueBraceFree(kind.body, st.formatMap, st.count);
        var data := st.data + [cue.value];
        assert forall k :: 0 <= k < |st.data| ==> data[k] == st.data[k];
      }
    }
  }

  /** Over one-line Dialogue bodies, every cue text is brace-free. */
  lemma {:induction false} RunBraceFree(kinds: seq<LineKind>, n: nat)
    requires n <= |kinds|
    requires forall k :: 0 <= k < n && kinds[k].DialogueLine? ==> '\n' !in kinds[k].body
    ensures Run(kinds, n).Ok? ==>
      forall k :: 0 <= k < |Run(kinds, n).value.data| ==> BraceFreeCue(Run(kinds, n).value.data[k])
  {
    if n > 0 {
      RunBraceFree(kinds, n - 1);
      if Run(kinds, n - 1).Ok? {
        ApplyBraceFree(Run(kinds, n - 1).value, kinds[n - 1]);
      }
    }
  }

  /**
   * In every cue text of a file whose stripped lines hold no '\n', no `{` is
   * followed later by a `}`: every override tag has been removed.  Lines as
   * `readlines` returns them qualify (see `ReadLineStripped`).
   */
  lemma AssCuesBraceFree(lines: seq<string>)
    requires forall k :: 0 <= k < |lines| ==> '\n' !in Strip(lines[k])
    ensures AssCues(lines).Ok? ==>
      forall k :: 0 <= k < |AssCues(lines).value| ==> BraceFreeCue(AssCues(lines).value[k])
  {
    var kinds := Kinds(lines);
    forall k | 0 <= k < |lines|
      ensures kinds[k].DialogueLine? ==> '\n' !in kinds[k].body
    {
      DialogueBodyOneLine(lines[k]);
    }
    RunBraceFree(kinds, |lines|);
  }

  /** A line as `readlines` returns it, with '\n' at most at its end, holds none once stripped. */
  lemma ReadLineStripped(line: string)
    requires forall k :: 0 <= k < |line| - 1 ==> line[k] != '\n'
    ensures '\n' !in Strip(line)
  {
    var front := StripLeading(line);
    var r := Strip(line);
    assert r == front[..|r|];
    forall i | 0 <= i < |r|
      ensures r[i] != '\n'
    {
      var j := |line| - |front| + i;
      assert r[i] == line[j];
      if j == |line| - 1 {
        assert i == |r| - 1;
      }
    }
  }

  /** One more line is one more application of the step. */
  lemma RunStep(kinds: seq<LineKind>, i: nat)
    requires i < |kinds| && Run(kinds, i).Ok?
    ensures Run(kinds, i + 1) == Apply(Run(kinds, i).value, kinds[i])
  {
  }

  /** The kind of a line, from the tests the loop makes on `line.strip()`. */
  lemma ClassifyTests(raw: string)
    ensures Lower(Strip(raw)) == "[events]" ==> Classify(raw) == EventsLine
    ensures (Lower(Strip(raw)) != "[events]" && StartsWith(Lower(Strip(raw)), "format:")) ==>
      Classify(raw) == FormatLine(FormatFields(Strip(raw)))
    ensures (Lower(Strip(raw)) != "[events]" && !StartsWith(Lower(Strip(raw)), "format:")
      && StartsWith(Lower(Strip(raw)), "dialogue:")) ==>
      Classify(raw) == DialogueLine(DialogueBody(Strip(raw)))
    ensures (Lower(Strip(raw)) != "[events]" && !StartsWith(Lower(Strip(raw)), "format:")
      && !StartsWith(Lower(Strip(raw)), "dialogue:")) ==>
      Classify(raw) == OtherLine
  {
  }

  /**
   * A Dialogue line once a field map is set: split the body at most
   * `len(format_map) - 1` times, look the three fields up, and append the cue;
   * a failed lookup skips the line.
   */
  method ParseDialogue(st: State, body: string) returns (next: State)
    requires |st.formatMap| > 0
    ensures next == DialogueStep(st, body)
  {
    var formatMap := st.formatMap;
    var parts := SplitN(body, ',', |formatMap| - 1);
    if HasKeys(formatMap) && formatMap["start"] < |parts| && formatMap["end"] < |parts|
      && formatMap["text"] < |parts|
    {
      var startTime := AssToSrt(parts[formatMap["start"]]);
      var endTime := AssToSrt(parts[formatMap["end"]]);
      var cleanText := CleanText(parts[formatMap["text"]]);
      var cue := [Show(st.count), startTime, endTime, cleanText];
      assert DialogueCue(body, formatMap, st.count) == Some(cue);
      return AddCue(st, cue);
    }
    assert DialogueCue(body, formatMap, st.count) == None;
    return st;
  }

  /**
   * The body of the loop of `parse_ass_to_srt_structure` for one raw line:
   * an early return stands for `continue`, and an error for the raise.
   */
  method ParseLine(st: State, raw: string) returns (r: Result<State>)
    ensures r == Apply(st, Classify(raw))
  {
    ClassifyTests(raw);
    var line := Strip(raw);
    if Lower(line) == "[events]" {
      return Ok(st.(inEvents := true));
    }
    if !st.inEvents {
      return Ok(st);
    }
    if StartsWith(Lower(line), "format:") {
      var fields := FormatFields(line);
      assert Classify(raw) == FormatLine(fields);
      var formatMap := FormatMap(fields);
      if !HasKeys(formatMap) {
        return Err(FormatError);
      }
      return Ok(st.(formatMap := formatMap));
    } else if StartsWith(Lower(line), "dialogue:") && |st.formatMap| > 0 {
      var body := DialogueBody(line);
      assert Classify(raw) == DialogueLine(body);
      var next := ParseDialogue(st, body);
      return Ok(next);
    }
    return Ok(st);
  }

  /**
   * `parse_ass_to_srt_structure`: read the lines of the file (the reading is
   * given as `file`) and run the state machine over them.  A read failure is
   * re-raised as a ParseError naming the file, and a bad Format line ends the
   * parse with its ParseError.
   */
  method ParseAss(path: string, file: IoResult<seq<string>>) returns (r: Result<seq<seq<string>>>)
    ensures file.IoError? ==> r == Err(ReadError(path, file.reason))
    ensures file.Read? ==> r == AssCues(file.content)
  {
    if file.IoError? {
      return Err(ReadError(path, file.reason));
    }
    var lines := file.content;
    ghost var kinds := Kinds(lines);
    var inEvents := false;
    var formatMap: map<string, nat> := map[];
    var count: nat := 1;
    var data: seq<seq<string>> := [];
    for i := 0 to |lines|
      invariant Run(kinds, i) == Ok(State(inEvents, formatMap, count, data))
    {
      var next := ParseLine(State(inEvents, formatMap, count, data), lines[i]);
      assert kinds[i] == Classify(lines[i]);
      RunStep(kinds, i);
      if next.Err? {
        ErrorSticky(kinds, i + 1, |lines|);
        return Err(next.error);
      }
      inEvents, formatMap, count, data := next.value.inEvents, next.value.formatMap, next.value.count, next.value.data;
    }
    return Ok(data);
  }
}
