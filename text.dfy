/**
 * The Python `str` operations the conversion core relies on, on `seq<char>`.
 * Character classes follow Python where it matters for the core: `IsSpace` is
 * `str.isspace()` (which is also what `\s` matches in a `str` pattern), while
 * `IsDigit` is narrowed to the ASCII digits and `Lower` to ASCII letters.
 */
module Text {

  /** `c.isspace()` in Python. */
  predicate IsSpace(c: char) {
    c == ' ' || '\t' <= c <= '\r' || '\U{1C}' <= c <= '\U{1F}'
    || c == '\U{85}' || c == '\U{A0}' || c == '\U{1680}' || '\U{2000}' <= c <= '\U{200A}'
    || c == '\U{2028}' || c == '\U{2029}' || c == '\U{202F}' || c == '\U{205F}' || c == '\U{3000}'
  }

  /** An ASCII decimal digit. */
  predicate IsDigit(c: char) {
    '0' <= c <= '9'
  }

  predicate IsDigits(s: string) {
    forall i :: 0 <= i < |s| ==> IsDigit(s[i])
  }

  /** The value of a string of ASCII digits, most significant first. */
  function DigitsValue(s: string): nat
    requires IsDigits(s)
  {
    if s == [] then 0 else 10 * DigitsValue(s[..|s| - 1]) + (s[|s| - 1] as int - '0' as int)
  }

  /** `str(n)` for a natural number. */
  function Show(n: nat): (r: string)
    ensures |r| >= 1 && IsDigits(r)
    ensures r[0] == '0' ==> n == 0
  {
    var d := ['0' + (n % 10) as char];
    if n < 10 then d else Show(n / 10) + d
  }

  /** `str(i)` for an integer. */
  function ShowInt(i: int): (r: string)
    ensures |r| >= 1
  {
    if i < 0 then "-" + Show(-i) else Show(i)
  }

  /** The characters `str.strip()` removes at the front. */
  function StripLeading(s: string): (r: string)
    ensures |r| <= |s| && r == s[|s| - |r|..]
    ensures forall i :: 0 <= i < |s| - |r| ==> IsSpace(s[i])
    ensures r == [] || !IsSpace(r[0])
  {
    if s != [] && IsSpace(s[0]) then StripLeading(s[1..]) else s
  }

  /** The characters `str.strip()` removes at the back. */
  function StripTrailing(s: string): (r: string)
    ensures |r| <= |s| && r == s[..|r|]
    ensures forall i :: |r| <= i < |s| ==> IsSpace(s[i])
    ensures r == [] || !IsSpace(r[|r| - 1])
  {
    if s != [] && IsSpace(s[|s| - 1]) then StripTrailing(s[..|s| - 1]) else s
  }

  /** `s.strip()`: the longest infix that neither starts nor ends with white space. */
  function Strip(s: string): (r: string)
  {
    StripTrailing(StripLeading(s))
  }

  /** `c.lower()` for ASCII letters; every other character is left alone. */
  function LowerChar(c: char): char {
    if 'A' <= c <= 'Z' then (c as int + 32) as char else c
  }

  /** `s.lower()`, ASCII letters only. */
  function Lower(s: string): (r: string)
    ensures |r| == |s|
  {
    seq(|s|, i requires 0 <= i < |s| => LowerChar(s[i]))
  }

  /** A lower-cased character that is not a letter was that character already. */
  lemma LowerKeeps(s: string, k: nat, c: char)
    requires k < |s| && Lower(s)[k] == c && !('a' <= c <= 'z')
    ensures s[k] == c
  {
  }

  /** Every character of `s.strip()` occurs in `s`. */
  lemma StripKeeps(s: string, c: char)
    requires c in Strip(s)
    ensures c in s
  {
    var l := StripLeading(s);
    var r := Strip(s);
    var i :| 0 <= i < |r| && r[i] == c;
    assert r[i] == l[i];
    assert l[i] == s[|s| - |l| + i];
  }

  predicate StartsWith(s: string, prefix: string) {
    |prefix| <= |s| && s[..|prefix|] == prefix
  }

  predicate EndsWith(s: string, suffix: string) {
    |suffix| <= |s| && s[|s| - |suffix|..] == suffix
  }

  /** The first position of `c` in `s` at or after `i`, or -1. */
  function FindFrom(s: string, c: char, i: nat): (j: int)
    requires i <= |s|
    ensures j == -1 || (i <= j < |s| && s[j] == c)
    decreases |s| - i
  {
    if i == |s| then -1
    else if s[i] == c then i
    else FindFrom(s, c, i + 1)
  }

  /** The position found holds `c` and is the first one; -1 means there is none. */
  lemma {:induction false} FindFromFirst(s: string, c: char, i: nat)
    requires i <= |s|
    ensures FindFrom(s, c, i) == -1 ==> forall k :: i <= k < |s| ==> s[k] != c
    ensures FindFrom(s, c, i) >= 0 ==>
      s[FindFrom(s, c, i)] == c && forall k :: i <= k < FindFrom(s, c, i) ==> s[k] != c
    decreases |s| - i
  {
    if i < |s| && s[i] != c {
      FindFromFirst(s, c, i + 1);
    }
  }

  /** `s.find(c)`: the first position of `c` in `s`, or -1. */
  function Find(s: string, c: char): (i: int)
    ensures -1 <= i < |s|
    ensures i == -1 <==> c !in s
    ensures 0 <= i ==> s[i] == c && c !in s[..i]
  {
    FindFromFirst(s, c, 0);
    FindFrom(s, c, 0)
  }

  /** A prefix one longer is the prefix and the next element. */
  lemma TakeSnoc<T>(s: seq<T>, i: nat)
    requires i < |s|
    ensures s[..i + 1] == s[..i] + [s[i]]
  {
  }

  /** `sep.join(parts)` for a one-character separator. */
  function Join(parts: seq<string>, sep: char): string
  {
    if parts == [] then ""
    else if |parts| == 1 then parts[0]
    else parts[0] + [sep] + Join(parts[1..], sep)
  }

  /** No character of a joined piece is lost: each occurs in the joined string. */
  lemma {:induction false} JoinContains(parts: seq<string>, sep: char, k: nat, x: char)
    requires k < |parts| && x in parts[k]
    ensures x in Join(parts, sep)
  {
    if k > 0 {
      JoinContains(parts[1..], sep, k - 1, x);
    }
  }

  /** Joining pieces that lack a character and a separator other than it yields a string without it. */
  lemma {:induction false} JoinAvoids(parts: seq<string>, sep: char, x: char)
    requires sep != x
    requires forall k :: 0 <= k < |parts| ==> x !in parts[k]
    ensures x !in Join(parts, sep)
  {
    if |parts| > 1 {
      JoinAvoids(parts[1..], sep, x);
    }
  }

  /** Joining a first piece onto at least one more puts the separator between them. */
  lemma JoinCons(a: string, rest: seq<string>, sep: char)
    requires |rest| >= 1
    ensures Join([a] + rest, sep) == a + [sep] + Join(rest, sep)
  {
    assert ([a] + rest)[1..] == rest;
  }

  /** The first separator of `a + [sep] + b` is the one after `a` when `a` has none. */
  lemma FindAfter(a: string, sep: char, b: string)
    requires sep !in a
    ensures Find(a + [sep] + b, sep) == |a|
  {
    var s := a + [sep] + b;
    var i := Find(s, sep);
    assert forall j :: 0 <= j < |a| ==> s[j] == a[j];
    assert s[|a|] == sep;
  }

  /** A separator-free piece, the separator, and the rest are told apart by the separator. */
  lemma CutAtSep(a: string, b: string, x: string, y: string, sep: char)
    requires sep !in a && sep !in x
    requires a + [sep] + b == x + [sep] + y
    ensures a == x && b == y
  {
    var s := a + [sep] + b;
    FindAfter(a, sep, b);
    FindAfter(x, sep, y);
    assert a == s[..|a|] && x == s[..|x|];
    assert b == s[|a| + 1..] && y == s[|x| + 1..];
  }

  /** The pieces `s.split(sep, n)` may return: at most `n` cuts, each at a separator. */
  predicate SplitShape(r: seq<string>, sep: char, n: nat) {
    1 <= |r| <= n + 1
    && (forall k :: 0 <= k < |r| - 1 ==> sep !in r[k])
    && (|r| < n + 1 ==> sep !in r[|r| - 1])
  }

  /** Two or more pieces put a separator into the join. */
  lemma JoinHasSep(parts: seq<string>, sep: char)
    requires |parts| >= 1
    ensures |parts| >= 2 ==> sep in Join(parts, sep)
    ensures |parts| == 1 ==> Join(parts, sep) == parts[0]
  {
    if |parts| >= 2 {
      assert Join(parts, sep)[|parts[0]|] == sep;
    }
  }

  /** Pieces of that shape are determined by their join. */
  lemma {:induction false} JoinDeterminesSplit(r1: seq<string>, r2: seq<string>, sep: char, n: nat)
    requires SplitShape(r1, sep, n) && SplitShape(r2, sep, n)
    requires Join(r1, sep) == Join(r2, sep)
    ensures r1 == r2
    decreases n
  {
    if |r1| == 1 || |r2| == 1 {
      JoinHasSep(r1, sep);
      JoinHasSep(r2, sep);
    } else {
      CutAtSep(r1[0], Join(r1[1..], sep), r2[0], Join(r2[1..], sep), sep);
      JoinDeterminesSplit(r1[1..], r2[1..], sep, n - 1);
      assert r1 == [r1[0]] + r1[1..] && r2 == [r2[0]] + r2[1..];
    }
  }

  /** A separator-free first piece in front of pieces of the shape for one cut fewer. */
  lemma ConsShape(a: string, rest: seq<string>, sep: char, n: nat)
    requires n > 0 && sep !in a && SplitShape(rest, sep, n - 1)
    ensures SplitShape([a] + rest, sep, n)
  {
    var r := [a] + rest;
    assert forall k :: 1 <= k < |r| ==> r[k] == rest[k - 1];
  }

  /** `s[i..]` around the separator at `j`. */
  lemma CutSlice(s: string, i: nat, j: nat, sep: char)
    requires i <= j < |s| && s[j] == sep
    ensures s[i..] == s[i..j] + [sep] + s[j + 1..]
  {
  }

  /** The pieces of `s[i..]` cut at no more than `n` separators, the earliest first. */
  function SplitNFrom(s: string, sep: char, n: nat, i: nat): (r: seq<string>)
    requires i <= |s|
    ensures 1 <= |r| <= n + 1
    decreases |s| - i
  {
    var j := FindFrom(s, sep, i);
    if n == 0 || j < 0 then [s[i..]]
    else [s[i..j]] + SplitNFrom(s, sep, n - 1, j + 1)
  }

  /** Every cut of those pieces is at a separator, and the last piece has none unless the cuts ran out. */
  lemma {:induction false} SplitNFromShape(s: string, sep: char, n: nat, i: nat)
    requires i <= |s|
    ensures SplitShape(SplitNFrom(s, sep, n, i), sep, n)
    decreases |s| - i
  {
    var j := FindFrom(s, sep, i);
    FindFromFirst(s, sep, i);
    if n == 0 || j < 0 {
      if j < 0 {
        assert forall k :: 0 <= k < |s[i..]| ==> s[i..][k] == s[i + k];
      }
    } else {
      SplitNFromShape(s, sep, n - 1, j + 1);
      assert forall k :: i <= k < j ==> s[k] == s[i..j][k - i];
      ConsShape(s[i..j], SplitNFrom(s, sep, n - 1, j + 1), sep, n);
    }
  }

  /** Those pieces join back to `s[i..]`. */
  lemma {:induction false} SplitNFromJoin(s: string, sep: char, n: nat, i: nat)
    requires i <= |s|
    ensures Join(SplitNFrom(s, sep, n, i), sep) == s[i..]
    decreases |s| - i
  {
    var j := FindFrom(s, sep, i);
    if n > 0 && j >= 0 {
      SplitNFromJoin(s, sep, n - 1, j + 1);
      SplitNFromJoinStep(s, sep, n, i, j);
    }
  }

  /** One cut: the first piece, the separator, and the join of the pieces after it. */
  lemma SplitNFromJoinStep(s: string, sep: char, n: nat, i: nat, j: nat)
    requires i <= j < |s| && n > 0 && FindFrom(s, sep, i) == j
    requires Join(SplitNFrom(s, sep, n - 1, j + 1), sep) == s[j + 1..]
    ensures Join(SplitNFrom(s, sep, n, i), sep) == s[i..]
  {
    var rest := SplitNFrom(s, sep, n - 1, j + 1);
    assert SplitNFrom(s, sep, n, i) == [s[i..j]] + rest;
    JoinCons(s[i..j], rest, sep);
    CutSlice(s, i, j, sep);
  }

  /**
   * `s.split(sep, n)`: at most `n` splits, at the first `n` occurrences of `sep`.
   * The contract characterises the result completely (see JoinDeterminesSplit):
   * joining the pieces gives `s` back, and every cut is at the earliest
   * occurrence left.
   */
  function SplitN(s: string, sep: char, n: nat): (r: seq<string>)
    ensures SplitShape(r, sep, n)
    ensures Join(r, sep) == s
  {
    SplitNFromShape(s, sep, n, 0);
    SplitNFromJoin(s, sep, n, 0);
    SplitNFrom(s, sep, n, 0)
  }

  /** `s.split(sep, 1)` of a string holding `sep`: the part before the first `sep` and the rest. */
  lemma SplitOnceHalves(s: string, sep: char)
    requires sep in s
    ensures |SplitN(s, sep, 1)| == 2
    ensures SplitN(s, sep, 1)[0] + [sep] + SplitN(s, sep, 1)[1] == s
  {
    var r := SplitN(s, sep, 1);
    JoinHasSep(r, sep);
    if |r| == 2 {
      JoinPair(r, sep);
    }
  }

  /** `s.split(sep)`: split at every occurrence of `sep`, which is never more than `|s|` times. */
  function Split(s: string, sep: char): (r: seq<string>)
    ensures |r| >= 1
    ensures Join(r, sep) == s
    ensures forall k :: 0 <= k < |r| ==> sep !in r[k]
  {
    var r := SplitN(s, sep, |s|);
    JoinLength(r, sep);
    r
  }

  /** A join is at least as long as its separators and its last piece. */
  lemma {:induction false} JoinLength(parts: seq<string>, sep: char)
    requires |parts| >= 1
    ensures |Join(parts, sep)| >= |parts| - 1 + |parts[|parts| - 1]|
  {
    if |parts| > 1 {
      JoinLength(parts[1..], sep);
    }
  }

  /** Splitting a string at a separator it does not contain gives the string alone. */
  lemma SplitNone(s: string, sep: char)
    requires sep !in s
    ensures Split(s, sep) == [s]
  {
    JoinDeterminesSplit(Split(s, sep), [s], sep, |s|);
  }

  /** Splitting where the first separator follows `a`. */
  lemma SplitCons(a: string, sep: char, b: string)
    requires sep !in a
    ensures Split(a + [sep] + b, sep) == [a] + Split(b, sep)
  {
    var s := a + [sep] + b;
    var r := [a] + Split(b, sep);
    JoinCons(a, Split(b, sep), sep);
    JoinLength(r, sep);
    assert forall k :: 1 <= k < |r| ==> r[k] == Split(b, sep)[k - 1];
    JoinDeterminesSplit(Split(s, sep), r, sep, |s|);
  }

  /** One bounded split where the first separator follows `a`. */
  lemma SplitNCons(a: string, sep: char, b: string, n: nat)
    requires sep !in a && n > 0
    ensures SplitN(a + [sep] + b, sep, n) == [a] + SplitN(b, sep, n - 1)
  {
    var s := a + [sep] + b;
    var rest := SplitN(b, sep, n - 1);
    var r := [a] + rest;
    JoinCons(a, rest, sep);
    assert forall k :: 1 <= k < |r| ==> r[k] == rest[k - 1];
    JoinDeterminesSplit(SplitN(s, sep, n), r, sep, n);
  }

  /** `s.split(sep, n)` on `n` separator-free fields, a separator and a tail keeps the tail whole. */
  lemma {:induction false} SplitNKeepsTail(fields: seq<string>, sep: char, tail: string)
    requires |fields| >= 1
    requires forall k :: 0 <= k < |fields| ==> sep !in fields[k]
    ensures SplitN(Join(fields, sep) + [sep] + tail, sep, |fields|) == fields + [tail]
  {
    var f0 := fields[0];
    if |fields| == 1 {
      SplitNCons(f0, sep, tail, 1);
    } else {
      var rest := Join(fields[1..], sep) + [sep] + tail;
      JoinFirst(fields, sep, tail);
      SplitNCons(f0, sep, rest, |fields|);
      SplitNKeepsTail(fields[1..], sep, tail);
      assert fields == [f0] + fields[1..];
    }
  }

  /** Two pieces joined. */
  lemma JoinPair(parts: seq<string>, sep: char)
    requires |parts| == 2
    ensures Join(parts, sep) == parts[0] + [sep] + parts[1]
  {
    assert parts[1..] == [parts[1]];
  }

  /** The first piece of a join of two or more, split off. */
  lemma JoinFirst(fields: seq<string>, sep: char, tail: string)
    requires |fields| >= 2
    ensures Join(fields, sep) + [sep] + tail == fields[0] + [sep] + (Join(fields[1..], sep) + [sep] + tail)
  {
  }

  /** `c * n` */
  function Repeat(c: char, n: nat): (r: string)
    ensures |r| == n && forall i :: 0 <= i < n ==> r[i] == c
  {
    if n == 0 then "" else [c] + Repeat(c, n - 1)
  }

  /**
   * `s.zfill(width)`: pad on the left with '0' up to `width`, keeping a leading
   * '+' or '-' in front of the padding.
   */
  function ZFill(s: string, width: nat): (r: string)
    ensures |r| == if |s| >= width then |s| else width
    ensures |s| >= width ==> r == s
    ensures |s| < width && IsDigits(s) ==> r == Repeat('0', width - |s|) + s
  {
    if |s| >= width then s
    else if s != [] && (s[0] == '+' || s[0] == '-') then [s[0]] + Repeat('0', width - |s|) + s[1..]
    else Repeat('0', width - |s|) + s
  }

  /** `s.ljust(width, c)`: pad on the right with `c` up to `width`. */
  function LJust(s: string, width: nat, c: char): (r: string)
    ensures |r| == if |s| >= width then |s| else width
    ensures r[..|s|] == s
    ensures forall i :: |s| <= i < |r| ==> r[i] == c
  {
    if |s| >= width then s else s + Repeat(c, width - |s|)
  }

  /**
   * `s.replace(x + y, rep)` for a two-character pattern and a one-character
   * replacement: occurrences are found left to right and do not overlap.
   */
  function ReplacePair(s: string, x: char, y: char, rep: char): (r: string)
    decreases |s|
  {
    if |s| >= 2 && s[0] == x && s[1] == y then [rep] + ReplacePair(s[2..], x, y, rep)
    else if s == [] then ""
    else [s[0]] + ReplacePair(s[1..], x, y, rep)
  }

  /** `a` directly followed by `b` somewhere in `s`. */
  predicate HasPair(s: string, a: char, b: char) {
    exists i :: 0 <= i < |s| - 1 && s[i] == a && s[i + 1] == b
  }

  /** A suffix of a string without the pair has none either. */
  lemma NoPairSuffix(s: string, a: char, b: char, k: nat)
    requires !HasPair(s, a, b) && k <= |s|
    ensures !HasPair(s[k..], a, b)
  {
    forall i | 0 <= i < |s[k..]| - 1 && s[k..][i] == a
      ensures s[k..][i + 1] != b
    {
      assert s[i + k] == a && s[k..][i + 1] == s[i + k + 1];
    }
  }

  /** A one-character head in front of a string without the pair. */
  lemma NoPairCons(c: char, t: string, a: char, b: char)
    requires !HasPair(t, a, b)
    requires c == a ==> t == [] || t[0] != b
    ensures !HasPair([c] + t, a, b)
  {
    var s := [c] + t;
    forall i | 0 <= i < |s| - 1 && s[i] == a
      ensures s[i + 1] != b
    {
      if i > 0 {
        assert s[i] == t[i - 1] && s[i + 1] == t[i];
      }
    }
  }

  /** The first character of a replacement result: the replacement, or the input's own. */
  lemma ReplacePairHead(s: string, x: char, y: char, rep: char)
    requires s != []
    ensures ReplacePair(s, x, y, rep) != []
    ensures ReplacePair(s, x, y, rep)[0] == if |s| >= 2 && s[0] == x && s[1] == y then rep else s[0]
  {
  }

  /** After `replace`, no occurrence of the pattern remains when the replacement is neither of its characters. */
  lemma {:induction false} ReplacePairRemoves(s: string, x: char, y: char, rep: char)
    requires rep != x && rep != y
    ensures !HasPair(ReplacePair(s, x, y, rep), x, y)
    decreases |s|
  {
    if |s| >= 2 && s[0] == x && s[1] == y {
      ReplacePairRemoves(s[2..], x, y, rep);
      NoPairCons(rep, ReplacePair(s[2..], x, y, rep), x, y);
    } else if s != [] {
      ReplacePairRemoves(s[1..], x, y, rep);
      if s[0] == x && |s| >= 2 {
        ReplacePairHead(s[1..], x, y, rep);
      }
      NoPairCons(s[0], ReplacePair(s[1..], x, y, rep), x, y);
    }
  }

  /** A replacement that is neither `a` nor `b` does not create `a` followed by `b`. */
  lemma {:induction false} ReplacePairKeepsAbsent(s: string, x: char, y: char, rep: char, a: char, b: char)
    requires !HasPair(s, a, b)
    requires rep != a && rep != b
    ensures !HasPair(ReplacePair(s, x, y, rep), a, b)
    decreases |s|
  {
    if |s| >= 2 && s[0] == x && s[1] == y {
      NoPairSuffix(s, a, b, 2);
      ReplacePairKeepsAbsent(s[2..], x, y, rep, a, b);
      NoPairCons(rep, ReplacePair(s[2..], x, y, rep), a, b);
    } else if s != [] {
      NoPairSuffix(s, a, b, 1);
      ReplacePairKeepsAbsent(s[1..], x, y, rep, a, b);
      if s[0] == a && |s| >= 2 {
        assert s[1] != b;
        ReplacePairHead(s[1..], x, y, rep);
      }
      NoPairCons(s[0], ReplacePair(s[1..], x, y, rep), a, b);
    }
  }

  /** A string without the pattern is left unchanged by `replace`. */
  lemma {:induction false} ReplacePairUnchanged(s: string, x: char, y: char, rep: char)
    requires !HasPair(s, x, y)
    ensures ReplacePair(s, x, y, rep) == s
    decreases |s|
  {
    if s != [] {
      assert !(|s| >= 2 && s[0] == x && s[1] == y);
      NoPairSuffix(s, x, y, 1);
      ReplacePairUnchanged(s[1..], x, y, rep);
      assert s == [s[0]] + s[1..];
    }
  }

  /**
   * Reading a file in text mode (universal newlines): "\r\n" and a lone
   * '\r' each arrive as one '\n'.
   */
  function UniversalNewlines(s: string): (r: string)
    ensures '\r' !in r
    decreases |s|
  {
    if s == [] then ""
    else if s[0] == '\r' then "\n" + UniversalNewlines(if |s| >= 2 && s[1] == '\n' then s[2..] else s[1..])
    else [s[0]] + UniversalNewlines(s[1..])
  }

  /** Text without '\r' is read back exactly as it was written. */
  lemma {:induction false} UniversalNewlinesUnchanged(s: string)
    requires '\r' !in s
    ensures UniversalNewlines(s) == s
    decreases |s|
  {
    if s != [] {
      UniversalNewlinesUnchanged(s[1..]);
      assert s == [s[0]] + s[1..];
    }
  }

  /** A lone '\r' inside a string is read back as a line break. */
  lemma {:induction false} CarriageReturnRead(a: string, b: string)
    requires '\r' !in a && '\r' !in b && (b == [] || b[0] != '\n')
    ensures UniversalNewlines(a + "\r" + b) == a + "\n" + b
    decreases |a|
  {
    var s := a + "\r" + b;
    if a == [] {
      assert s[0] == '\r' && s[1..] == b;
      UniversalNewlinesUnchanged(b);
    } else {
      assert s[0] == a[0] && a[0] != '\r';
      assert s[1..] == a[1..] + "\r" + b;
      assert UniversalNewlines(s) == [a[0]] + UniversalNewlines(s[1..]);
      CarriageReturnRead(a[1..], b);
      assert a + "\n" + b == [a[0]] + (a[1..] + "\n" + b);
    }
  }
}
