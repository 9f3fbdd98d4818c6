/**
 * Timestamps: the SRT form `HH:MM:SS,mmm` and the conversion of an ASS time
 * `H:MM:SS.cc` into it (`_convert_ass_time_to_srt` in parsers.py).  The
 * conversion only splits and pads strings; it makes no numeric check.
 */
module TimeCodec {
  import opened Text

  /** Where an SRT timestamp has a digit ('d') and where a fixed separator. */
  const SrtTimeMask := "dd:dd:dd,ddd"

  /** A character in a position of the mask. */
  predicate FitsMask(c: char, m: char) {
    if m == 'd' then IsDigit(c) else c == m
  }

  /** `\d{2}:\d{2}:\d{2},\d{3}`, the SRT timestamp the SRT block pattern accepts. */
  predicate IsSrtTime(t: string) {
    |t| == |SrtTimeMask| && forall k :: 0 <= k < |t| ==> FitsMask(t[k], SrtTimeMask[k])
  }

  /** The instant an SRT timestamp denotes, in milliseconds. */
  function SrtMillis(t: string): nat
    requires IsSrtTime(t)
  {
    ((DigitsValue(t[0..2]) * 60 + DigitsValue(t[3..5])) * 60 + DigitsValue(t[6..8])) * 1000
    + DigitsValue(t[9..12])
  }

  /**
   * The codec succeeds exactly when the time splits on '.' into two parts and
   * the part before the '.' has at least three ':' components; otherwise
   * Python raises inside the `try` and the input is returned.
   */
  predicate Convertible(t: string) {
    |Split(t, '.')| == 2 && |Split(Split(t, '.')[0], ':')| >= 3
  }

  /** `f"{h}:{m}:{s},{ms}"` with the padding of parsers.py. */
  function Assemble(h: string, m: string, s: string, frac: string): string
  {
    ZFill(h, 2) + ":" + ZFill(m, 2) + ":" + ZFill(s, 2) + "," + LJust(frac, 3, '0')
  }

  /** `_convert_ass_time_to_srt`: never fails, falls back to its input. */
  function AssToSrt(t: string): string
  {
    var halves := Split(t, '.');
    if |halves| != 2 then t
    else
      var components := Split(halves[0], ':');
      if |components| < 3 then t
      else Assemble(components[0], components[1], components[2], halves[1])
  }

  /** Padding only adds '0' (and keeps the sign), so it adds no other character. */
  lemma PaddingAddsOnlyZeros(s: string, x: char)
    requires x != '0' && x !in s
    ensures x !in ZFill(s, 2) && x !in LJust(s, 3, '0')
  {
    if |s| < 2 {
      assert x !in Repeat('0', 2 - |s|);
    }
    if |s| < 3 {
      assert x !in Repeat('0', 3 - |s|);
    }
  }

  /** No '.' survives a successful conversion. */
  lemma ConvertedHasNoDot(t: string)
    requires Convertible(t)
    ensures '.' !in AssToSrt(t)
  {
    var halves := Split(t, '.');
    var components := Split(halves[0], ':');
    assert '.' !in halves[0] && '.' !in halves[1];
    forall k | 0 <= k < |components|
      ensures '.' !in components[k]
    {
      if '.' in components[k] {
        JoinContains(components, ':', k, '.');
      }
    }
    PaddingAddsOnlyZeros(components[0], '.');
    PaddingAddsOnlyZeros(components[1], '.');
    PaddingAddsOnlyZeros(components[2], '.');
    PaddingAddsOnlyZeros(halves[1], '.');
  }

  /**
   * The fallback is taken exactly on structural failure: the codec returns its
   * input unchanged if and only if the input is not convertible.
   */
  lemma AssToSrtUnchangedIff(t: string)
    ensures AssToSrt(t) == t <==> !Convertible(t)
  {
    if Convertible(t) {
      ConvertedHasNoDot(t);
      var halves := Split(t, '.');
      JoinPair(halves, '.');
      assert t[|halves[0]|] == '.';
    }
  }

  /** Splitting `hms + "." + f` on '.' when neither part has a '.'. */
  lemma SplitAtDot(hms: string, f: string)
    requires '.' !in hms && '.' !in f
    ensures Split(hms + "." + f, '.') == [hms, f]
  {
    assert hms + "." + f == hms + ['.'] + f;
    SplitCons(hms, '.', f);
    SplitNone(f, '.');
  }

  /** The first ':' component of `s + tail` is `s` when `tail` is empty or starts a new component. */
  lemma SplitHead(s: string, tail: string)
    requires ':' !in s
    requires tail == [] || tail[0] == ':'
    ensures Split(s + tail, ':')[0] == s
  {
    if tail == [] {
      assert s + tail == s;
      SplitNone(s, ':');
    } else {
      assert s + tail == s + [':'] + tail[1..];
      SplitCons(s, ':', tail[1..]);
    }
  }

  /** The first three ':' components of `h:m:s` followed by `rest`. */
  lemma SplitThree(h: string, m: string, s: string, rest: string)
    requires ':' !in h && ':' !in m && ':' !in s
    requires Split(s + rest, ':')[0] == s
    ensures var c := Split(h + [':'] + (m + [':'] + (s + rest)), ':');
      |c| >= 3 && c[0] == h && c[1] == m && c[2] == s
  {
    SplitCons(m, ':', s + rest);
    SplitCons(h, ':', m + [':'] + (s + rest));
  }

  lemma Regroup(h: string, m: string, s: string, tail: string)
    ensures h + ":" + m + ":" + s + tail == h + [':'] + (m + [':'] + (s + tail))
  {
  }

  /** The first three ':' components of `h:m:s` followed by `tail`. */
  lemma SplitComponents(h: string, m: string, s: string, tail: string)
    requires ':' !in h && ':' !in m && ':' !in s
    requires tail == [] || tail[0] == ':'
    ensures var c := Split(h + ":" + m + ":" + s + tail, ':');
      |c| >= 3 && c[0] == h && c[1] == m && c[2] == s
  {
    SplitHead(s, tail);
    SplitThree(h, m, s, tail);
    Regroup(h, m, s, tail);
  }

  /**
   * On success the result is built from the first three ':' components, each
   * `zfill(2)`'d, and the fractional part `ljust(3, '0')`'d; components after the
   * third are dropped (`tail` is empty or starts with ':').
   */
  lemma AssToSrtBuilds(t: string, h: string, m: string, s: string, tail: string, f: string)
    requires t == h + ":" + m + ":" + s + tail + "." + f
    requires ':' !in h && ':' !in m && ':' !in s
    requires '.' !in h && '.' !in m && '.' !in s && '.' !in tail && '.' !in f
    requires tail == [] || tail[0] == ':'
    ensures AssToSrt(t) == Assemble(h, m, s, f)
  {
    var hms := h + ":" + m + ":" + s + tail;
    assert '.' !in hms;
    assert t == hms + "." + f;
    SplitAtDot(hms, f);
    SplitComponents(h, m, s, tail);
  }

  lemma AssembleFirstExample()
    ensures Assemble("0", "00", "06", "40") == "00:00:06,400"
  {
    assert ZFill("0", 2) == "00" by {
      assert Repeat('0', 1) == "0";
    }
    assert LJust("40", 3, '0') == "400" by {
      assert Repeat('0', 1) == "0";
    }
  }

  lemma AssembleSecondExample()
    ensures Assemble("1", "02", "03", "05") == "01:02:03,050"
  {
    assert ZFill("1", 2) == "01" by {
      assert Repeat('0', 1) == "0";
    }
    assert LJust("05", 3, '0') == "050" by {
      assert Repeat('0', 1) == "0";
    }
  }

  /** The time codec's own example: "0:00:06.40" becomes "00:00:06,400". */
  lemma AssToSrtExample(t: string)
    requires t == "0:00:06.40"
    ensures AssToSrt(t) == "00:00:06,400"
  {
    AssToSrtBuilds(t, "0", "00", "06", "", "40");
    AssembleFirstExample();
  }

  /** A second well-formed time: "1:02:03.05" becomes "01:02:03,050". */
  lemma AssToSrtSecondExample(t: string)
    requires t == "1:02:03.05"
    ensures AssToSrt(t) == "01:02:03,050"
  {
    AssToSrtBuilds(t, "1", "02", "03", "", "05");
    AssembleSecondExample();
  }

  /** Text with no '.' is returned as it is: `"garbage"` stays `"garbage"`. */
  lemma AssToSrtWithoutDot(t: string)
    requires '.' !in t
    ensures AssToSrt(t) == t
  {
    SplitNone(t, '.');
  }

  /** Padding a one- or two-digit string to width 2 keeps its value. */
  lemma ZFillValue(h: string)
    requires 1 <= |h| <= 2 && IsDigits(h)
    ensures |ZFill(h, 2)| == 2 && IsDigits(ZFill(h, 2)) && DigitsValue(ZFill(h, 2)) == DigitsValue(h)
  {
    if |h| == 1 {
      var hh := ZFill(h, 2);
      assert Repeat('0', 1) == "0";
      assert hh == "0" + h;
      assert hh[..1] == "0";
    }
  }

  /** Padding two centisecond digits with '0' multiplies their value by ten. */
  lemma LJustValue(cs: string)
    requires |cs| == 2 && IsDigits(cs)
    ensures IsDigits(LJust(cs, 3, '0')) && DigitsValue(LJust(cs, 3, '0')) == 10 * DigitsValue(cs)
  {
    var ms := LJust(cs, 3, '0');
    assert ms[..2] == cs;
  }

  /** Four digit fields of the right widths, joined as SRT joins them, form an SRT time. */
  lemma SrtTimeShape(hh: string, mm: string, ss: string, ms: string)
    requires |hh| == 2 && |mm| == 2 && |ss| == 2 && |ms| == 3
    requires IsDigits(hh) && IsDigits(mm) && IsDigits(ss) && IsDigits(ms)
    ensures var r := hh + ":" + mm + ":" + ss + "," + ms;
      IsSrtTime(r) && r[0..2] == hh && r[3..5] == mm && r[6..8] == ss && r[9..12] == ms
  {
    var r := hh + ":" + mm + ":" + ss + "," + ms;
    assert r == hh + [':'] + mm + [':'] + ss + [','] + ms;
    assert r[0] == hh[0] && r[1] == hh[1] && r[3] == mm[0] && r[4] == mm[1];
    assert r[6] == ss[0] && r[7] == ss[1] && r[9] == ms[0] && r[10] == ms[1] && r[11] == ms[2];
  }

  /** The instant of an SRT time, from its fields. */
  lemma SrtMillisOf(r: string, hh: string, mm: string, ss: string, ms: string)
    requires IsSrtTime(r)
    requires r[0..2] == hh && r[3..5] == mm && r[6..8] == ss && r[9..12] == ms
    ensures SrtMillis(r)
         == ((DigitsValue(hh) * 60 + DigitsValue(mm)) * 60 + DigitsValue(ss)) * 1000 + DigitsValue(ms)
  {
  }

  /** An ASS time made of four digit fields converts field by field. */
  lemma AssToSrtOfFields(h: string, m: string, s: string, cs: string)
    requires IsDigits(h) && IsDigits(m) && IsDigits(s) && IsDigits(cs)
    ensures AssToSrt(h + ":" + m + ":" + s + "." + cs) == Assemble(h, m, s, cs)
  {
    NoSeparators(h);
    NoSeparators(m);
    NoSeparators(s);
    NoSeparators(cs);
    assert h + ":" + m + ":" + s + "." + cs == h + ":" + m + ":" + s + "" + "." + cs;
    AssToSrtBuilds(h + ":" + m + ":" + s + "." + cs, h, m, s, "", cs);
  }

  /** A digit string holds neither separator of an ASS time. */
  lemma NoSeparators(d: string)
    requires IsDigits(d)
    ensures ':' !in d && '.' !in d
  {
  }

  /** The instant an ASS time `h:mm:ss.cc` denotes, in milliseconds. */
  function AssMillis(h: string, m: string, s: string, cs: string): nat
    requires IsDigits(h) && IsDigits(m) && IsDigits(s) && IsDigits(cs)
  {
    (((DigitsValue(h) * 60 + DigitsValue(m)) * 60 + DigitsValue(s)) * 100 + DigitsValue(cs)) * 10
  }

  /** Assembling well-formed ASS fields gives an SRT time at the same instant. */
  lemma AssembleInstant(h: string, m: string, s: string, cs: string)
    requires 1 <= |h| <= 2 && |m| == 2 && |s| == 2 && |cs| == 2
    requires IsDigits(h) && IsDigits(m) && IsDigits(s) && IsDigits(cs)
    ensures IsSrtTime(Assemble(h, m, s, cs))
    ensures SrtMillis(Assemble(h, m, s, cs)) == AssMillis(h, m, s, cs)
  {
    ZFillValue(h);
    LJustValue(cs);
    assert ZFill(m, 2) == m && ZFill(s, 2) == s;
    var hh, ms := ZFill(h, 2), LJust(cs, 3, '0');
    SrtTimeShape(hh, m, s, ms);
    SrtMillisOf(hh + ":" + m + ":" + s + "," + ms, hh, m, s, ms);
  }

  /**
   * A well-formed ASS time (one or two hour digits, then two-digit minutes,
   * seconds and centiseconds) becomes a well-formed SRT time denoting the same
   * instant: the centiseconds, padded with a '0', read as ten times as many
   * milliseconds.
   */
  lemma AssToSrtKeepsInstant(t: string, h: string, m: string, s: string, cs: string)
    requires t == h + ":" + m + ":" + s + "." + cs
    requires 1 <= |h| <= 2 && |m| == 2 && |s| == 2 && |cs| == 2
    requires IsDigits(h) && IsDigits(m) && IsDigits(s) && IsDigits(cs)
    ensures IsSrtTime(AssToSrt(t))
    ensures SrtMillis(AssToSrt(t)) == AssMillis(h, m, s, cs)
  {
    AssToSrtOfFields(h, m, s, cs);
    AssembleInstant(h, m, s, cs);
  }
}
