/**
 * `write_to_srt` (backend/writers.py): open the output file for writing and,
 * entry by entry, unpack `[index, start, end, text]` and write the block
 *     index \n start --> end \n text \n \n
 * An entry that does not unpack into exactly four values, or an output file
 * that cannot be opened, raises a WriteError naming the file; the blocks of
 * the entries before a bad one are already in the file by then.
 */
module SrtWriter {
  import opened Exceptions
  import opened Wrappers
  import opened Text

  /** A text file opened for writing; `text` is everything written so far. */
  class TextFile {
    var text: string

    constructor ()
      ensures text == []
    {
      text := [];
    }

    /** `open(path, 'w')`: the file starts out empty. */
    method Truncate()
      modifies this
      ensures text == []
    {
      text := [];
    }

    /** `f.write(s)` */
    method Write(s: string)
      modifies this
      ensures text == old(text) + s
    {
      text := text + s;
    }
  }

  /** The block written for one entry. */
  function SrtBlock(index: string, start: string, end: string, text: string): string {
    index + "\n" + start + " --> " + end + "\n" + text + "\n" + "\n"
  }

  /** The whole file written for `data`, every entry of which unpacks; empty exactly for no data. */
  function SrtText(data: seq<seq<string>>): (r: string)
    requires forall k :: 0 <= k < |data| ==> |data[k]| == 4
    ensures r == [] <==> data == []
  {
    if data == [] then ""
    else
      assert |data[0]| == 4;
      SrtBlock(data[0][0], data[0][1], data[0][2], data[0][3]) + SrtText(data[1..])
  }

  /** Writing one more entry appends its block. */
  lemma {:induction false} SrtTextSnoc(data: seq<seq<string>>, entry: seq<string>)
    requires forall k :: 0 <= k < |data| ==> |data[k]| == 4
    requires |entry| == 4
    ensures SrtText(data + [entry]) == SrtText(data) + SrtBlock(entry[0], entry[1], entry[2], entry[3])
  {
    if data == [] {
      assert data + [entry] == [entry];
      assert [entry][1..] == [];
    } else {
      assert (data + [entry])[1..] == data[1..] + [entry];
      SrtTextSnoc(data[1..], entry);
    }
  }

  /** The file for two lists written one after the other. */
  lemma {:induction false} SrtTextAppend(a: seq<seq<string>>, b: seq<seq<string>>)
    requires forall k :: 0 <= k < |a| ==> |a[k]| == 4
    requires forall k :: 0 <= k < |b| ==> |b[k]| == 4
    ensures SrtText(a + b) == SrtText(a) + SrtText(b)
  {
    if a == [] {
      assert a + b == b;
    } else {
      assert (a + b)[1..] == a[1..] + b;
      SrtTextAppend(a[1..], b);
    }
  }

  /** The four writes of one entry add exactly its block. */
  lemma BlockInFourWrites(before: string, index: string, start: string, end: string, text: string, after: string)
    requires after == before + (index + "\n") + (start + " --> " + end + "\n") + (text + "\n") + "\n"
    ensures after == before + SrtBlock(index, start, end, text)
  {
  }

  /** Index of the first entry that does not unpack, or `|data|`. */
  function FirstBadEntry(data: seq<seq<string>>): (k: nat)
    ensures k <= |data|
    ensures forall j :: 0 <= j < k ==> |data[j]| == 4
    ensures k < |data| ==> |data[k]| != 4
  {
    if data == [] then 0
    else if |data[0]| != 4 then 0
    else 1 + FirstBadEntry(data[1..])
  }

  /** The ValueError text of unpacking `n` values into four names. */
  function UnpackMessage(n: nat): string
    requires n != 4
  {
    if n < 4 then "not enough values to unpack (expected 4, got " + Show(n) + ")"
    else "too many values to unpack (expected 4)"
  }

  /** The WriteError raised for output `path` with reason `reason`. */
  function SrtWriteError(path: string, reason: string): Error {
    Error(WriteError, "写入 SRT 文件 '" + path + "' 时出错: " + reason)
  }

  /**
   * What `write_to_srt` returns or raises: the file cannot be opened, an
   * entry does not unpack, or every block is written.
   */
  function SrtWriteResult(path: string, data: seq<seq<string>>, openFailure: Option<string>): Result<()> {
    if openFailure.Some? then Err(SrtWriteError(path, openFailure.value))
    else
      var k := FirstBadEntry(data);
      if k == |data| then Ok(()) else Err(SrtWriteError(path, UnpackMessage(|data[k]|)))
  }

  /** When every entry has four fields and the file opens, all of them are written and nothing is raised. */
  lemma SrtWriteSucceeds(path: string, data: seq<seq<string>>)
    requires forall k :: 0 <= k < |data| ==> |data[k]| == 4
    ensures FirstBadEntry(data) == |data|
    ensures SrtWriteResult(path, data, None) == Ok(())
  {
  }

  /**
   * `write_to_srt(data, path)`; `openFailure` is the reason `open` fails, if
   * it does.  The file holds the blocks of the entries before the first one
   * that does not unpack, and all of them when every entry does.
   */
  method WriteToSrt(path: string, data: seq<seq<string>>, f: TextFile, openFailure: Option<string>)
    returns (r: Result<()>)
    modifies f
    ensures r == SrtWriteResult(path, data, openFailure)
    ensures openFailure.Some? ==> f.text == old(f.text)
    ensures openFailure.None? ==> f.text == SrtText(data[..FirstBadEntry(data)])
  {
    if openFailure.Some? {
      return Err(SrtWriteError(path, openFailure.value));
    }
    f.Truncate();
    for i := 0 to |data|
      invariant forall j :: 0 <= j < i ==> |data[j]| == 4
      invariant f.text == SrtText(data[..i])
    {
      var entry := data[i];
      if |entry| != 4 {
        assert FirstBadEntry(data) == i;
        return Err(SrtWriteError(path, UnpackMessage(|entry|)));
      }
      var index, startTime, endTime, text := entry[0], entry[1], entry[2], entry[3];
      ghost var before := f.text;
      f.Write(index + "\n");
      f.Write(startTime + " --> " + endTime + "\n");
      f.Write(text + "\n");
      f.Write("\n");
      BlockInFourWrites(before, index, startTime, endTime, text, f.text);
      SrtTextSnoc(data[..i], entry);
      TakeSnoc(data, i);
    }
    assert data[..|data|] == data;
    return Ok(());
  }
}
