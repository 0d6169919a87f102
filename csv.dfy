/** The CSV encoder's pure parts: the value of one cell of the devices
    matrix, and the text `processDeviceCSV` produces for a device row.

    The devices segment is a matrix of 32-bit offsets into the strings
    segment, one row per device and one column per property. The output
    holds one line `name|value\n` per required property, in the order of the
    required-property list. */
module Csv {
  import opened Bytes
  import opened DataFile
  import opened PropertyFilter

  const Newline: byte := 10

  /** Every cell of the devices matrix is an offset inside the strings
      segment, and the strings segment ends with a NUL. */
  predicate ValuesWellFormed(ds: Dataset) {
    && Terminated(ds.strings)
    && forall k :: 0 <= k < |ds.devices| / 4 ==> Word(ds.devices, k) < |ds.strings|
  }

  /** `getValue`: the string named by cell `deviceOffset + propertyIndex` of
      the devices matrix. It is a whole C string of the strings segment: the
      bytes from the cell's offset up to the next NUL. */
  function Value(ds: Dataset, deviceOffset: nat, propertyIndex: nat): (value: seq<byte>)
    requires ValuesWellFormed(ds) && deviceOffset + propertyIndex < |ds.devices| / 4
    ensures NoNul(value)
    ensures var off := Word(ds.devices, deviceOffset + propertyIndex);
      off + |value| < |ds.strings| && ds.strings[off..off + |value|] == value && ds.strings[off + |value|] == Nul
  {
    CString(ds.strings, Word(ds.devices, deviceOffset + propertyIndex))
  }

  /** The line written for one property: its name, a pipe, its value and a
      newline. */
  function Line(name: seq<byte>, value: seq<byte>): seq<byte> {
    name + [Pipe] + value + [Newline]
  }

  /** The byte index of the first pipe in `line`, or `|line|` when there is
      none. */
  function FirstPipe(line: seq<byte>): (i: nat)
    ensures i <= |line|
    ensures i < |line| ==> line[i] == Pipe
    ensures forall j :: 0 <= j < i ==> line[j] != Pipe
  {
    if line == [] || line[0] == Pipe then 0 else 1 + FirstPipe(line[1..])
  }

  /** A line read back by a consumer: the name up to the first pipe, the
      value after it, without the final newline. */
  function SplitLine(line: seq<byte>): (nameAndValue: (seq<byte>, seq<byte>))
    requires |line| >= 2 && FirstPipe(line) < |line| - 1
  {
    var i := FirstPipe(line);
    (line[..i], line[i + 1..|line| - 1])
  }

  /** A name without a pipe can be read back from its line, with its value. */
  lemma SplitLineOfLine(name: seq<byte>, value: seq<byte>)
    requires forall j :: 0 <= j < |name| ==> name[j] != Pipe
    ensures |Line(name, value)| == |name| + |value| + 2
    ensures FirstPipe(Line(name, value)) == |name|
    ensures SplitLine(Line(name, value)) == (name, value)
  {
    var line := Line(name, value);
    var i := FirstPipe(line);
    assert line[|name|] == Pipe;
    forall j | 0 <= j < |name| ensures line[j] != Pipe {
      assert line[j] == name[j];
    }
    assert i == |name|;
    assert line[..i] == name;
    assert line[i + 1..|line| - 1] == value;
  }

  /** What the encoder needs of the required-property list: as many name
      offsets as indices, every name offset inside the strings segment, and
      every cell of the row at `deviceOffset` that it reads inside the
      devices matrix. */
  predicate Encodable(ds: Dataset, deviceOffset: nat, required: seq<nat>, names: seq<nat>) {
    && ValuesWellFormed(ds)
    && |names| == |required|
    && (forall k :: 0 <= k < |required| ==> deviceOffset + required[k] < |ds.devices| / 4)
    && (forall k :: 0 <= k < |names| ==> names[k] < |ds.strings|)
  }

  /** The line for entry `k` of the required-property list. */
  function LineAt(ds: Dataset, deviceOffset: nat, required: seq<nat>, names: seq<nat>, k: nat): (line: seq<byte>)
    requires Encodable(ds, deviceOffset, required, names) && k < |required|
    ensures |line| >= 2
  {
    Line(CString(ds.strings, names[k]), Value(ds, deviceOffset, required[k]))
  }

  /** The lines for the whole required-property list, in list order. */
  function Lines(ds: Dataset, deviceOffset: nat, required: seq<nat>, names: seq<nat>): seq<seq<byte>>
    requires Encodable(ds, deviceOffset, required, names)
  {
    seq(|required|, k requires 0 <= k < |required| => LineAt(ds, deviceOffset, required, names, k))
  }

  /** Lines written one after another. */
  function Concat(lines: seq<seq<byte>>): seq<byte> {
    if lines == [] then [] else Concat(lines[..|lines| - 1]) + lines[|lines| - 1]
  }

  /** The whole text `processDeviceCSV` produces for the row at
      `deviceOffset`: at least two bytes (a pipe and a newline) per required
      property, and nothing at all when none is required. */
  function CsvText(ds: Dataset, deviceOffset: nat, required: seq<nat>, names: seq<nat>): (text: seq<byte>)
    requires Encodable(ds, deviceOffset, required, names)
    ensures |text| >= 2 * |required|
    ensures required == [] ==> text == []
    ensures NoNul(text)
  {
    var lines := Lines(ds, deviceOffset, required, names);
    ConcatGrows(lines, 0, |lines|);
    forall k | 0 <= k < |lines| ensures NoNul(lines[k]) {
      LineNoNul(CString(ds.strings, names[k]), Value(ds, deviceOffset, required[k]));
    }
    ConcatNoNul(lines);
    assert lines[..0] == [] && lines[..|lines|] == lines;
    Concat(lines)
  }

  /** A line of a NUL-free name and a NUL-free value holds no NUL: the
      pipe and the newline are not NUL either. */
  lemma LineNoNul(name: seq<byte>, value: seq<byte>)
    requires NoNul(name) && NoNul(value)
    ensures NoNul(Line(name, value))
  {
    var line := Line(name, value);
    forall i | 0 <= i < |line| ensures line[i] != Nul {
      if i < |name| {
        assert line[i] == name[i];
      } else if |name| < i < |name| + 1 + |value| {
        assert line[i] == value[i - |name| - 1];
      }
    }
  }

  /** Lines that hold no NUL make a text that holds none, so the text is
      read back whole as one C string. */
  lemma {:induction false} ConcatNoNul(lines: seq<seq<byte>>)
    requires forall k :: 0 <= k < |lines| ==> NoNul(lines[k])
    ensures NoNul(Concat(lines))
    decreases |lines|
  {
    if lines != [] {
      var init, last := lines[..|lines| - 1], lines[|lines| - 1];
      ConcatNoNul(init);
      var text := Concat(lines);
      assert text == Concat(init) + last;
      forall i | 0 <= i < |text| ensures text[i] != Nul {
        if i < |Concat(init)| {
          assert text[i] == Concat(init)[i];
        } else {
          assert text[i] == last[i - |Concat(init)|];
        }
      }
    }
  }

  /** Writing one more line extends the text by that line. */
  lemma ConcatStep(lines: seq<seq<byte>>, k: nat)
    requires k < |lines|
    ensures Concat(lines[..k + 1]) == Concat(lines[..k]) + lines[k]
  {
    assert lines[..k + 1][..k] == lines[..k];
  }

  /** The first `j` lines are a prefix of the first `k`, and when every line
      has at least two bytes (a pipe and a newline) each line in between adds
      at least two bytes. */
  lemma {:induction false} ConcatGrows(lines: seq<seq<byte>>, j: nat, k: nat)
    requires j <= k <= |lines|
    requires forall i :: 0 <= i < |lines| ==> |lines[i]| >= 2
    ensures Concat(lines[..j]) <= Concat(lines[..k])
    ensures |Concat(lines[..k])| >= |Concat(lines[..j])| + 2 * (k - j)
    decreases k
  {
    if j < k {
      ConcatGrows(lines, j, k - 1);
      ConcatStep(lines, k - 1);
      PrefixExtends(Concat(lines[..j]), Concat(lines[..k - 1]), lines[k - 1]);
    }
  }

  /** Appending to a text keeps every prefix of it a prefix. */
  lemma PrefixExtends(a: seq<byte>, b: seq<byte>, c: seq<byte>)
    requires a <= b
    ensures a <= b + c && |b + c| == |b| + |c|
  {
    assert (b + c)[..|a|] == b[..|a|];
  }

  /** Every line of the text starts where the lines before it end: line `k`
      occupies the bytes from the end of the first `k` lines on. */
  lemma LinesInOrder(lines: seq<seq<byte>>, k: nat)
    requires k < |lines|
    requires forall i :: 0 <= i < |lines| ==> |lines[i]| >= 2
    ensures var before := |Concat(lines[..k])|;
      before + |lines[k]| <= |Concat(lines)| && Concat(lines)[before..before + |lines[k]|] == lines[k]
  {
    ConcatGrows(lines, k + 1, |lines|);
    ConcatStep(lines, k);
    assert lines[..|lines|] == lines;
    var before := Concat(lines[..k]);
    assert Concat(lines[..k + 1])[|before|..|before| + |lines[k]|] == lines[k];
  }

  /** The number of bytes of a `length`-byte text that fit in `space` bytes
      of buffer, one of which is kept for the NUL terminator. */
  function Fitted(space: nat, length: nat): (w: nat)
    requires space > 0
    ensures w < space && w <= length
    ensures w == length || w == space - 1
  {
    if length < space then length else space - 1
  }

  /** The observable effect of `snprintf(buffer + pos, buffer.Length - pos,
      "%s", line)`: as much of `line` as fits is written at `pos`, followed by
      a NUL, and the rest of the buffer is untouched; with no space at all
      nothing is written. The result is the length of `line`, whether it was
      written in full or not. */
  method WriteBounded(buffer: array<byte>, pos: nat, line: seq<byte>) returns (n: nat)
    requires pos <= buffer.Length
    modifies buffer
    ensures n == |line|
    ensures pos == buffer.Length ==> buffer[..] == old(buffer[..])
    ensures pos < buffer.Length ==>
      var w := Fitted(buffer.Length - pos, |line|);
      && buffer[..pos] == old(buffer[..pos])
      && buffer[pos..pos + w] == line[..w]
      && buffer[pos + w] == Nul
      && buffer[pos + w + 1..] == old(buffer[pos + w + 1..])
  {
    if pos < buffer.Length {
      var w := Fitted(buffer.Length - pos, |line|);
      forall i | pos <= i < pos + w {
        buffer[i] := line[i - pos];
      }
      buffer[pos + w] := Nul;
    }
    n := |line|;
  }

  /** One iteration of the loop of `processDeviceCSV`: the bounded write of
      `line` after the text written so far. When it fits, the text grows by
      the line and a NUL follows it, with the bytes after the NUL still those
      of `original`; when it does not, the buffer holds the text and as much
      of the line as fits before its last byte, which is a NUL. */
  method WriteLine(result: array<byte>, pos: nat, line: seq<byte>, ghost text: seq<byte>, ghost original: seq<byte>)
    returns (n: nat)
    requires pos == |text| && (pos < result.Length || pos == result.Length == 0)
    requires |original| == result.Length && result[..pos] == text
    requires pos < result.Length ==> result[pos + 1..] == original[pos + 1..]
    modifies result
    ensures n == |line|
    ensures pos + n < result.Length ==>
      && result[..pos + n] == text + line && result[pos + n] == Nul
      && result[pos + n + 1..] == original[pos + n + 1..]
    ensures pos + n >= result.Length ==>
      && result[..pos] == text
      && (result.Length > 0 ==>
            result[pos..result.Length - 1] == line[..result.Length - 1 - pos] && result[result.Length - 1] == Nul)
  {
    n := WriteBounded(result, pos, line);
    if pos + n < result.Length {
      Written(result[..], text, line, n);
      assert line[..n] == line;
    }
  }

  /** The loop of `processDeviceCSV`: the lines are written one after
      another, each by a bounded write into the space left, until one of
      them does not fit. The result is -1 exactly when the whole text needs
      `result.Length` bytes or more (no room for its NUL); otherwise it is
      the text's length and the buffer holds the text and a NUL. On -1 the
      buffer holds as much of the text as fits before its last byte, which
      is a NUL. With no lines, only the NUL is written. */
  method WriteCsv(lines: seq<seq<byte>>, result: array<byte>) returns (r: int)
    requires forall k :: 0 <= k < |lines| ==> |lines[k]| >= 2
    requires |lines| == 0 ==> result.Length > 0
    modifies result
    ensures r == -1 <==> |Concat(lines)| >= result.Length
    ensures r != -1 ==> r == |Concat(lines)| && result[..r] == Concat(lines) && result[r] == Nul
    ensures r != -1 ==> result[r + 1..] == old(result[r + 1..])
    ensures r == -1 && result.Length > 0 ==>
      result[..result.Length - 1] == Concat(lines)[..result.Length - 1] && result[result.Length - 1] == Nul
  {
    ghost var text := Concat(lines);
    assert text == Concat(lines[..|lines|]) by {
      assert lines[..|lines|] == lines;
    }
    if |lines| == 0 {
      result[0] := Nul;
      return 0;
    }
    var pos: nat := 0;
    var i: nat := 0;
    while i < |lines|
      invariant i <= |lines|
      invariant pos == |Concat(lines[..i])| && (pos < result.Length || pos == result.Length == 0)
      invariant result[..pos] == Concat(lines[..i])
      invariant i > 0 ==> result[pos] == Nul
      invariant pos < result.Length ==> result[pos + 1..] == old(result[pos + 1..])
    {
      ConcatStep(lines, i);
      var n := WriteLine(result, pos, lines[i], Concat(lines[..i]), old(result[..]));
      if pos + n >= result.Length {
        Overflow(lines, i, result[..]);
        return -1;
      }
      pos := pos + n;
      i := i + 1;
    }
    return pos;
  }

  /** When line `i` does not fit after the first `i` lines, the whole text
      does not fit either, and a buffer that holds the first `i` lines and
      then as much of line `i` as fits before its last byte holds the text
      cut before its last byte. */
  lemma Overflow(lines: seq<seq<byte>>, i: nat, buffer: seq<byte>)
    requires i < |lines| && forall k :: 0 <= k < |lines| ==> |lines[k]| >= 2
    requires var pos := |Concat(lines[..i])|;
      && (pos < |buffer| || pos == |buffer| == 0)
      && pos + |lines[i]| >= |buffer|
      && buffer[..pos] == Concat(lines[..i])
      && (|buffer| > 0 ==> buffer[pos..|buffer| - 1] == lines[i][..|buffer| - 1 - pos])
    ensures |Concat(lines)| >= |buffer|
    ensures |buffer| > 0 ==> buffer[..|buffer| - 1] == Concat(lines)[..|buffer| - 1]
  {
    var pos := |Concat(lines[..i])|;
    ConcatStep(lines, i);
    ConcatGrows(lines, i + 1, |lines|);
    assert lines[..|lines|] == lines;
    if |buffer| > 0 {
      Written(buffer, Concat(lines[..i]), lines[i], |buffer| - 1 - pos);
      Truncated(Concat(lines[..i + 1]), Concat(lines), |buffer| - 1);
    }
  }

  /** A buffer that holds `prefix` and then the first `w` bytes of `line`
      holds the first `|prefix| + w` bytes of `prefix + line`. */
  lemma Written(buffer: seq<byte>, prefix: seq<byte>, line: seq<byte>, w: nat)
    requires |prefix| + w <= |buffer| && w <= |line|
    requires buffer[..|prefix|] == prefix && buffer[|prefix|..|prefix| + w] == line[..w]
    ensures buffer[..|prefix| + w] == (prefix + line)[..|prefix| + w]
  {
    assert buffer[..|prefix| + w] == buffer[..|prefix|] + buffer[|prefix|..|prefix| + w];
  }

  /** A text cut before its `n`-th byte agrees with any longer text it is a
      prefix of, cut at the same place. */
  lemma Truncated(text: seq<byte>, longer: seq<byte>, n: nat)
    requires text <= longer && n <= |text|
    ensures text[..n] == longer[..n]
  {
  }
}
