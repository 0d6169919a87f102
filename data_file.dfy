/** The segment loader: the trie data file read as a byte sequence.

    Layout: a 16-bit format version that must be 1, then six segments in a
    fixed order (copyright, strings, properties, devices, lookup lists, node
    tree), each a 32-bit length followed by that many raw bytes. The file is
    consumed from the front, as the C code consumes its `FILE*` stream; bytes
    after the sixth segment are never read. */
module DataFile {
  import opened Bytes

  /** The six segments of a loaded data file. */
  datatype Dataset = Dataset(
    copyright: seq<byte>,
    strings: seq<byte>,
    properties: seq<byte>,
    devices: seq<byte>,
    lookupList: seq<byte>,
    tree: seq<byte>)

  datatype LoadError = UnsupportedVersion | CorruptSegment

  datatype LoadResult = Loaded(data: Dataset) | Failed(error: LoadError)

  /** One segment and the part of the stream that follows it. */
  datatype Segment = Segment(payload: seq<byte>, rest: seq<byte>)

  /** Several segments and the part of the stream that follows them. */
  datatype Segments = Segments(payloads: seq<seq<byte>>, rest: seq<byte>)

  const SupportedVersion: nat := 1
  const SegmentCount: nat := 6

  /** The number of properties: the properties segment is an array of 32-bit
      string offsets, so its length divided by four, rounded down. */
  function PropertiesCount(ds: Dataset): nat {
    |ds.properties| / 4
  }

  /** `readVersion`: true (failure) unless the 16-bit version is 1. */
  function ReadVersion(file: seq<byte>): (failed: bool)
    requires |file| >= 2
    ensures !failed <==> file[..2] == U16Bytes(SupportedVersion)
  {
    U16BytesAt(file, 0);
    U16RoundTrip(SupportedVersion, [], file[2..]);
    assert file == file[..2] + file[2..];
    U16At(file, 0) != SupportedVersion
  }

  /** A segment as it is stored: its 32-bit length, then its bytes. */
  function Frame(payload: seq<byte>): (f: seq<byte>)
    requires |payload| < 0x1_0000_0000
    ensures |f| == 4 + |payload|
  {
    U32Bytes(|payload|) + payload
  }

  predicate Storable(payloads: seq<seq<byte>>) {
    forall i :: 0 <= i < |payloads| ==> |payloads[i]| < 0x1_0000_0000
  }

  /** The segments `payloads` stored one after another. */
  function Frames(payloads: seq<seq<byte>>): seq<byte>
    requires Storable(payloads)
  {
    if payloads == [] then [] else Frame(payloads[0]) + Frames(payloads[1..])
  }

  /** The shared body of `readCopyright`, `readStrings`, `readProperties`,
      `readDevices`, `readLookupList` and `readNodes`: a 32-bit length, then
      that many bytes. A stream too short for either is a failure. */
  function ReadSegment(input: seq<byte>): (r: Option<Segment>)
    ensures r.Some? <==> 4 <= |input| && 4 + U32At(input, 0) <= |input|
    ensures r.Some? ==> |r.value.payload| < 0x1_0000_0000
    ensures r.Some? ==> input == Frame(r.value.payload) + r.value.rest
  {
    if |input| < 4 then None
    else
      var size := U32At(input, 0);
      if |input| < 4 + size then None
      else
        U32BytesAt(input, 0);
        assert input == input[..4] + input[4..4 + size] + input[4 + size..];
        Some(Segment(input[4..4 + size], input[4 + size..]))
  }

  /** `n` segments read one after another from the front of `input`. */
  function ReadSegments(input: seq<byte>, n: nat): (r: Option<Segments>)
    ensures r.Some? ==> |r.value.payloads| == n && Storable(r.value.payloads)
    ensures r.Some? ==> input == Frames(r.value.payloads) + r.value.rest
  {
    if n == 0 then Some(Segments([], input))
    else match ReadSegment(input)
      case None => None
      case Some(first) =>
        match ReadSegments(first.rest, n - 1)
        case None => None
        case Some(more) =>
          var payloads := [first.payload] + more.payloads;
          assert payloads[1..] == more.payloads;
          Some(Segments(payloads, more.rest))
  }

  /** The segments of a dataset in file order. */
  function SegmentsOf(ds: Dataset): (s: seq<seq<byte>>)
    ensures |s| == SegmentCount
  {
    [ds.copyright, ds.strings, ds.properties, ds.devices, ds.lookupList, ds.tree]
  }

  function FromSegments(s: seq<seq<byte>>): (ds: Dataset)
    requires |s| == SegmentCount
    ensures SegmentsOf(ds) == s
  {
    Dataset(s[0], s[1], s[2], s[3], s[4], s[5])
  }

  /** `readFile` after the file has been opened: the version gate, then the
      six segment readers in order. */
  function ParseFile(file: seq<byte>): (r: LoadResult)
    ensures r.Loaded? ==> |file| >= 2 && U16At(file, 0) == SupportedVersion
    ensures |file| >= 2 && U16At(file, 0) != SupportedVersion ==> r == Failed(UnsupportedVersion)
  {
    if |file| < 2 then Failed(CorruptSegment)
    else if ReadVersion(file) then Failed(UnsupportedVersion)
    else match ReadSegments(file[2..], SegmentCount)
      case None => Failed(CorruptSegment)
      case Some(segments) => Loaded(FromSegments(segments.payloads))
  }

  /** True when every segment's length fits the 32-bit length field. */
  predicate Serializable(ds: Dataset) {
    Storable(SegmentsOf(ds))
  }

  /** The data file that holds `ds`: the reference layout the loader reads. */
  function Serialize(ds: Dataset): seq<byte>
    requires Serializable(ds)
  {
    U16Bytes(SupportedVersion) + Frames(SegmentsOf(ds))
  }

  lemma {:induction false} ReadSegmentsOfFrames(payloads: seq<seq<byte>>, rest: seq<byte>)
    requires Storable(payloads)
    ensures ReadSegments(Frames(payloads) + rest, |payloads|) == Some(Segments(payloads, rest))
  {
    if payloads != [] {
      var p := payloads[0];
      var tail := Frames(payloads[1..]) + rest;
      assert Frames(payloads) + rest == U32Bytes(|p|) + (p + tail);
      U32RoundTrip(|p|, [], p + tail);
      assert (Frames(payloads) + rest)[4..4 + |p|] == p;
      assert (Frames(payloads) + rest)[4 + |p|..] == tail;
      assert ReadSegment(Frames(payloads) + rest) == Some(Segment(p, tail));
      ReadSegmentsOfFrames(payloads[1..], rest);
      assert ReadSegments(tail, |payloads| - 1) == Some(Segments(payloads[1..], rest));
      assert [p] + payloads[1..] == payloads;
    } else {
      assert Frames(payloads) + rest == rest;
    }
  }

  /** Loading the file written for a dataset gives that dataset back,
      whatever follows the last segment. */
  lemma LoadSerialized(ds: Dataset, trailing: seq<byte>)
    requires Serializable(ds)
    ensures ParseFile(Serialize(ds) + trailing) == Loaded(ds)
  {
    var file := Serialize(ds) + trailing;
    U16RoundTrip(SupportedVersion, [], Frames(SegmentsOf(ds)) + trailing);
    assert file[2..] == Frames(SegmentsOf(ds)) + trailing;
    ReadSegmentsOfFrames(SegmentsOf(ds), trailing);
  }

  /** A successful load consumed exactly the serialized form of the dataset
      it returns: the file begins with `Serialize(ds)`. */
  lemma LoadedIsPrefix(file: seq<byte>)
    requires ParseFile(file).Loaded?
    ensures Serializable(ParseFile(file).data)
    ensures Serialize(ParseFile(file).data) <= file
  {
    var segments := ReadSegments(file[2..], SegmentCount).value;
    var ds := ParseFile(file).data;
    assert SegmentsOf(ds) == segments.payloads;
    assert !ReadVersion(file);
    assert file == file[..2] + file[2..];
  }

  lemma {:induction false} TruncatedFramesFail(payloads: seq<seq<byte>>, k: nat)
    requires Storable(payloads) && k < |Frames(payloads)|
    ensures ReadSegments(Frames(payloads)[..k], |payloads|) == None
  {
    var p := payloads[0];
    var all := Frames(payloads);
    var cut := all[..k];
    assert all == Frame(p) + Frames(payloads[1..]);
    if k < 4 {
    } else if k < 4 + |p| {
      assert cut == U32Bytes(|p|) + cut[4..];
      U32RoundTrip(|p|, [], cut[4..]);
    } else {
      assert cut == Frame(p) + Frames(payloads[1..])[..k - 4 - |p|];
      var rest := Frames(payloads[1..])[..k - 4 - |p|];
      assert cut == U32Bytes(|p|) + (p + rest);
      U32RoundTrip(|p|, [], p + rest);
      assert cut[4..4 + |p|] == p;
      assert cut[4 + |p|..] == rest;
      assert ReadSegment(cut) == Some(Segment(p, rest));
      TruncatedFramesFail(payloads[1..], k - 4 - |p|);
    }
  }

  /** A file cut short anywhere before the end of its last segment fails to
      load, as a corrupt segment, never as a partial dataset. */
  lemma TruncatedFileFails(ds: Dataset, k: nat)
    requires Serializable(ds) && k < |Serialize(ds)|
    ensures ParseFile(Serialize(ds)[..k]) == Failed(CorruptSegment)
  {
    var file := Serialize(ds)[..k];
    if k >= 2 {
      assert file[..2] == U16Bytes(SupportedVersion);
      assert file[2..] == Frames(SegmentsOf(ds))[..k - 2];
      TruncatedFramesFail(SegmentsOf(ds), k - 2);
    }
  }
}
