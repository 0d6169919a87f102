/** The matcher's process-wide state and its entry points: loading a data
    file, choosing the required properties, matching a user agent and
    writing a device's properties as CSV.

    The C library keeps this state in static globals that every call reads
    and that `readFile`, `init` and `destroy` overwrite in place; here they
    are the fields of one `Matcher` object. */
module Matcher {
  import opened Bytes
  import opened DataFile
  import opened Trie
  import opened PropertyFilter
  import opened Csv
  import opened Resolver

  /** The size of the output buffer the Python extension passes to
      `processDeviceCSV`. */
  const OutputBufferLength: nat := 50000

  /** A data file fit for matching: every property name, every value and
      every node reachable from the root lies inside its segment. */
  ghost predicate WellFormed(ds: Dataset) {
    NamesWellFormed(ds) && ValuesWellFormed(ds) && TreeWellFormed(ds)
  }

  function EmptyDataset(): Dataset {
    Dataset([], [], [], [], [], [])
  }

  class Matcher {
    var copyright: seq<byte>
    var strings: seq<byte>
    var properties: seq<byte>
    var propertiesCount: nat
    var devices: seq<byte>
    var lookupList: seq<byte>
    var rootNode: seq<byte>
    var requiredPropertiesCount: nat
    var requiredProperties: array<nat>
    /** The offset of each required property's name in the strings segment. */
    var requiredPropertiesNames: array<nat>

    /** The loaded segments. */
    function Data(): Dataset
      reads this
    {
      Dataset(copyright, strings, properties, devices, lookupList, rootNode)
    }

    /** The property count agrees with the properties segment, and both
        required-property arrays hold exactly `requiredPropertiesCount`
        entries. */
    ghost predicate Valid()
      reads this
    {
      && propertiesCount == PropertiesCount(Data())
      && requiredProperties.Length == requiredPropertiesCount
      && requiredPropertiesNames.Length == requiredPropertiesCount
    }

    /** Every required property is a property, and its name pointer points
        at that property's own name. */
    ghost predicate Resolved()
      reads this, requiredProperties, requiredPropertiesNames
    {
      && Valid()
      && forall k :: 0 <= k < requiredPropertiesCount ==>
           && requiredProperties[k] < propertiesCount
           && requiredPropertiesNames[k] == PropertyNameOffset(Data(), requiredProperties[k])
    }

    /** Nothing loaded and nothing required. */
    ghost predicate Empty()
      reads this
    {
      && Data() == EmptyDataset()
      && propertiesCount == 0
      && requiredPropertiesCount == 0
      && requiredProperties.Length == 0
      && requiredPropertiesNames.Length == 0
    }

    constructor ()
      ensures Empty() && Valid()
    {
      copyright, strings, properties, devices, lookupList, rootNode := [], [], [], [], [], [];
      propertiesCount := 0;
      requiredPropertiesCount := 0;
      requiredProperties := new nat[0];
      requiredPropertiesNames := new nat[0];
    }

    /** `readFile`: -1 when the file cannot be opened (`None`); otherwise 0
        when it loads, and then the segments are the file's, or 1 when it
        does not, and then nothing changes. The required properties are
        left as they were. */
    method ReadFile(file: Option<seq<byte>>) returns (failed: int)
      requires Valid()
      modifies this
      ensures Valid()
      ensures failed == -1 <==> file.None?
      ensures failed == 0 <==> file.Some? && ParseFile(file.value).Loaded?
      ensures failed == 1 <==> file.Some? && ParseFile(file.value).Failed?
      ensures failed == 0 ==> Data() == ParseFile(file.value).data
      ensures failed != 0 ==> Data() == old(Data())
      ensures requiredPropertiesCount == old(requiredPropertiesCount)
      ensures requiredProperties == old(requiredProperties)
      ensures requiredPropertiesNames == old(requiredPropertiesNames)
    {
      if file.None? {
        return -1;
      }
      var parsed := ParseFile(file.value);
      if parsed.Failed? {
        return 1;
      }
      Load(parsed.data);
      failed := 0;
    }

    /** The segment readers' stores into the globals: the segments become
        `ds`'s, and `propertiesCount` is set from the properties segment. */
    method Load(ds: Dataset)
      requires Valid()
      modifies this
      ensures Valid() && Data() == ds
      ensures requiredPropertiesCount == old(requiredPropertiesCount)
      ensures requiredProperties == old(requiredProperties)
      ensures requiredPropertiesNames == old(requiredPropertiesNames)
    {
      copyright, strings, properties, devices, lookupList, rootNode :=
        ds.copyright, ds.strings, ds.properties, ds.devices, ds.lookupList, ds.tree;
      propertiesCount := PropertiesCount(ds);
    }

    /** `initSpecificProperties`: the required properties become, in filter
        order, the prefix matches of the filter's tokens whose index is
        greater than 0, each with its own name. A first scan counts them; a
        second scan, over freshly allocated arrays of that size, stores
        them. */
    method InitSpecificProperties(filter: seq<byte>)
      requires Valid() && NamesWellFormed(Data()) && NoNul(filter)
      modifies this
      ensures Resolved()
      ensures Data() == old(Data())
      ensures requiredProperties[..] == Selected(Data(), Tokens(filter))
      ensures fresh(requiredProperties) && fresh(requiredPropertiesNames)
    {
      var count := CountSelected(Data(), filter);
      ScanSelectIsSelected(Data(), filter, 0, 0);
      assert filter[0..] == filter;
      var indices, nameOffsets := StoreSelected(Data(), filter, count);
      requiredPropertiesCount := count;
      requiredProperties := indices;
      requiredPropertiesNames := nameOffsets;
    }

    /** `initAllProperties`: every property is required, in index order,
        each with its own name. */
    method InitAllProperties()
      requires Valid()
      modifies this
      ensures Resolved()
      ensures Data() == old(Data())
      ensures requiredPropertiesCount == propertiesCount
      ensures forall i :: 0 <= i < requiredPropertiesCount ==> requiredProperties[i] == i
      ensures fresh(requiredProperties) && fresh(requiredPropertiesNames)
    {
      var indices := new nat[propertiesCount];
      var nameOffsets := new nat[propertiesCount];
      var i: nat := 0;
      while i < propertiesCount
        modifies indices, nameOffsets
        invariant i <= propertiesCount
        invariant forall k :: 0 <= k < i ==> indices[k] == k && nameOffsets[k] == PropertyNameOffset(Data(), k)
      {
        indices[i] := i;
        nameOffsets[i] := PropertyNameOffset(Data(), i);
        i := i + 1;
      }
      requiredPropertiesCount := propertiesCount;
      requiredProperties := indices;
      requiredPropertiesNames := nameOffsets;
    }

    /** `init`: -1 when the file does not load, and then nothing changes;
        otherwise 0, with every property required when there is no filter
        or it is empty, and the filter's selection otherwise. */
    method Init(file: Option<seq<byte>>, filter: Option<seq<byte>>) returns (r: int)
      requires Valid()
      requires filter.Some? ==> NoNul(filter.value)
      requires file.Some? && ParseFile(file.value).Loaded? && filter.Some? && filter.value != [] ==>
        NamesWellFormed(ParseFile(file.value).data)
      modifies this
      ensures Valid()
      ensures r == 0 || r == -1
      ensures r == -1 <==> file.None? || ParseFile(file.value).Failed?
      ensures r == -1 ==>
        && Data() == old(Data())
        && requiredPropertiesCount == old(requiredPropertiesCount)
        && requiredProperties == old(requiredProperties)
        && requiredPropertiesNames == old(requiredPropertiesNames)
      ensures r == 0 ==> Data() == ParseFile(file.value).data && Resolved()
      ensures r == 0 && (filter.None? || filter.value == []) ==>
        requiredPropertiesCount == propertiesCount &&
        forall i :: 0 <= i < requiredPropertiesCount ==> requiredProperties[i] == i
      ensures r == 0 && filter.Some? && filter.value != [] ==>
        requiredProperties[..] == Selected(Data(), Tokens(filter.value))
    {
      var failed := ReadFile(file);
      if failed != 0 {
        return -1;
      }
      if filter.None? || |filter.value| == 0 {
        InitAllProperties();
      } else {
        InitSpecificProperties(filter.value);
      }
      return 0;
    }

    /** `getDeviceOffset`: the offset in the devices matrix of the row of the
        device the user agent matches; the whole row lies inside the
        matrix. */
    function DeviceOffset(userAgent: seq<byte>): (offset: nat)
      reads this
      requires Valid() && TreeWellFormed(Data())
      ensures offset + propertiesCount <= |devices| / 4
      ensures offset == DeviceIndex(Data(), userAgent) * propertiesCount
    {
      DeviceIndex(Data(), userAgent) * propertiesCount
    }

    /** The text `processDeviceCSV` produces for the row at `deviceOffset`:
        one `name|value` line per required property, in order, so at least
        two bytes per required property, and nothing when none is
        required. */
    ghost function Output(deviceOffset: nat): (text: seq<byte>)
      reads this, requiredProperties, requiredPropertiesNames
      requires Resolved() && NamesWellFormed(Data()) && ValuesWellFormed(Data())
      requires deviceOffset + propertiesCount <= |devices| / 4
      ensures |text| >= 2 * requiredPropertiesCount
      ensures requiredPropertiesCount == 0 ==> text == []
      ensures NoNul(text)
    {
      EncodableRow(deviceOffset);
      CsvText(Data(), deviceOffset, requiredProperties[..], requiredPropertiesNames[..])
    }

    lemma EncodableRow(deviceOffset: nat)
      requires Resolved() && NamesWellFormed(Data()) && ValuesWellFormed(Data())
      requires deviceOffset + propertiesCount <= |devices| / 4
      ensures Encodable(Data(), deviceOffset, requiredProperties[..], requiredPropertiesNames[..])
    {
    }

    /** `processDeviceCSV`: writes the device's lines into `result`. The
        result is -1 exactly when the text needs `result.Length` bytes or
        more (no room for its NUL); otherwise it is the text's length, and
        the buffer holds the text and a NUL. On -1 the buffer holds as much
        of the text as fits before its last byte, which is a NUL. */
    method ProcessDeviceCSV(deviceOffset: nat, result: array<byte>) returns (r: int)
      requires Resolved() && NamesWellFormed(Data()) && ValuesWellFormed(Data())
      requires deviceOffset + propertiesCount <= |devices| / 4
      requires requiredPropertiesCount == 0 ==> result.Length > 0
      modifies result
      ensures r == -1 <==> |Output(deviceOffset)| >= result.Length
      ensures r != -1 ==> r == |Output(deviceOffset)| && result[..r] == Output(deviceOffset) && result[r] == Nul
      ensures r != -1 ==> result[r + 1..] == old(result[r + 1..])
      ensures r == -1 && result.Length > 0 ==>
        result[..result.Length - 1] == Output(deviceOffset)[..result.Length - 1] && result[result.Length - 1] == Nul
    {
      EncodableRow(deviceOffset);
      var lines := Lines(Data(), deviceOffset, requiredProperties[..], requiredPropertiesNames[..]);
      r := WriteCsv(lines, result);
    }

    /** `destroy`: back to the state before any file was loaded. */
    method Destroy()
      modifies this
      ensures Empty() && Valid()
    {
      copyright, strings, properties, devices, lookupList, rootNode := [], [], [], [], [], [];
      propertiesCount := 0;
      requiredPropertiesCount := 0;
      requiredProperties := new nat[0];
      requiredPropertiesNames := new nat[0];
    }

    /** The Python extension's `match`: match the user agent, write its
        device's properties into a fresh buffer of `OutputBufferLength`
        bytes and hand back the C string in it, or report an error when
        `processDeviceCSV` returns a negative value. */
    method Match(userAgent: seq<byte>) returns (output: Option<seq<byte>>)
      requires Resolved() && WellFormed(Data())
      ensures output.Some? <==> |Output(DeviceOffset(userAgent))| < OutputBufferLength
      ensures output.Some? ==> output.value == Output(DeviceOffset(userAgent)) && NoNul(output.value)
    {
      var buffer := new byte[OutputBufferLength];
      var offset := DeviceOffset(userAgent);
      var r := ProcessDeviceCSV(offset, buffer);
      if r < 0 {
        return None;
      }
      return Some(buffer[..r]);
    }
  }
}
