# 51Degrees trie matcher: a verified model

This project models the core of the 51Degrees.mobi trie device detector, `lib/51Degrees.mobi.c`. That file does four things:

- It loads a binary data file into six segments (copyright, strings, properties, devices, lookup lists, node tree).
- It turns a property filter such as `"BrowserName,ScreenWidth"` into a list of required properties.
- It walks a user agent down a byte-indexed trie to a device.
- It writes that device's required property values into a bounded buffer as `name|value\n` lines.

The model has seven modules:

- `Bytes` (`bytes.dfy`): the byte type, explicit little-endian decoding of 16- and 32-bit words, and NUL-terminated C strings inside a pool.
- `DataFile` (`data_file.dfy`): the loader, as a parser over the file's bytes. Its partner is a serializer, with a round-trip lemma.
- `Trie` (`trie.dfy`): the lookup decoder `getChildIndex` and the traversal functions `getNextNode`, `getChildDevice` and `getDeviceOffset`, with a well-formedness predicate under which every read stays inside its segment.
- `PropertyFilter` (`property_filter.dfy`): the token split of a filter, the prefix and exact name searches, and the selection of required properties, all as functions with lemmas.
- `Resolver` (`resolver.dfy`): the search loops (`getPropertyIndexRange`, `getPropertyIndex`) and the two scans of `initSpecificProperties`, as methods proved against the functions of `PropertyFilter`.
- `Csv` (`csv.dfy`): `getValue`, the text `processDeviceCSV` produces, and the loop that writes it into a bounded buffer.
- `Matcher` (`matcher.dfy`): the class `Matcher`, whose fields are the C file's static globals. Its methods are `readFile`, `init`, `initSpecificProperties`, `initAllProperties`, `processDeviceCSV` and `destroy`, plus the Python extension's `match` entry point.

Conventions used throughout:

- A data file is a `seq<byte>`, and an absent file is `None`.
- Integers are unbounded. Every 16- and 32-bit field is decoded explicitly, so its value is always below 2^16 or 2^32.
- Bytes are unsigned, 0 to 255.
- The user agent is its bytes. Reading past its end yields the NUL terminator, byte 0.

## Model

| member | source | states |
|---|---|---|
| Bytes.U16RoundTrip | lib/51Degrees.mobi.c:154-158 | a 16-bit value written little-endian reads back as itself, wherever it sits |
| Bytes.U32RoundTrip | lib/51Degrees.mobi.c:99-103 | a 32-bit length written little-endian reads back as itself, wherever it sits |
| Bytes.U32BytesAt | lib/51Degrees.mobi.c:99-103 | re-encoding a decoded 32-bit word gives back the four bytes it was read from |
| Bytes.CString | lib/51Degrees.mobi.c:335-337 | the C string at an offset of a NUL-terminated pool lies inside the pool, is followed by a NUL and holds no NUL |
| Bytes.CStringIs | lib/51Degrees.mobi.c:335-337 | a NUL-free run followed by a NUL is the C string that starts there |
| DataFile.ReadVersion | lib/51Degrees.mobi.c:154-158 | the version check fails unless the first two bytes encode 1, little-endian |
| DataFile.ReadSegment | lib/51Degrees.mobi.c:99-140 | a segment is read exactly when the stream holds a 4-byte length and that many bytes; the stream is then that segment's frame followed by the rest |
| DataFile.ReadSegments | lib/51Degrees.mobi.c:178-183 | n segments read in order; the stream is their frames in that order followed by the rest |
| DataFile.ParseFile | lib/51Degrees.mobi.c:162-189 | a loaded file starts with version 1; any other version fails as unsupported, before any segment is read |
| DataFile.ReadSegmentsOfFrames | lib/51Degrees.mobi.c:178-183 | reading framed segments gives back exactly those segments and whatever follows them |
| DataFile.LoadSerialized | lib/51Degrees.mobi.c:162-189 | loading the file written for a dataset gives that dataset back, with any trailing bytes ignored |
| DataFile.LoadedIsPrefix | lib/51Degrees.mobi.c:162-189 | a successful load has consumed exactly the serialized form of the dataset it returns |
| DataFile.TruncatedFramesFail | lib/51Degrees.mobi.c:99-140 | framed segments cut short anywhere do not read |
| DataFile.TruncatedFileFails | lib/51Degrees.mobi.c:162-189 | a data file cut short anywhere fails as a corrupt segment, never as a partial dataset |
| Trie.ChildIndex | lib/51Degrees.mobi.c:296-304 | a byte outside the record's `[lowest, highest]` gives the sentinel 255; a byte inside it gives the table entry at `value - lowest` |
| Trie.LookupRoundTrip | lib/51Degrees.mobi.c:296-304 | `getChildIndex` on a stored `{lowest, highest, table}` record maps a byte in range to its table entry and every other byte to 255 |
| Trie.NextNode | lib/51Degrees.mobi.c:307-310 | the next node's offset from the root is an unsigned 32-bit value |
| Trie.NextNodeStored | lib/51Degrees.mobi.c:307-310 | that offset is exactly the one stored little-endian in child slot `childIndex`, after the 7-byte header |
| Trie.ChildDevice | lib/51Degrees.mobi.c:313-327 | on a well-formed tree, the device reached from a node has a whole row in the devices matrix |
| Trie.DeviceIndex | lib/51Degrees.mobi.c:330-332 | the device matched from the root has a whole row in the devices matrix |
| Trie.SentinelFallsBack | lib/51Degrees.mobi.c:316-321 | the sentinel child index 255 always falls back to the node's own device |
| Trie.EndOfInputStops | lib/51Degrees.mobi.c:313-327 | at the end of the input, the NUL byte selects no child and the node's device is the match |
| Trie.Walk | lib/51Degrees.mobi.c:313-327 | the node reached by following a path of matched bytes is itself well formed |
| Trie.ValidNodeShallower | lib/51Degrees.mobi.c:313-327 | well-formedness to some depth implies it to every smaller depth |
| Trie.TraversalComposes | lib/51Degrees.mobi.c:307-327 | after a matched prefix reaches a node, the rest of the input matches from that node exactly as a whole input would; each step descends through the child offset stored after the header |
| Trie.WholeInputMatched | lib/51Degrees.mobi.c:313-332 | a user agent matched byte for byte down to a node resolves to that node's device |
| Trie.UnmatchedByteStops | lib/51Degrees.mobi.c:313-332 | once a byte selects no child, the match is the current node's device, whatever follows |
| Trie.CraftedWellFormed | lib/51Degrees.mobi.c:313-327 | a two-node tree satisfies the well-formedness predicate |
| Trie.CraftedMatches | lib/51Degrees.mobi.c:313-332 | on that tree, "apple" resolves to the child's device and "xyz" falls back to the root's |
| PropertyFilter.FirstSeparator | lib/51Degrees.mobi.c:214-223 | the scan stops at the first pipe or comma, or at the end, having passed no separator |
| PropertyFilter.Tokens | lib/51Degrees.mobi.c:214-223 | a filter has at least one token |
| PropertyFilter.TokensRejoin | lib/51Degrees.mobi.c:214-223 | splitting is lossless: one more token than separators, and the tokens rejoined with the separators give back the filter |
| PropertyFilter.TokensCons | lib/51Degrees.mobi.c:214-223 | a separator ends the token before it |
| PropertyFilter.TokensSeparatorFree | lib/51Degrees.mobi.c:214-223 | no token contains a separator |
| PropertyFilter.PropertyName | lib/51Degrees.mobi.c:192-203 | a property's name is a NUL-free C string of the strings segment |
| PropertyFilter.PrefixMatchFrom | lib/51Degrees.mobi.c:192-203 | the search from index i gives -1 or an index from i up to the property count |
| PropertyFilter.PrefixMatchFromFound | lib/51Degrees.mobi.c:192-203 | a found index's name begins with the token (`strncmp` over the token's length) |
| PropertyFilter.PrefixMatchFromReaches | lib/51Degrees.mobi.c:192-203 | the search stops at or before every later name that begins with the token, so it never skips a match |
| PropertyFilter.FirstPrefixMatch | lib/51Degrees.mobi.c:192-203 | `getPropertyIndexRange` gives -1 or a property index, and a found property's name begins with the token |
| PropertyFilter.FirstPrefixMatchAt | lib/51Degrees.mobi.c:192-203 | `getPropertyIndexRange` returns i when name i is the first name that begins with the token |
| PropertyFilter.NoPrefixMatch | lib/51Degrees.mobi.c:192-203 | `getPropertyIndexRange` returns -1 exactly when no name begins with the token |
| PropertyFilter.Selected | lib/51Degrees.mobi.c:229-245 | no more properties are selected than there are tokens |
| PropertyFilter.SelectedInRange | lib/51Degrees.mobi.c:236-237 | every selected index is a property other than property 0 |
| PropertyFilter.ExactNameSelected | lib/51Degrees.mobi.c:229-245 | a token that is exactly the name of a property i > 0, with no earlier name beginning with it, selects i |
| PropertyFilter.NextToken | lib/51Degrees.mobi.c:214-223 | a scan that reaches a separator or the end has just passed the next token |
| PropertyFilter.ScanSelect | lib/51Degrees.mobi.c:210-245 | the selection the byte-by-byte scans make; PropertyFilter.ScanSelectIsSelected proves it equal to the token split's selection |
| PropertyFilter.ScanStep | lib/51Degrees.mobi.c:214-223 | the token just passed is the next token, and its match is the next selection |
| PropertyFilter.ScanSelectIsSelected | lib/51Degrees.mobi.c:210-245 | the byte-by-byte scan selects exactly what the token split selects |
| PropertyFilter.ExactMatchFrom | lib/51Degrees.mobi.c:282-292 | the exact search gives the first index whose name equals the value, or -1 when none does |
| PropertyFilter.FirstExactMatch | lib/51Degrees.mobi.c:282-292 | `getPropertyIndex` gives -1 or the index of a property whose name equals the value, and no earlier name (no name at all, on -1) equals it |
| PropertyFilter.PrefixMatchNoLaterThanExact | lib/51Degrees.mobi.c:192-203 | the prefix search finds every name the exact search finds, at the same index or an earlier one |
| PropertyFilter.NamedWellFormed | lib/51Degrees.mobi.c:106-111 | a three-property dataset has three properties, with names at offsets 0, 3 and 15 |
| PropertyFilter.ThreeNamePool | lib/51Degrees.mobi.c:99-103 | three NUL-terminated names laid end to end are the C strings at their offsets |
| PropertyFilter.NamedHasScenarioNames | lib/51Degrees.mobi.c:99-111 | that dataset's properties are "Id", "BrowserName" and "ScreenWidth" |
| PropertyFilter.TwoTokens | lib/51Degrees.mobi.c:214-223 | two separator-free names joined by a comma are two tokens |
| PropertyFilter.ThreeTokens | lib/51Degrees.mobi.c:214-223 | three separator-free names joined by commas are three tokens |
| PropertyFilter.BrowserNameMatch | lib/51Degrees.mobi.c:192-203 | in such a dataset, "BrowserName" matches property 1 |
| PropertyFilter.ScreenWidthMatch | lib/51Degrees.mobi.c:192-203 | in such a dataset, "ScreenWidth" matches property 2 |
| PropertyFilter.UnknownTokenMatchesNothing | lib/51Degrees.mobi.c:192-203 | in such a dataset, "UnknownToken" matches nothing (-1) |
| PropertyFilter.MiddleTokenDropped | lib/51Degrees.mobi.c:229-245 | of three tokens, a middle one that matches nothing is dropped, and the other two keep their order |
| PropertyFilter.UnknownTokenDropped | lib/51Degrees.mobi.c:206-246 | the filter "BrowserName,UnknownToken,ScreenWidth" selects [1, 2] |
| Resolver.GetPropertyIndexRange | lib/51Degrees.mobi.c:192-203 | for a NUL-free token (a C string), the early-return loop returns the first index whose name begins with it, or -1 |
| Resolver.GetPropertyIndex | lib/51Degrees.mobi.c:282-292 | for a NUL-free value (a C string), the early-return loop returns the first index whose name equals it, or -1; names before it differ |
| Resolver.CountSelected | lib/51Degrees.mobi.c:210-223 | the first scan counts exactly the selected properties of the filter's tokens |
| Resolver.StoreSelected | lib/51Degrees.mobi.c:225-245 | the second scan fills arrays of the counted size with the selected properties, in token order, each with the offset of its own name |
| Resolver.StoreRequired | lib/51Degrees.mobi.c:237-241 | storing one required property appends it, with its own name offset, and keeps the entries before and after it in both arrays |
| Resolver.StoreToken | lib/51Degrees.mobi.c:234-242 | one token of the second scan stores its match as the next entry when the match is greater than 0, and nothing otherwise: every entry from the next free one on is left as it was |
| Matcher.Matcher.constructor | lib/51Degrees.mobi.c:51-96 | the globals start empty |
| Matcher.Matcher.ReadFile | lib/51Degrees.mobi.c:162-189 | -1 exactly when the file cannot be opened; 0 exactly when it loads, and the segments are then the file's; otherwise 1, and nothing changes |
| Matcher.Matcher.Load | lib/51Degrees.mobi.c:99-140 | the globals take the loaded segments, with the property count set from the properties segment |
| Matcher.Matcher.InitSpecificProperties | lib/51Degrees.mobi.c:206-246 | the required properties are the filter's selection in token order; each is a property with its own name; the segments do not change |
| Matcher.Matcher.InitAllProperties | lib/51Degrees.mobi.c:249-264 | every property is required, entry i being property i, with its own name |
| Matcher.Matcher.Init | lib/51Degrees.mobi.c:267-279 | only 0 or -1; -1 exactly when the file does not load, and then the segments and the required-property count and arrays are unchanged; otherwise 0, with all properties when the filter is absent or empty, and the filter's selection otherwise |
| Matcher.Matcher.DeviceOffset | lib/51Degrees.mobi.c:330-332 | the offset is the matched device's index times the property count, and its whole row lies inside the devices matrix |
| Matcher.Matcher.EncodableRow | lib/51Degrees.mobi.c:340-366 | every cell and name the encoder reads for a valid row lies inside its segment |
| Matcher.Matcher.Output | lib/51Degrees.mobi.c:340-366 | the text for the row of the current required properties has at least two bytes per required property, is empty when none is required, and holds no NUL |
| Matcher.Matcher.ProcessDeviceCSV | lib/51Degrees.mobi.c:340-366 | -1 exactly when the device's text needs the whole buffer or more; otherwise the text's length, with the buffer holding the text and a NUL and the bytes after it unchanged |
| Matcher.Matcher.Destroy | lib/51Degrees.mobi.c:143-150 | back to the empty state |
| Matcher.Matcher.Match | wrapper.c:46-66 | a result exactly when the device's text fits the 50000-byte buffer with its NUL; the result is then that text, which holds no NUL, so it is the whole C string `Py_BuildValue` reads |
| Csv.Value | lib/51Degrees.mobi.c:335-337 | a device's value for a property is the NUL-free C string at the offset in that cell of the devices matrix |
| Csv.SplitLineOfLine | lib/51Degrees.mobi.c:352-357 | a line of name, pipe, value and newline, whose name has no pipe, is read back as that name and value |
| Csv.LineAt | lib/51Degrees.mobi.c:352-357 | every line has at least two bytes (the pipe and the newline) |
| Csv.CsvText | lib/51Degrees.mobi.c:340-366 | the device's text has at least two bytes per required property, is empty when none is required, and holds no NUL |
| Csv.LineNoNul | lib/51Degrees.mobi.c:352-357 | a line of a NUL-free name and value holds no NUL |
| Csv.ConcatNoNul | lib/51Degrees.mobi.c:350-362 | lines without a NUL make a text without a NUL |
| Csv.ConcatStep | lib/51Degrees.mobi.c:350-362 | each written line extends the text by exactly that line |
| Csv.ConcatGrows | lib/51Degrees.mobi.c:350-362 | the text so far is a prefix of the text after more lines, and each line adds at least two bytes |
| Csv.LinesInOrder | lib/51Degrees.mobi.c:350-362 | line k sits in the text right after the lines before it |
| Csv.Fitted | lib/51Degrees.mobi.c:352-354 | a bounded write keeps one byte for the NUL and writes the whole line or fills the space |
| Csv.WriteBounded | lib/51Degrees.mobi.c:352-357 | `snprintf` writes as much of the line as fits, then a NUL, leaves the rest alone, and returns the line's full length |
| Csv.WriteCsv | lib/51Degrees.mobi.c:340-366 | -1 exactly when the text needs the whole buffer or more; otherwise the text's length, with the text and a NUL in the buffer and the bytes after it unchanged; on -1 the buffer holds the text cut before its last byte |
| Csv.Overflow | lib/51Degrees.mobi.c:359-361 | when one line overflows, so does the whole text, and the buffer holds the text cut before its last byte |
| Csv.WriteLine | lib/51Degrees.mobi.c:352-361 | one bounded write after the text so far: when the line fits, the text grows by it with a NUL after and the rest of the buffer untouched; otherwise the buffer holds the text and as much of the line as fits before a final NUL |

## Left out

- File I/O (`fopen`, `fread`, `fclose`) is not modelled. The file is its bytes (`Some`) or cannot be opened (`None`).
- Short reads are modelled as failure. The C ignores `fread`'s results, so a truncated file leaves segments partly uninitialised. Here a file too short for its version or any of its segments fails as a corrupt segment, and nothing changes.
- A file under two bytes fails as a corrupt segment. The C would compare an uninitialised version there.
- `malloc` and `free` are not modelled, and neither is the check that the tree allocation succeeded (lib/51Degrees.mobi.c:131, 184). Arrays are always allocated.
- Matcher.Matcher.Destroy: it resets every global to the empty state, where the C only frees memory and leaves dangling pointers and stale counts.
- The internals of `snprintf` and `sprintf` are not modelled; only their observable effect is (Csv.WriteBounded). The `lib/snprintf` sources are not part of this model.
- `char` signedness: bytes are unsigned. On a signed-char platform, user-agent bytes of 0x80 and above never fall inside a lookup record's range.
- Pointer arithmetic and integer widths: offsets are unbounded naturals. The C's `int` device offset and `unsigned int` word offsets are not wrapped.
- Traversal termination: `getChildDevice` has no end-of-string check. The tree well-formedness predicate demands that byte 0 (the terminator) selects no child at any reachable node. No fuel bound is used.
- Memory safety: the C checks no bounds. Trie.ChildDevice, PropertyFilter.PropertyName and Csv.Value therefore require well-formedness predicates: every offset lies inside its segment and the strings segment ends with a NUL. Matcher.Matcher.Init requires the loaded names to be well formed only when it takes the specific-filter path.
- Matcher.Matcher.ProcessDeviceCSV requires a buffer of at least one byte when no property is required, because the C then writes an empty string (one NUL) without checking the length.
- Name matching in `getPropertyIndexRange` is a prefix test, `strncmp` over the token's length, as the code does. A token such as "Browser" selects the first property whose name begins with it, not only an exact name.
- Property 0 can never be required through a filter, because the code keeps only matches greater than 0. The model keeps this behaviour, and an empty token, which matches property 0, is dropped.
- The Python extension's argument parsing, error objects and module set-up (wrapper.c) are not modelled. Only its 50000-byte output buffer and its negative-result check appear, in Matcher.Matcher.Match.
- There is no concurrency: the globals are fields of one `Matcher` object, updated in place.
- Matcher.Matcher.ProcessDeviceCSV: the lines are computed before the write loop instead of one value lookup per iteration. Value lookups read only the immutable segments, so the order is not observable.
