/** The property resolver's pure parts: property names, the two name
    searches, and the split of a property filter into tokens.

    A property is identified by its index in the properties segment, whose
    32-bit words are offsets of NUL-terminated names in the strings segment.
    A filter is a C string of names separated by '|' or ','. */
module PropertyFilter {
  import opened Bytes
  import opened DataFile

  const Pipe: byte := 124
  const Comma: byte := 44

  predicate IsSeparator(c: byte) {
    c == Pipe || c == Comma
  }

  predicate NoSeparator(s: seq<byte>) {
    forall i :: 0 <= i < |s| ==> !IsSeparator(s[i])
  }

  /** The index of the first separator of `s`, or `|s|` when there is none. */
  function FirstSeparator(s: seq<byte>): (i: nat)
    ensures i <= |s| && NoSeparator(s[..i])
    ensures i < |s| ==> IsSeparator(s[i])
  {
    if s == [] || IsSeparator(s[0]) then 0
    else
      var i := 1 + FirstSeparator(s[1..]);
      assert s[..i] == [s[0]] + s[1..][..i - 1];
      i
  }

  /** The tokens of a filter: the runs of bytes between separators, the last
      one ending with the string. Empty tokens are kept. */
  function Tokens(s: seq<byte>): (tokens: seq<seq<byte>>)
    ensures |tokens| >= 1
    decreases |s|
  {
    var i := FirstSeparator(s);
    if i == |s| then [s] else [s[..i]] + Tokens(s[i + 1..])
  }

  /** The separator bytes of `s`, in order. */
  function Separators(s: seq<byte>): seq<byte> {
    if s == [] then []
    else (if IsSeparator(s[0]) then [s[0]] else []) + Separators(s[1..])
  }

  /** The tokens put back together, with `separators[k]` between token `k`
      and token `k + 1`. */
  function Rejoin(tokens: seq<seq<byte>>, separators: seq<byte>): seq<byte>
    requires |tokens| == |separators| + 1
  {
    if separators == [] then tokens[0]
    else tokens[0] + [separators[0]] + Rejoin(tokens[1..], separators[1..])
  }

  lemma {:induction false} SeparatorsAppend(a: seq<byte>, b: seq<byte>)
    ensures Separators(a + b) == Separators(a) + Separators(b)
  {
    if a != [] {
      assert (a + b)[1..] == a[1..] + b;
      SeparatorsAppend(a[1..], b);
    } else {
      assert a + b == b;
    }
  }

  lemma {:induction false} NoSeparatorHasNone(a: seq<byte>)
    requires NoSeparator(a)
    ensures Separators(a) == []
  {
    if a != [] {
      NoSeparatorHasNone(a[1..]);
    }
  }

  /** A separator after a separator-free run is the run's only separator. */
  lemma SeparatorsCons(a: seq<byte>, c: byte, rest: seq<byte>)
    requires NoSeparator(a) && IsSeparator(c)
    ensures Separators(a + [c] + rest) == [c] + Separators(rest)
  {
    SeparatorsAppend(a, [c] + rest);
    SeparatorsAppend([c], rest);
    NoSeparatorHasNone(a);
    assert a + [c] + rest == a + ([c] + rest);
    assert Separators([c]) == [c];
  }

  lemma RejoinCons(a: seq<byte>, tokens: seq<seq<byte>>, c: byte, separators: seq<byte>)
    requires |tokens| == |separators| + 1
    ensures Rejoin([a] + tokens, [c] + separators) == a + [c] + Rejoin(tokens, separators)
  {
    assert ([a] + tokens)[1..] == tokens;
    assert ([c] + separators)[1..] == separators;
  }

  /** Splitting is lossless: there is one more token than separators, and
      putting the tokens back between the separators gives the filter back. */
  lemma {:induction false} TokensRejoin(s: seq<byte>)
    ensures |Tokens(s)| == |Separators(s)| + 1
    ensures Rejoin(Tokens(s), Separators(s)) == s
    decreases |s|
  {
    var i := FirstSeparator(s);
    if i == |s| {
      assert s[..i] == s;
      NoSeparatorHasNone(s);
    } else {
      var a, c, rest := s[..i], s[i], s[i + 1..];
      assert s == a + [c] + rest;
      TokensCons(a, c, rest);
      SeparatorsCons(a, c, rest);
      TokensRejoin(rest);
      RejoinCons(a, Tokens(rest), c, Separators(rest));
    }
  }

  lemma FirstSeparatorAt(a: seq<byte>, c: byte, rest: seq<byte>)
    requires NoSeparator(a) && IsSeparator(c)
    ensures FirstSeparator(a + [c] + rest) == |a|
  {
    var s := a + [c] + rest;
    var i := FirstSeparator(s);
    assert forall j :: 0 <= j < |a| ==> s[j] == a[j];
    forall j | 0 <= j < i ensures !IsSeparator(s[j]) {
      assert s[..i][j] == s[j];
    }
    assert IsSeparator(s[|a|]);
  }

  /** A separator ends the token before it. */
  lemma TokensCons(a: seq<byte>, c: byte, rest: seq<byte>)
    requires NoSeparator(a) && IsSeparator(c)
    ensures Tokens(a + [c] + rest) == [a] + Tokens(rest)
  {
    var s := a + [c] + rest;
    FirstSeparatorAt(a, c, rest);
    assert s[..|a|] == a && s[|a| + 1..] == rest;
  }

  /** A filter without separators is a single token. */
  lemma TokensSingle(a: seq<byte>)
    requires NoSeparator(a)
    ensures Tokens(a) == [a]
  {
  }

  /** Every property name offset lies inside the strings segment, and the
      segment ends with a NUL, so every name is a terminated string. */
  predicate NamesWellFormed(ds: Dataset) {
    && Terminated(ds.strings)
    && forall i :: 0 <= i < PropertiesCount(ds) ==> Word(ds.properties, i) < |ds.strings|
  }

  /** The offset of property `i`'s name: `_properties[i]`. */
  function PropertyNameOffset(ds: Dataset, i: nat): nat
    requires i < PropertiesCount(ds)
  {
    Word(ds.properties, i)
  }

  /** The name of property `i`: the C string at its offset. */
  function PropertyName(ds: Dataset, i: nat): (name: seq<byte>)
    requires NamesWellFormed(ds) && i < PropertiesCount(ds)
    ensures NoNul(name)
  {
    CString(ds.strings, PropertyNameOffset(ds, i))
  }

  /** `strncmp(name, token, |token|) == 0` for a NUL-free `token`: the name
      begins with the token. */
  predicate StartsWith(name: seq<byte>, token: seq<byte>) {
    |token| <= |name| && name[..|token|] == token
  }

  /** The part of `getPropertyIndexRange` still to run from index `i`: the
      first index at or after `i` whose name begins with `token`, or -1.
      `strncmp(name, token, |token|) == 0` with a NUL-free token holds
      exactly when `token` is a prefix of `name`. */
  function PrefixMatchFrom(ds: Dataset, token: seq<byte>, i: nat): (index: int)
    requires NamesWellFormed(ds) && i <= PropertiesCount(ds)
    ensures index == -1 || i <= index < PropertiesCount(ds)
    decreases PropertiesCount(ds) - i
  {
    if i == PropertiesCount(ds) then -1
    else if StartsWith(PropertyName(ds, i), token) then i
    else PrefixMatchFrom(ds, token, i + 1)
  }

  /** A match found from `i` is a name that begins with `token`. */
  lemma {:induction false} PrefixMatchFromFound(ds: Dataset, token: seq<byte>, i: nat)
    requires NamesWellFormed(ds) && i <= PropertiesCount(ds)
    ensures var index := PrefixMatchFrom(ds, token, i);
      index >= 0 ==> StartsWith(PropertyName(ds, index), token)
    decreases PropertiesCount(ds) - i
  {
    if i < PropertiesCount(ds) && !StartsWith(PropertyName(ds, i), token) {
      PrefixMatchFromFound(ds, token, i + 1);
    }
  }

  /** The search from `i` stops at or before every name from `i` on that
      begins with `token`: it skips no match. */
  lemma {:induction false} PrefixMatchFromReaches(ds: Dataset, token: seq<byte>, i: nat, j: nat)
    requires NamesWellFormed(ds) && i <= j < PropertiesCount(ds)
    ensures StartsWith(PropertyName(ds, j), token) ==> i <= PrefixMatchFrom(ds, token, i) <= j
    decreases j - i
  {
    if i < j && !StartsWith(PropertyName(ds, i), token) {
      PrefixMatchFromReaches(ds, token, i + 1, j);
    }
  }

  /** `getPropertyIndexRange`: the first property whose name begins with
      `token`, or -1 when there is none. */
  function FirstPrefixMatch(ds: Dataset, token: seq<byte>): (index: int)
    requires NamesWellFormed(ds)
    ensures index == -1 || 0 <= index < PropertiesCount(ds)
    ensures index >= 0 ==> StartsWith(PropertyName(ds, index), token)
  {
    PrefixMatchFromFound(ds, token, 0);
    PrefixMatchFrom(ds, token, 0)
  }

  /** The search finds property `i` exactly when its name is the first one
      that begins with `token`. */
  lemma FirstPrefixMatchAt(ds: Dataset, token: seq<byte>, i: nat)
    requires NamesWellFormed(ds) && i < PropertiesCount(ds)
    requires StartsWith(PropertyName(ds, i), token)
    requires forall j :: 0 <= j < i ==> !StartsWith(PropertyName(ds, j), token)
    ensures FirstPrefixMatch(ds, token) == i
  {
    PrefixMatchFromReaches(ds, token, 0, i);
    PrefixMatchFromFound(ds, token, 0);
  }

  /** The search gives -1 exactly when no name begins with `token`. */
  lemma NoPrefixMatch(ds: Dataset, token: seq<byte>)
    requires NamesWellFormed(ds)
    ensures FirstPrefixMatch(ds, token) == -1 <==>
      forall j :: 0 <= j < PropertiesCount(ds) ==> !StartsWith(PropertyName(ds, j), token)
  {
    PrefixMatchFromFound(ds, token, 0);
    if FirstPrefixMatch(ds, token) == -1 {
      forall j | 0 <= j < PropertiesCount(ds) ensures !StartsWith(PropertyName(ds, j), token) {
        PrefixMatchFromReaches(ds, token, 0, j);
      }
    }
  }

  /** A match is kept when its index is greater than 0. */
  function Keep(index: int): seq<nat> {
    if index > 0 then [index as nat] else []
  }

  /** The properties a filter's tokens select, in token order: each token's
      first prefix match, kept only when its index is greater than 0. */
  function Selected(ds: Dataset, tokens: seq<seq<byte>>): (indices: seq<nat>)
    requires NamesWellFormed(ds)
    ensures |indices| <= |tokens|
  {
    if tokens == [] then []
    else
      Keep(FirstPrefixMatch(ds, tokens[0])) + Selected(ds, tokens[1..])
  }

  /** No token holds a separator. */
  lemma {:induction false} TokensSeparatorFree(s: seq<byte>)
    ensures forall k :: 0 <= k < |Tokens(s)| ==> NoSeparator(Tokens(s)[k])
    decreases |s|
  {
    var i := FirstSeparator(s);
    if i < |s| {
      TokensSeparatorFree(s[i + 1..]);
      assert Tokens(s)[1..] == Tokens(s[i + 1..]);
    }
  }

  /** Every selected index is a property other than property 0. */
  lemma {:induction false} SelectedInRange(ds: Dataset, tokens: seq<seq<byte>>)
    requires NamesWellFormed(ds)
    ensures forall k :: 0 <= k < |Selected(ds, tokens)| ==> 0 < Selected(ds, tokens)[k] < PropertiesCount(ds)
  {
    if tokens != [] {
      SelectedInRange(ds, tokens[1..]);
    }
  }

  /** A token that is exactly the name of property `i > 0`, when no earlier
      name begins with it, selects `i`. */
  lemma ExactNameSelected(ds: Dataset, i: nat)
    requires NamesWellFormed(ds) && 0 < i < PropertiesCount(ds)
    requires forall j :: 0 <= j < i ==> !StartsWith(PropertyName(ds, j), PropertyName(ds, i))
    ensures Selected(ds, [PropertyName(ds, i)]) == [i]
  {
    assert StartsWith(PropertyName(ds, i), PropertyName(ds, i));
    FirstPrefixMatchAt(ds, PropertyName(ds, i), i);
    assert [PropertyName(ds, i)][1..] == [];
  }

  /** Selection takes the tokens one at a time, front to back. */
  lemma SelectedCons(ds: Dataset, token: seq<byte>, rest: seq<seq<byte>>)
    requires NamesWellFormed(ds)
    ensures Selected(ds, [token] + rest) == Keep(FirstPrefixMatch(ds, token)) + Selected(ds, rest)
  {
    assert ([token] + rest)[1..] == rest;
  }

  /** A scan of the filter from `start` that has passed no separator up to
      `end`, and finds a separator or the end of the filter there, has just
      passed the next token. */
  lemma NextToken(s: seq<byte>, start: nat, end: nat)
    requires start <= end <= |s| && NoSeparator(s[start..end])
    requires end < |s| ==> IsSeparator(s[end])
    ensures end < |s| ==> Tokens(s[start..]) == [s[start..end]] + Tokens(s[end + 1..])
    ensures end == |s| ==> Tokens(s[start..]) == [s[start..end]]
  {
    if end < |s| {
      assert s[start..] == s[start..end] + [s[end]] + s[end + 1..];
      TokensCons(s[start..end], s[end], s[end + 1..]);
    } else {
      assert s[start..end] == s[start..];
      TokensSingle(s[start..]);
    }
  }

  /** The selection a scan of `s` makes from position `end` on, when the
      token it is in began at `start`: at a separator or at the end of `s`
      the token `s[start..end]` is looked up and kept when its match is
      greater than 0. */
  function ScanSelect(ds: Dataset, s: seq<byte>, start: nat, end: nat): (selected: seq<nat>)
    requires NamesWellFormed(ds) && start <= end <= |s|
    decreases |s| - end
  {
    var step := Keep(FirstPrefixMatch(ds, s[start..end]));
    if end == |s| then step
    else if IsSeparator(s[end]) then step + ScanSelect(ds, s, end + 1, end + 1)
    else ScanSelect(ds, s, start, end + 1)
  }

  /** A scan that has selected `emitted` so far, on reaching a separator or
      the end of the filter, adds the match of the token just passed. */
  lemma ScanAtSeparator(ds: Dataset, s: seq<byte>, start: nat, end: nat, emitted: seq<nat>, selected: seq<nat>)
    requires NamesWellFormed(ds) && start <= end <= |s|
    requires end < |s| ==> IsSeparator(s[end])
    requires selected == emitted + ScanSelect(ds, s, start, end)
    ensures var emitted' := emitted + Keep(FirstPrefixMatch(ds, s[start..end]));
      && (end < |s| ==> selected == emitted' + ScanSelect(ds, s, end + 1, end + 1))
      && (end == |s| ==> selected == emitted')
  {
    var step := Keep(FirstPrefixMatch(ds, s[start..end]));
    if end < |s| {
      assert ScanSelect(ds, s, start, end) == step + ScanSelect(ds, s, end + 1, end + 1);
      assert emitted + (step + ScanSelect(ds, s, end + 1, end + 1))
          == (emitted + step) + ScanSelect(ds, s, end + 1, end + 1);
    }
  }

  /** A scan that reaches any other byte selects nothing yet. */
  lemma ScanInsideToken(ds: Dataset, s: seq<byte>, start: nat, end: nat, emitted: seq<nat>, selected: seq<nat>)
    requires NamesWellFormed(ds) && start <= end < |s| && !IsSeparator(s[end])
    requires selected == emitted + ScanSelect(ds, s, start, end)
    ensures selected == emitted + ScanSelect(ds, s, start, end + 1)
  {
  }

  /** At a separator or at the end of the filter, the token just passed is
      the next token, and its match is the next selection. */
  lemma ScanStep(ds: Dataset, s: seq<byte>, start: nat, end: nat)
    requires NamesWellFormed(ds)
    requires start <= end <= |s| && forall j :: start <= j < end ==> !IsSeparator(s[j])
    requires end < |s| ==> IsSeparator(s[end])
    ensures var step := Keep(FirstPrefixMatch(ds, s[start..end]));
      && (end < |s| ==> Selected(ds, Tokens(s[start..])) == step + Selected(ds, Tokens(s[end + 1..])))
      && (end == |s| ==> Selected(ds, Tokens(s[start..])) == step)
  {
    assert NoSeparator(s[start..end]) by {
      forall j | 0 <= j < end - start ensures !IsSeparator(s[start..end][j]) {
        assert s[start..end][j] == s[start + j];
      }
    }
    NextToken(s, start, end);
    if end < |s| {
      SelectedCons(ds, s[start..end], Tokens(s[end + 1..]));
    } else {
      SelectedCons(ds, s[start..end], []);
      assert [s[start..end]] + [] == [s[start..end]];
    }
  }

  /** The scan selects what the token split selects: scanning from inside a
      token that began at `start` selects the same properties as the tokens
      of `s[start..]`. */
  lemma {:induction false} ScanSelectIsSelected(ds: Dataset, s: seq<byte>, start: nat, end: nat)
    requires NamesWellFormed(ds)
    requires start <= end <= |s| && forall j :: start <= j < end ==> !IsSeparator(s[j])
    ensures ScanSelect(ds, s, start, end) == Selected(ds, Tokens(s[start..]))
    decreases |s| - end
  {
    var step := Keep(FirstPrefixMatch(ds, s[start..end]));
    if end == |s| {
      ScanStep(ds, s, start, end);
    } else if IsSeparator(s[end]) {
      ScanStep(ds, s, start, end);
      ScanSelectIsSelected(ds, s, end + 1, end + 1);
      assert ScanSelect(ds, s, start, end) == step + ScanSelect(ds, s, end + 1, end + 1);
    } else {
      ScanSelectIsSelected(ds, s, start, end + 1);
    }
  }

  /** The part of `getPropertyIndex` still to run from index `i`: the first
      index at or after `i` whose name is exactly `value`, or -1. */
  function ExactMatchFrom(ds: Dataset, value: seq<byte>, i: nat): (index: int)
    requires NamesWellFormed(ds) && i <= PropertiesCount(ds)
    ensures index == -1 || i <= index < PropertiesCount(ds)
    ensures index >= 0 ==> PropertyName(ds, index) == value
    ensures forall j :: i <= j < (if index >= 0 then index else PropertiesCount(ds)) ==>
              PropertyName(ds, j) != value
    decreases PropertiesCount(ds) - i
  {
    if i == PropertiesCount(ds) then -1
    else if PropertyName(ds, i) == value then i
    else ExactMatchFrom(ds, value, i + 1)
  }

  /** `getPropertyIndex`: the first property whose name is exactly `value`,
      or -1 when there is none. */
  function FirstExactMatch(ds: Dataset, value: seq<byte>): (index: int)
    requires NamesWellFormed(ds)
    ensures index == -1 || 0 <= index < PropertiesCount(ds)
    ensures index >= 0 ==> PropertyName(ds, index) == value
    ensures forall j :: 0 <= j < (if index >= 0 then index else PropertiesCount(ds)) ==>
              PropertyName(ds, j) != value
  {
    ExactMatchFrom(ds, value, 0)
  }

  /** The filter's prefix search finds every name the exact search finds, at
      the same index or an earlier one: a name that is exactly `value` also
      begins with `value`. */
  lemma PrefixMatchNoLaterThanExact(ds: Dataset, value: seq<byte>)
    requires NamesWellFormed(ds) && FirstExactMatch(ds, value) >= 0
    ensures 0 <= FirstPrefixMatch(ds, value) <= FirstExactMatch(ds, value)
  {
    var i := FirstExactMatch(ds, value);
    assert StartsWith(PropertyName(ds, i), value);
    PrefixMatchFromReaches(ds, value, 0, i);
  }

  // "BrowserName", "UnknownToken" and "ScreenWidth" as bytes.
  const BrowserName: seq<byte> := [66, 114, 111, 119, 115, 101, 114, 78, 97, 109, 101]
  const UnknownToken: seq<byte> := [85, 110, 107, 110, 111, 119, 110, 84, 111, 107, 101, 110]
  const ScreenWidth: seq<byte> := [83, 99, 114, 101, 101, 110, 87, 105, 100, 116, 104]

  /** Three properties: "Id" (index 0), "BrowserName" (1), "ScreenWidth" (2). */
  function Named(): Dataset {
    Dataset(
      copyright := [],
      strings := [73, 100] + [0] + BrowserName + [0] + ScreenWidth + [0],
      properties := [0, 0, 0, 0, 3, 0, 0, 0, 15, 0, 0, 0],
      devices := [],
      lookupList := [],
      tree := [])
  }

  lemma NamedWellFormed()
    ensures NamesWellFormed(Named()) && PropertiesCount(Named()) == 3
    ensures PropertyNameOffset(Named(), 0) == 0
    ensures PropertyNameOffset(Named(), 1) == 3
    ensures PropertyNameOffset(Named(), 2) == 15
  {
    var ds := Named();
    assert Word(ds.properties, 0) == 0 && Word(ds.properties, 1) == 3 && Word(ds.properties, 2) == 15;
  }

  /** A dataset whose properties are "Id", "BrowserName" and
      "ScreenWidth", in that order. */
  predicate HasScenarioNames(ds: Dataset) {
    && NamesWellFormed(ds) && PropertiesCount(ds) == 3
    && PropertyName(ds, 0) == [73, 100]
    && PropertyName(ds, 1) == BrowserName
    && PropertyName(ds, 2) == ScreenWidth
  }

  /** Three NUL-free names, each followed by a NUL, are the C strings at
      offsets 0, `|a| + 1` and `|a| + |b| + 2` of the pool they make up. */
  lemma ThreeNamePool(a: seq<byte>, b: seq<byte>, c: seq<byte>)
    requires NoNul(a) && NoNul(b) && NoNul(c)
    ensures var pool := a + [0] + b + [0] + c + [0];
      && Terminated(pool)
      && CString(pool, 0) == a
      && CString(pool, |a| + 1) == b
      && CString(pool, |a| + |b| + 2) == c
  {
    var pool := a + [0] + b + [0] + c + [0];
    assert pool[..|a|] == a && pool[|a|] == 0;
    CStringIs(pool, 0, a);
    assert pool[|a| + 1..|a| + 1 + |b|] == b && pool[|a| + 1 + |b|] == 0;
    CStringIs(pool, |a| + 1, b);
    assert pool[|a| + |b| + 2..|a| + |b| + 2 + |c|] == c && pool[|a| + |b| + 2 + |c|] == 0;
    CStringIs(pool, |a| + |b| + 2, c);
  }

  /** `Named()` is such a dataset. */
  lemma NamedHasScenarioNames()
    ensures HasScenarioNames(Named())
  {
    NamedWellFormed();
    ThreeNamePool([73, 100], BrowserName, ScreenWidth);
  }

  /** Two separator-free names joined by a comma are two tokens. */
  lemma TwoTokens(b: seq<byte>, c: seq<byte>)
    requires NoSeparator(b) && NoSeparator(c)
    ensures Tokens(b + [Comma] + c) == [b, c]
  {
    TokensSingle(c);
    TokensCons(b, Comma, c);
  }

  /** Three separator-free names joined by commas are three tokens. */
  lemma ThreeTokens(a: seq<byte>, b: seq<byte>, c: seq<byte>)
    requires NoSeparator(a) && NoSeparator(b) && NoSeparator(c)
    ensures Tokens(a + [Comma] + b + [Comma] + c) == [a, b, c]
  {
    CommaJoinRegroup(a, b, c);
    TwoTokens(b, c);
    TokensCons(a, Comma, b + [Comma] + c);
    assert [a] + [b, c] == [a, b, c];
  }

  /** Three names joined by commas, regrouped so the first comma splits off
      the first name. */
  lemma CommaJoinRegroup(a: seq<byte>, b: seq<byte>, c: seq<byte>)
    ensures a + [Comma] + b + [Comma] + c == a + [Comma] + (b + [Comma] + c)
  {
  }

  lemma BrowserNameMatch(ds: Dataset)
    requires HasScenarioNames(ds)
    ensures FirstPrefixMatch(ds, BrowserName) == 1
  {
    assert StartsWith(BrowserName, BrowserName);
    FirstPrefixMatchAt(ds, BrowserName, 1);
  }

  lemma ScreenWidthMatch(ds: Dataset)
    requires HasScenarioNames(ds)
    ensures FirstPrefixMatch(ds, ScreenWidth) == 2
  {
    assert BrowserName[..|ScreenWidth|][0] != ScreenWidth[0];
    assert StartsWith(ScreenWidth, ScreenWidth);
    FirstPrefixMatchAt(ds, ScreenWidth, 2);
  }

  /** No name of the scenario is as long as "UnknownToken", so none begins
      with it. */
  lemma UnknownTokenMatchesNothing(ds: Dataset)
    requires HasScenarioNames(ds)
    ensures FirstPrefixMatch(ds, UnknownToken) == -1
  {
    assert |UnknownToken| == 12 && |BrowserName| == 11 && |ScreenWidth| == 11;
    assert PrefixMatchFrom(ds, UnknownToken, 3) == -1;
    assert !StartsWith(PropertyName(ds, 2), UnknownToken);
    assert PrefixMatchFrom(ds, UnknownToken, 2) == -1;
    assert !StartsWith(PropertyName(ds, 1), UnknownToken);
    assert PrefixMatchFrom(ds, UnknownToken, 1) == -1;
    assert !StartsWith(PropertyName(ds, 0), UnknownToken);
  }

  /** Of a filter of three comma-separated tokens, a middle token that
      matches no property is dropped and the other two keep their order. */
  lemma MiddleTokenDropped(ds: Dataset, a: seq<byte>, b: seq<byte>, c: seq<byte>)
    requires NamesWellFormed(ds)
    requires NoSeparator(a) && NoSeparator(b) && NoSeparator(c)
    requires FirstPrefixMatch(ds, a) > 0 && FirstPrefixMatch(ds, b) == -1 && FirstPrefixMatch(ds, c) > 0
    ensures Selected(ds, Tokens(a + [Comma] + b + [Comma] + c))
         == [FirstPrefixMatch(ds, a) as nat, FirstPrefixMatch(ds, c) as nat]
  {
    ThreeTokens(a, b, c);
    var i, k := FirstPrefixMatch(ds, a) as nat, FirstPrefixMatch(ds, c) as nat;
    assert [c][1..] == [];
    assert Selected(ds, [c]) == [k];
    assert [b, c][1..] == [c];
    assert Selected(ds, [b, c]) == [k];
    assert [a, b, c][1..] == [b, c];
    assert Selected(ds, [a, b, c]) == [i] + [k];
  }

  lemma ScenarioNamesSeparatorFree()
    ensures NoSeparator(BrowserName) && NoSeparator(UnknownToken) && NoSeparator(ScreenWidth)
  {
  }

  /** The filter "BrowserName,UnknownToken,ScreenWidth" selects BrowserName
      and ScreenWidth, in that order; the unknown token is dropped. */
  lemma UnknownTokenDropped(ds: Dataset)
    requires HasScenarioNames(ds)
    ensures Selected(ds, Tokens(BrowserName + [Comma] + UnknownToken + [Comma] + ScreenWidth)) == [1, 2]
  {
    BrowserNameMatch(ds);
    ScreenWidthMatch(ds);
    UnknownTokenMatchesNothing(ds);
    ScenarioNamesSeparatorFree();
    MiddleTokenDropped(ds, BrowserName, UnknownToken, ScreenWidth);
  }
}
