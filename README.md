# FHIR extension helpers, modelled in Dafny

These helpers (`src/extensions.ts`) read and change the **extensions** of a FHIR R4
element. An extension is a `(url, value)` pair. An element may carry an ordered list of
them in its optional `extension` field. The url works as a key, but the list may hold it
more than once. So every helper fixes what happens with zero, one or many matches:

- **Locator**: `getExtension` returns the first match. `getExtensions` returns all matches in
  order, or nothing, never an empty list. `hasExtension` and `hasExtensionAny` test whether a
  match exists.
- **Mutator**: `setExtension` collapses every match onto the first one, or appends when there
  is none. `addExtension` always appends. `clearExtension` removes every match, and removes
  the field itself when the list ends up empty.
- **Typed accessors**: the string, integer, boolean and markdown getters project the first
  match onto one value field. `getExtensionStringValues` projects all matches.
  `setExtensionBooleanValue` calls `setExtension`.

The model has these modules:

- `Wrappers` (`wrappers.dfy`): `Option`.
- `ExtensionModel` (`model.dfy`):
  - `Value` is a sum type with one variant per value field the helpers read (`VString`,
    `VBoolean`, `VInteger`, `VMarkdown`). `VUri` and `Other` stand for fields the helpers do
    not read: a uri, any other shape, or no value.
  - `Extension` is a url and a `Value`.
  - `Element` is a class with the one field the helpers touch: `extension: Option<seq<Extension>>`.
    `None` means the field is missing; `Some([])` is an empty list.
- `ExtensionLocator` (`locator.dfy`): the url filter `Matches`, its complement `Without`, and the
  reference definition `FirstIndex` of "the first match". It also holds the four locator queries.
  The queries are functions that read an `Element?`. A null reference stands for the
  `undefined` element the source accepts.
- `ExtensionMutator` (`mutator.dfy`): the three mutators are methods that change the
  element. Each builds the new list in a local variable and assigns `element.extension` once.
  `SetExtension` and `ClearExtension` remove the matches with a loop that scans the list and
  splices them out; `AddExtension` appends. The declarative functions `SetIn` and `ClearIn`
  give the field's new value, and lemmas state the promised properties about them.
- `TypedAccessors` (`accessors.dfy`): the typed getters and `SetExtensionBooleanValue`.
- `Scenarios` (`scenarios.dfy`): client methods that replay the repository's test scenarios
  (`src/tests/extensions.test.ts`) using the mutator methods' contracts and the query
  functions' definitions.

Nothing here is executed. Everything is proved by the Dafny verifier.

The repository's tests (`src/tests/extensions.test.ts:84-111`) call a `setExtension` that
takes an element factory, and uri accessors. `src/extensions.ts` defines neither, and the
model follows `src/extensions.ts`:

- `setExtension` and `addExtension` take an element and a value only. They read
  `element.extension` without checking the element, so an `undefined` element makes them throw
  a TypeError. The model leaves that case out: the element parameter is a non-null `Element`.
- `src/extensions.ts` has accessors only for string, integer, boolean and markdown values.
- `getExtensionStringValues` returns an empty sequence, not nothing, when the url matches but
  no match has a non-empty `valueString` (`src/extensions.ts:135`).

## Model

| member | source | states |
|---|---|---|
| ExtensionLocator.Matches | src/extensions.ts:25-28 | the url filter shared by every locator; the result is never longer than the list |
| ExtensionLocator.MatchesMembership | src/extensions.ts:25-28 | an entry is in the filtered list exactly when it is in the list and has the url |
| ExtensionLocator.MatchesAt | src/extensions.ts:25-28 | the filter keeps list order: the match at index i is at the position given by the number of matches before i |
| ExtensionLocator.FirstIndex | src/extensions.ts:29 | the lowest index holding the url: every earlier index has another url, and None exactly when no index has the url |
| ExtensionLocator.MatchesFromFirst | src/extensions.ts:29 | the filter's first element is the entry at the lowest matching index, and the filter is empty exactly when there is no match |
| ExtensionLocator.GetExtension | src/extensions.ts:23-31 | None for a missing element, a missing field or no match; otherwise the entry at the lowest index holding the url |
| ExtensionLocator.GetExtensions | src/extensions.ts:39-47 | None, never an empty sequence, exactly when nothing matches; otherwise a non-empty sequence, starting with the first match, that is ranked: each match sits at its rank among the matches, and each position holds the match of that rank, so no match is missing, repeated or moved |
| ExtensionLocator.MatchesOrigin | src/extensions.ts:41-44 | every position of the filter's output holds an entry with the url whose rank is that position |
| ExtensionLocator.MatchesRanked | src/extensions.ts:41-44 | the filter's output is ranked in both directions |
| ExtensionLocator.RankedUnique | src/extensions.ts:39-47 | the ranking determines the result: the only ranked sequence is the filter's output |
| ExtensionLocator.GetExtensionsOrder | src/extensions.ts:39-47 | every match appears in the result, and in the order it has on the element |
| ExtensionLocator.HasExtension | src/extensions.ts:107-115 | true exactly when getExtension finds something, that is when some entry has the url |
| ExtensionLocator.UrlListed | src/extensions.ts:120-123 | the inner `for … of urls` search is true exactly when the url is a member of `urls` |
| ExtensionLocator.MatchesAny | src/extensions.ts:119-124 | the hasExtensionAny filter keeps exactly the entries whose url is in `urls` |
| ExtensionLocator.HasExtensionAny | src/extensions.ts:117-127 | true exactly when some entry's url is a member of `urls` |
| ExtensionLocator.HasExtensionAnyIsSomeHas | src/extensions.ts:117-127 | hasExtensionAny holds exactly when hasExtension holds for some listed url (membership, not position) |
| ExtensionLocator.HasExtensionAnySingle | src/extensions.ts:107-127 | hasExtensionAny with the single url u equals hasExtension with u |
| ExtensionLocator.Without | src/extensions.ts:96-101 | the list clearExtension's splice loop leaves: the entries with another url, in order, never longer than the list |
| ExtensionLocator.WithoutMembership | src/extensions.ts:98-100 | removing a url keeps exactly the entries with another url |
| ExtensionLocator.WithoutKeepsOthers | src/extensions.ts:98-100 | removing one url leaves the matches of every other url, in order, as they were |
| ExtensionLocator.WithoutEmpty | src/extensions.ts:102-104 | removing a url empties the list exactly when every entry had that url |
| ExtensionModel.Entries | src/extensions.ts:55 | definitional: the list a mutator works on is the existing list, even an empty one, or the `[]` that lines 55 and 78 create for a missing field; the promises about creating the list are SetInAppends and AddExtension |
| ExtensionMutator.SetIn | src/extensions.ts:55-69 | the list setExtension leaves: never empty, and at most one entry longer than the old list |
| ExtensionMutator.SetInMembership | src/extensions.ts:55-69 | setting brings in only the value, keeps every entry with another url, and keeps the value in the list |
| ExtensionMutator.SetInShape | src/extensions.ts:60-65 | with a prior match, the url's first index is unchanged, the entries before it are the old ones, and the entries after it are the old ones without the url |
| ExtensionMutator.SetInAtFirstMatch | src/extensions.ts:60-65 | with a prior match, the new list keeps the entries before the first match, puts the value at that index, and is shorter by the number of extra matches |
| ExtensionMutator.SetInAppends | src/extensions.ts:54-69 | with no prior match, including a missing or empty list, the value is appended and the list grows by exactly one |
| ExtensionMutator.SetInLeavesOne | src/extensions.ts:54-70 | afterwards exactly one entry has the url, and it is the value that was set |
| ExtensionMutator.SetInKeepsOthers | src/extensions.ts:54-70 | the entries of every other url keep their values and their relative order |
| ExtensionMutator.SetInWithout | src/extensions.ts:54-70 | setting changes nothing that does not have the url |
| ExtensionMutator.SetInFirst | src/extensions.ts:54-70 | after a set, the first entry with the url is the value that was set |
| ExtensionMutator.SetInTwice | src/extensions.ts:54-70 | setting v1 and then v2 with the same url gives the list that setting v2 alone gives: one entry, at the url's first position |
| ExtensionMutator.SetInIdempotent | src/extensions.ts:54-70 | setting the same extension twice gives the same list as setting it once |
| ExtensionMutator.SpliceOut | src/extensions.ts:63-65 | the splice loop leaves the entries before the start index alone and removes exactly the matches after it, keeping the rest in order |
| ExtensionMutator.SetExtension | src/extensions.ts:54-70 | the field becomes SetIn of the old list, which is `[]` when the field was missing; getExtension then returns the value |
| ExtensionMutator.AddExtension | src/extensions.ts:77-81 | the field becomes the old list, or `[]` when missing, with the value appended, so the old list is an unchanged prefix |
| ExtensionMutator.AddKeepsDuplicates | src/extensions.ts:77-81 | after an add, the matches of the value's url are the old matches followed by the value; other urls' matches are unchanged |
| ExtensionMutator.ClearIn | src/extensions.ts:90-105 | a missing field stays missing; otherwise the field is never left as an empty list, and no remaining entry has the url |
| ExtensionMutator.ClearExtension | src/extensions.ts:90-105 | the field becomes ClearIn of the old field, so a missing field is left alone; afterwards hasExtension is false |
| ExtensionMutator.ClearInKeepsOthers | src/extensions.ts:96-101 | after a clear, the entries of every other url are the old ones, in the old order |
| ExtensionMutator.ClearInLength | src/extensions.ts:96-101 | a clear removes exactly the matching entries |
| ExtensionMutator.ClearInRemovesField | src/extensions.ts:102-104 | the field ends up missing exactly when every entry had the url, which includes a list that was already empty |
| ExtensionMutator.ClearInIdempotent | src/extensions.ts:90-105 | clearing twice gives the same field as clearing once |
| ExtensionMutator.ClearUndoesSet | src/extensions.ts:54-70 | setting a url the element did not have and then clearing it restores the original field, and an empty list comes back as a missing field |
| TypedAccessors.GetExtensionStringValue | src/extensions.ts:130-132 | Some(s) exactly when the first match carries valueString s; None when the first match carries another field, even if a later match has a string |
| TypedAccessors.GetExtensionIntegerValue | src/extensions.ts:138-140 | Some(n) exactly when the first match carries valueInteger n |
| TypedAccessors.GetExtensionBooleanValue | src/extensions.ts:142-144 | Some(b) exactly when the first match carries valueBoolean b |
| TypedAccessors.GetExtensionMarkdownValue | src/extensions.ts:150-158 | its own filter gives the same result as the other getters: Some(m) exactly when the first match carries valueMarkdown m |
| TypedAccessors.NonEmptyStrings | src/extensions.ts:135 | the `filter(!!item.valueString).map(...)` chain: one string per kept entry, so never longer than the list |
| TypedAccessors.NonEmptyStringsMembership | src/extensions.ts:135 | the `!!item.valueString` filter keeps a string exactly when it is the non-empty valueString of some entry |
| TypedAccessors.GetExtensionStringValues | src/extensions.ts:134-136 | None exactly when no entry has the url; otherwise it holds exactly the non-empty valueStrings of the matches (membership both ways), may be empty, and is ranked: each kept string sits at its rank among the kept strings, and each position holds the string of that rank, so none is missing, repeated or moved |
| TypedAccessors.NonEmptyStringsOrigin | src/extensions.ts:135 | every string the `filter(!!…).map(…)` chain yields is the non-empty valueString of an entry whose rank among the kept entries is its position |
| TypedAccessors.NonEmptyMatchesAt | src/extensions.ts:135 | the string of a kept match sits after the strings of the matches before it |
| TypedAccessors.StringsRanked | src/extensions.ts:134-136 | the strings of the matches are ranked in both directions |
| TypedAccessors.RankedStringsUnique | src/extensions.ts:134-136 | the ranking determines the result: the only ranked string sequence is the strings of the matches |
| TypedAccessors.StringValuesOrder | src/extensions.ts:134-136 | the strings keep the order of their extensions on the element |
| TypedAccessors.StringValueAfterSet | src/extensions.ts:130-132 | after setting a string extension on a url, getExtensionStringValue on that url returns that string |
| TypedAccessors.SetExtensionBooleanValue | src/extensions.ts:146-148 | the field becomes SetIn of a valueBoolean extension; getExtensionBooleanValue then returns the value |

## Left out

- The element-factory parameter and its errors, which `src/tests/extensions.test.ts:84-101`
  uses, are left out, because `src/extensions.ts` does not define them.
- The uri accessors used at `src/tests/extensions.test.ts:103-111` are left out, because
  `src/extensions.ts` does not define them. `VUri` and `Other` exist only so that an extension
  can carry a field the getters do not read.
- The TypeError that `setExtension`, `addExtension` and `clearExtension` throw for an
  `undefined` element is left out (`src/extensions.ts:55`, `:78`, `:91`). Those methods take a
  non-null `Element`.
- Object identity is left out. The source finds the entries to replace or remove with
  `indexOf` on object identity; the model works on values. An object that occurs twice does not
  change the result: for `[a, x, a]` both give `[v, x]`. The one case that differs is a
  `setExtension` whose value is itself a later entry of the list. Take `[a, x, v]` with
  `a.url == v.url` and `x` with another url. The source writes `v` at index 0, then its
  `indexOf(v)` finds index 0 and splices it out, leaving `[x, v]`. `SetIn` gives `[v, x]`.
- SetExtension, AddExtension, ClearExtension: aliasing of the extension array is left out.
  The source changes that array in place: the index assignment at `src/extensions.ts:61`, the
  `splice` at `:64` and `:99`, and the `push` at `:68` and `:80`. Any other holder of the array
  sees each step, and after the `delete` at `:103` an aliased array is left empty. The model's
  field holds a sequence value, which each method builds locally and assigns once, so it captures
  neither the intermediate states nor what other holders of the array see.
- Every host field other than `extension` is left out. The helpers never touch those fields, so
  they stay unchanged by construction.
- The JSON text the tests compare is modelled as structural equality of the extension field.
- An extension with two value fields set at once cannot be represented, because `Value` is a
  sum type.
- GetExtensionIntegerValue: `valueInteger` is an unbounded integer. The source keeps it as a
  JavaScript number, and the FHIR 32-bit range is not enforced.
- The default export object (`src/extensions.ts:2-15`) is packaging only and is left out.
