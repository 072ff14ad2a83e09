# ImageKit editor: transformation encoding engine

A Dafny model of the engine behind the image editor in
`app/components/ImageKitEditor.tsx`. The editor keeps a record of optional
transformation options, such as height, width, format, effects, border and
boolean flags. From that record it derives three things:

- the ImageKit transformation string, e.g. `tr:h-300,w-400,f-webp,e-grayscale`
- the transformed image URL, which carries that string in its `tr` query
  parameter
- the badge count of active options and the file name of a download

The model has five modules:

- `Options` (`options.dfy`) covers the options:
  - the `TransformationParams` object is a map from `Key` to `Value`. A key
    missing from the map reads as `undefined`.
  - JavaScript truthiness (`Truthy`, `Present`) and template-literal
    rendering (`Show`) are written out.
  - `updateTransformation` and `resetTransformations` are `Update` and
    `Reset`.
  - the badge count is `TransformationCount`.
  - the download name is `DownloadFilename`.
  - a series of edits is `ApplyEdits`.
- `Encoder` (`encoder.dfy`) covers `generateTransformationString`:
  - the source tests the 21 non-`borderColor` keys one after the other. The
    table `KeyAtRank` holds that order, and `TokenFor` holds each key's token
    template.
  - `TokensUpTo` is the list pushed by the first `n` tests. `Encode` is the
    returned string.
  - the method `GenerateTransformationString` runs the 21 guarded pushes as
    one loop over the table, in the source's order, and is proved to return
    `Encode`.
  - `TokenKey` reads back from a token the key it was made for. The ordering
    and at-most-once properties are stated through it.
- `Query` (`query.dfy`) covers `URLSearchParams` as the editor uses it:
  - the pair list is a field of class `SearchParams`, updated in place by
    `Delete` and `Set`.
  - the functions it is specified by follow the WHATWG URL Standard:
    - the application/x-www-form-urlencoded parser (section 5.1): cut at `&`,
      skip empty pieces, split at the first `=`, `+` as space
    - `delete` and `set` (section 6.2)
    - the urlencoded serializer (section 5.2)
- `Merge` (`merge.dfy`) covers the effect that recomputes the transformed URL:
  - `ComputeTransformedUrl` is the effect body: encode, split at `?`, parse,
    `delete("tr")`, `set("tr", …)`, serialize.
  - it is proved to return `Merge`, the function its properties are stated
    about.
- `Strings` (`strings.dfy`) holds the JavaScript string operations the source
  calls:
  - `split` on one character
  - `join`
  - `replace` with a string pattern, which replaces the first occurrence only

`updateTransformation` stores `value || undefined`. The key then stays in the
JavaScript object, holding `undefined`. The model removes the key instead.
Every reader in the source behaves the same either way: the `if` tests, the
`Object.values(...).filter((v) => v)` count and the `||` defaults.

Three facts about the code shape the model:

- **Token order.** The encoder tests height before width (lines 42-43 of
  `app/components/ImageKitEditor.tsx`), so `h-` tokens come before `w-`
  tokens.
- **Query semantics.** The query is an ordered list of pairs, not a
  name-to-value map:
  - `delete` removes every pair with the name.
  - `set` keeps the position of the first `tr` pair. After the delete there is
    none, so the `tr` pair always ends up last.
  - pairs with other names keep their duplicates and their order.
- **Query segment.** Only the text between the first and the second `?` is
  parsed. Anything after a second `?` is dropped.

## Model

| member | source | states |
|---|---|---|
| Options.Truthy | app/components/ImageKitEditor.tsx:42-68 | a stored value is truthy iff it is neither `""` nor `false` |
| Options.Present | app/components/ImageKitEditor.tsx:42-68 | a key tested by `if` is present only when it is stored, and a present value always renders as non-empty text |
| Options.Show | app/components/ImageKitEditor.tsx:42-68 | a template literal renders a string as itself and a boolean as `true` or `false`; the rendering is empty only for the falsy `""` |
| Options.Update | app/components/ImageKitEditor.tsx:86-91 | after `updateTransformation(k, v)` the field `k` is present iff `v` is truthy and then holds `v`; every other field is unchanged; an object without falsy values keeps none, and a well-typed object stays well-typed when `v` has the key's declared type |
| Options.Reset | app/components/ImageKitEditor.tsx:103-105 | after `resetTransformations` no field is present |
| Options.TransformationCount | app/components/ImageKitEditor.tsx:116 | the badge count is zero iff no field is present |
| Options.DownloadFilename | app/components/ImageKitEditor.tsx:110 | the download name is `transformed-image.` followed by the chosen format, or by `jpg` when no format is chosen |
| Options.DownloadFilenameAfterEdit | app/components/ImageKitEditor.tsx:110 | choosing format `f` names the download `transformed-image.f`, and clearing the format gives `transformed-image.jpg` |
| Options.ApplyEditsLastWins | app/components/ImageKitEditor.tsx:86-91 | after a series of edits, each field holds its last edited value when that value is truthy, is absent when it is falsy, and is as before when it was never edited |
| Options.EditOrderIrrelevant | app/components/ImageKitEditor.tsx:86-91 | two edit series with the same last value for every field give the same object |
| Options.ApplyEditsCoerced | app/components/ImageKitEditor.tsx:86-91 | edits never store a falsy value |
| Encoder.KeyAtRank | app/components/ImageKitEditor.tsx:42-68 | the encoder tests the 21 keys in a fixed order and never tests `borderColor` on its own |
| Encoder.Rank | app/components/ImageKitEditor.tsx:42-68 | each key's position in that order, the inverse of `KeyAtRank` |
| Encoder.RankOfKeyAtRank | app/components/ImageKitEditor.tsx:42-68 | the order table and the ranks are mutually inverse |
| Encoder.GenerateTransformationString | app/components/ImageKitEditor.tsx:38-71 | the returned string is `Encode(t)`: for each key in the fixed order, that key's token when the key is present, joined with commas after `tr:`, or `""` when nothing is pushed |
| Encoder.BorderColorOr | app/components/ImageKitEditor.tsx:55 | the border colour is the shown `borderColor` when it is set, `000000` otherwise, and never empty |
| Encoder.TokenFor | app/components/ImageKitEditor.tsx:42-68 | each present key's token starts with that key's own prefix, so reading the prefix back gives the key and no two keys produce the same token |
| Encoder.Encode | app/components/ImageKitEditor.tsx:70 | the transformation string is empty iff no token is pushed, and otherwise starts with `tr:` |
| Encoder.TokensUpToKeys | app/components/ImageKitEditor.tsx:42-68 | the `i`-th pushed token is the token of the `i`-th present key found, which is never `borderColor` |
| Encoder.KeysUpToOrdered | app/components/ImageKitEditor.tsx:42-68 | the present keys are found in strictly increasing rank |
| Encoder.KeysUpToComplete | app/components/ImageKitEditor.tsx:42-68 | every present key other than `borderColor` is found |
| Encoder.TokensInFixedOrder | app/components/ImageKitEditor.tsx:42-68 | every token is the token of a present non-`borderColor` key, token keys strictly increase in the fixed order h, w, ar, q, f, rt, c, fo, bl, e-sharpen, r, b, e-brightness, e-contrast, e-saturation, e-hue, e-gamma, e-grayscale, e-sepia, pr, lo (so none repeats), and a non-`borderColor` key is present iff one of its tokens is emitted |
| Encoder.PresentBelowStep | app/components/ImageKitEditor.tsx:42-68 | each test adds its own key, and no other, to the set of present keys already tested |
| Encoder.KeysUpToCount | app/components/ImageKitEditor.tsx:42-68 | the tests find each present key among them exactly once |
| Encoder.CountVsTokens | app/components/ImageKitEditor.tsx:116 | the badge count equals the token count plus one exactly when `borderColor` is set, so tokens ≤ count ≤ tokens + 1, and a zero count gives an empty transformation string |
| Encoder.EncodeEmptyIff | app/components/ImageKitEditor.tsx:70 | the transformation string is empty iff no field other than `borderColor` is present, and is otherwise `tr:` followed by the comma-joined tokens |
| Encoder.TokenEmitted | app/components/ImageKitEditor.tsx:42-68 | every present field other than `borderColor` has its token in the pushed list |
| Encoder.ZeroIsPresent | app/components/ImageKitEditor.tsx:52 | a blur of `"0"` is present and emits `bl-0`, because a non-empty string is truthy |
| Encoder.BorderToken | app/components/ImageKitEditor.tsx:55 | with `border` present, `b-<border>_<borderColor>` is emitted, with `000000` when no colour is set |
| Encoder.BorderColorAlone | app/components/ImageKitEditor.tsx:55 | setting `borderColor` without `border` leaves the transformation string unchanged |
| Encoder.TokensUpToAgree | app/components/ImageKitEditor.tsx:42-68 | options for which every test pushes the same token give the same token list |
| Encoder.EncodeDependsOnPresentFields | app/components/ImageKitEditor.tsx:42-68 | the transformation string depends only on which fields are present and on their values |
| Encoder.EncodeIgnoresEditOrder | app/components/ImageKitEditor.tsx:86-91 | the transformation string depends on the last value given to each field, not on the order in which the fields were edited |
| Encoder.FlagToggle | app/components/ImageKitEditor.tsx:63-68 | setting a boolean flag to `true` emits its bare token, and setting it back to `false` leaves no token of that key |
| Encoder.TokenForNoComma | app/components/ImageKitEditor.tsx:42-68 | a token holds a comma only if a value it shows does |
| Encoder.EncodeSplits | app/components/ImageKitEditor.tsx:70 | when no value holds a comma, splitting the string after `tr:` at its commas gives back exactly the pushed tokens |
| Strings.Split | app/components/ImageKitEditor.tsx:77-78 | `split(c)` gives at least one piece and no piece contains `c`; there is a single piece iff `c` does not occur; the first piece is the text before the first `c` |
| Strings.FirstOccurrence | app/components/ImageKitEditor.tsx:80 | the index `replace` searches for: an occurrence of `pat` with none before it, or the length of the string when `pat` does not occur |
| Strings.RemoveFirst | app/components/ImageKitEditor.tsx:80 | `replace(pat, "")` cuts out the first occurrence of `pat`, and returns the string unchanged when `pat` does not occur |
| Strings.Join | app/components/ImageKitEditor.tsx:70 | `join(sep)` of no pieces is `""`, and otherwise starts with the first piece |
| Strings.RemoveFirstPrefix | app/components/ImageKitEditor.tsx:80 | `replace(pat, "")` on a string starting with `pat` strips that prefix |
| Strings.SplitJoin | app/components/ImageKitEditor.tsx:70 | splitting a comma join gives the pieces back when no piece holds a comma |
| Strings.JoinSplit | app/components/ImageKitEditor.tsx:77-78 | joining the pieces of a split with the separator gives the string back |
| Query.PlusToSpace | app/components/ImageKitEditor.tsx:78 | the parser reads every `+` as a space and keeps every other character |
| Query.Parse | app/components/ImageKitEditor.tsx:78 | an empty query string parses to no pairs |
| Query.Without | app/components/ImageKitEditor.tsx:79 | `delete(name)` leaves no pair named `name`, and changes nothing when there is none |
| Query.SetPair | app/components/ImageKitEditor.tsx:80 | after `set(name, value)` the pair `(name, value)` is in the list, and on a list without `name` it is appended at the end |
| Query.Serialize | app/components/ImageKitEditor.tsx:81 | `toString()` of no pairs is `""`, of one pair its field, and of more pairs the first field followed by `&` |
| Query.Fields | app/components/ImageKitEditor.tsx:81 | each pair serializes as the encoded name, `=`, the encoded value |
| Query.SearchParams.constructor | app/components/ImageKitEditor.tsx:78 | `new URLSearchParams(q)` holds the pairs parsed from `q` |
| Query.SearchParams.Delete | app/components/ImageKitEditor.tsx:79 | `delete` replaces the list by the list without the pairs of that name |
| Query.SearchParams.Set | app/components/ImageKitEditor.tsx:80 | `set` replaces the list as `SetPair` describes |
| Query.SearchParams.ToString | app/components/ImageKitEditor.tsx:81 | `toString` returns the serialized list |
| Query.WithoutAppend | app/components/ImageKitEditor.tsx:79 | deleting distributes over concatenation, so the kept pairs keep their order |
| Query.WithoutSingle | app/components/ImageKitEditor.tsx:79 | one pair is kept iff it has another name |
| Query.WithoutIdempotent | app/components/ImageKitEditor.tsx:79 | after `delete(name)` no pair is named `name`, and deleting again changes nothing |
| Query.SetPairEffect | app/components/ImageKitEditor.tsx:80 | after `set(name, value)` exactly one pair is named `name`, and the pairs with other names are those before, in order |
| Query.ParseSerialize | app/components/ImageKitEditor.tsx:78-81 | with a codec whose output has no `&`, `=` or `?` and which decoding undoes, parsing the serialization gives the pair list back |
| Merge.CleanPart | app/components/ImageKitEditor.tsx:77 | the kept prefix is the URL up to its first `?` and holds no `?` |
| Merge.QueryPart | app/components/ImageKitEditor.tsx:78 | the parsed segment holds no `?`, and it is empty when the URL has no `?` |
| Merge.Merge | app/components/ImageKitEditor.tsx:74-83 | with an empty transformation string or an empty URL the URL is used as it is |
| Merge.ComputeTransformedUrl | app/components/ImageKitEditor.tsx:73-84 | the effect stores `Merge(imageUrl, Encode(transformations))` |
| Merge.MergedPairsShape | app/components/ImageKitEditor.tsx:78-80 | the rebuilt query is every original pair not named `tr`, in order, followed by one `tr` pair carrying the string without its `tr:` prefix; exactly one pair is named `tr` |
| Merge.MergeShape | app/components/ImageKitEditor.tsx:76-81 | the result is the URL up to its first `?`, then `?`, then the serialization of those pairs |
| Merge.MergeEndsWithTransformation | app/components/ImageKitEditor.tsx:79-81 | the serialized query ends with the encoded `tr` pair, after `&` when other pairs are kept |
| Merge.PartsOfTwoQuestions | app/components/ImageKitEditor.tsx:77-78 | for `a?q?rest` the kept prefix is `a` and the parsed segment is `q` |
| Merge.MergeQuerySegment | app/components/ImageKitEditor.tsx:77-78 | with a transformation string, `a?q?rest` merges like `a?q`: only the segment between the first two `?` is parsed |
| Merge.MergeNoQuery | app/components/ImageKitEditor.tsx:76-81 | a URL without `?` gets a query holding only the `tr` pair |
| Merge.TransformationValue | app/components/ImageKitEditor.tsx:80 | for the encoder's output, the `tr` value is exactly the comma-joined tokens |
| Merge.MergeReplaces | app/components/ImageKitEditor.tsx:76-81 | with a round-tripping codec, merging into a merged URL gives what merging into the original gives, so the output carries only the latest transformation |
| Merge.ResetClears | app/components/ImageKitEditor.tsx:103-105 | after a reset no field is present, the count is zero, the transformation string is empty and the URL is used as it is |

## Left out

- Rendering is not modelled, because it is UI only. That covers the JSX, tabs, sliders, preview modes and the `<style>` block of `app/components/ImageKitEditor.tsx`.
- Clipboard copy, its timer and the DOM link of `downloadImage` are not modelled, because they are browser I/O. Only the file name expression is modelled.
- Percent-decoding and percent-encoding are not modelled, because they are browser library code. They are the parameters `dec` and `enc`. The `+` to space step of the parser is written out. UTF-8 decoding is part of `dec`.
- React state and effect scheduling are not modelled. The effect is one call of `ComputeTransformedUrl` on the current options and URL. Re-running it when a dependency changes is left out.
- An `imageurl` that is `null` is not modelled; the URL is a `string`. `app/edit/page.tsx` passes `searchParams.get("imageUrl")`, which is `null` when the parameter is missing. A `null` URL is falsy, so the effect stores it as it is (line 82), as `Merge` does for `""`.
- `app/components/ImageKit.tsx`, `app/edit/EditPageContent.tsx` and `app/edit/page.tsx` are not part of this model. They are upload transport, routing and mounting code around an external SDK.
- Options.WellTyped: declared types are not enforced on stored values. `updateTransformation` accepts `string | boolean` for any key, so `Update` only preserves well-typedness when the caller passes a value of the declared type.
- Query.Parse: only the empty-string case is stated for parsing on its own. What parsing gives otherwise is stated through `Query.ParseSerialize`.
- Strings.Join: its own contract states only the empty case and the first piece. The rest of its behaviour is stated through `Strings.JoinSplit` and `Strings.SplitJoin`.
- Query.Serialize: its own contract states the first field only. The whole serialization is stated through `Query.ParseSerialize` and `Merge.MergeEndsWithTransformation`.
- Encoder.TokenFor: its own contract states which key a token reads back as. The exact templates are stated through `Encoder.ZeroIsPresent`, `Encoder.BorderToken` and `Encoder.FlagToggle`.
