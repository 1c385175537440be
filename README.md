# mocketbug typed-attribute decoder, modelled in Dafny

mocketbug converts a DynamoDB-style typed-attribute JSON document into plain
JSON. Each field of the input wraps its value in a one-key object that names
the value's type: `{"S": ...}`, `{"N": ...}`, `{"BOOL": ...}`, `{"NULL": ...}`,
`{"L": [...]}` or `{"M": {...}}`. The converter unwraps every field, cleans
and parses the scalars, recurses into lists and maps, and omits every field
that is blank, malformed or decodes to nothing.

This project models all of `main.go` except `main()`:

- `transformationCriteria`, the document driver;
- `criteriaChecks`, the tag dispatcher, together with its in-place key
  normalisation;
- `transformMap` and `transformList`, the collection converters;
- `transformString`, `transformNumeric`, `transformBool` and `transformNull`,
  the scalar converters;
- the library routines those converters depend on:
  `strings.TrimSpace`, `strings.TrimLeft(s, "0")`, `strconv.ParseBool`,
  base-10 `strconv.ParseInt`, decimal `strconv.ParseFloat`,
  `time.Parse(time.RFC3339, …).Unix()` and `sort.Strings`.

Layout:

| file | module | contents |
|---|---|---|
| `values.dfy` | `Values` | The input tree `Json` and the output tree `Plain`. An object is a sequence of entries, and the sequence order stands for Go's map iteration order. `Outcome` is `Panic`, `Nil` or `Val(p)`. A Go map that the code updates is a sequence with `Lookup` and `Put`. |
| `text.dfy` | `Text` | `TrimSpace`, leading-zero stripping, decimal digits, and Go's byte-wise string order. |
| `timestamp.dfy` | `Timestamp` | Parsing of RFC 3339 `date-time` strings and the Unix epoch computation, with a formatter as the parser's inverse. |
| `scalars.dfy` | `Scalars` | The four scalar converters and the parsers they call. |
| `decoder.dfy` | `Decoder` | The decoder as mutually recursive functions. Each function follows one loop of the source and takes that loop's accumulator as a parameter. |
| `sorting.dfy` | `Sorting` | `sort.Strings` as an in-place sort of an array. |
| `transform.dfy` | `Transform` | The loops of `main.go` as methods. Each method is proved equal to its `Decoder` function. |
| `normalize_facts.dfy` | `NormalizeFacts` | What key normalisation does to a node, and what dispatch then returns. |
| `renormalize.dfy` | `Renormalize` | Normalising a node twice is normalising it once, so decoding an already normalised node gives the same result. |
| `decode_facts.dfy` | `DecodeFacts` | What the list, map and document converters return, stated against definitions that do not follow the loops. |
| `fixtures.dfy`, `decode_fixtures.dfy` | `Fixtures`, `DecodeFixtures` | The expectations of `main_test.go`, proved about the model. |

A type assertion that fails in Go panics and aborts the whole conversion.
The model keeps that behaviour: it is the `Panic` outcome (`Crashed` inside
accumulating loops), and it is distinct from `Nil`, which is an omitted value.

Go ranges over maps in an unspecified order. The model takes one fixed order
(the entry sequence), and the dispatch lemmas are stated for nodes with at
most one recognised tag. For such nodes the order makes no difference.

Behaviour of `main.go` that is easy to miss:

- A non-string value under `S`, `N`, `BOOL` or `NULL` panics (main.go:52-58).
  It does not decode to absent.
- An `L` whose list decodes to nil does not end the dispatch. The loop moves
  on to the node's remaining keys (main.go:73-76).
- `M` hands the whole node to `transformMap` (main.go:78), not the value
  under `M`. Every object-valued entry of the node with a non-blank key is
  merged, including a whitespace-padded alias of `M`.
- Key normalisation never removes a key. Original keys stay next to their
  trimmed aliases, and a key that is blank after trimming is skipped
  (main.go:37-44).
- An empty map decodes to an empty object, not to nil (main.go:121).
- Number text that is only a `.` after its zeros are stripped (`"0."`,
  `" 00. "`) is nil, because the float parser finds no digit (main.go:187-196).
- The key sort in `transformMap` produces a Go map, which has no order. The
  sorted copy therefore equals the unsorted result (`Transform.SortedCopy`).

## Model

| member | source | states |
|---|---|---|
| Text.IsSpace | main.go:39 | Defines Go's white-space set: the six ASCII spaces and the Unicode White_Space code points above U+007F. It has no contract; the TrimSpace rows state what trimming with it does |
| Text.TrimSpace | main.go:39 | The trimmed text is empty exactly when the input is all white space; otherwise it neither starts nor ends with white space |
| Text.TrimSpacePadding | main.go:210 | The trimmed text is the input with a run of white space removed from the front and a run removed from the back |
| Text.TrimSpacePadded | main.go:210 | Text with white space added on both ends of a trimmed core trims back to that core |
| Text.TrimSpaceOfTrimmed | main.go:210 | Text that neither starts nor ends with white space is unchanged by trimming |
| Text.TrimSpaceIdempotent | main.go:39-48 | Trimming twice is the same as trimming once, so the second trim of a normalised key changes nothing |
| Text.TrimLeadingZeros | main.go:187 | The result is a suffix of the input, everything removed is `'0'`, and the result does not start with `'0'` |
| Text.TrimLeadingZerosPadded | main.go:187 | Zeros in front of text that does not start with `'0'` are exactly what is stripped |
| Text.Less | main.go:114 | Defines the byte-wise string order `sort.Strings` sorts by. It has no contract; the next three rows prove it a strict total order |
| Text.LessIrreflexive | main.go:114 | No string sorts before itself |
| Text.LessTransitive | main.go:114 | The byte-wise order used by the sort is transitive |
| Text.LessTotal | main.go:114 | Any two distinct strings are ordered one way or the other |
| Values.Lookup | main.go:38 | Reading a key finds a value exactly when the key is present; the value found is bound to that key, and with distinct keys it is the only value bound to it |
| Values.Put | main.go:43 | After the store, the key is bound to the new value, every other key keeps its value, no other key appears, and distinct keys stay distinct |
| Timestamp.ParseRfc3339 | main.go:216 | A parsed timestamp has its fields in Go's ranges and comes from text that starts with a digit and is at least 20 characters long. ParsedText and ParseFractionRoundTrip state exactly which text it accepts and with what value |
| Timestamp.ParsedText | main.go:216 | Text that parses is the formatted date, `T`, the formatted time, an optional fraction (`.` or `,` and digits) and the formatted zone of the parsed value: only RFC 3339 text is accepted |
| Timestamp.ParseFractionRoundTrip | main.go:216 | Every valid date-time, formatted with any fraction of a second, parses back to itself: the fraction is accepted and ignored |
| Timestamp.FractionSkipped | main.go:216 | A fraction between the seconds and the zone does not change the parse |
| Timestamp.SameParse | main.go:216 | Parsing reads only the first nineteen characters and what follows the fraction |
| Timestamp.SkippedFraction | main.go:216 | What the parser skips after the seconds is exactly a fraction, and the rest is kept |
| Timestamp.ParsedZoneText | main.go:216 | A zone that parses is the formatted text of its value |
| Timestamp.PadOfDigits | main.go:216 | A field of digits is the zero-padded text of its value |
| Timestamp.ParseFormatRoundTrip | main.go:216 | Every valid date-time, formatted in RFC 3339, parses back to itself |
| Timestamp.ZoneRoundTrip | main.go:216 | Every zone within Go's offset limits, formatted, parses back to itself |
| Timestamp.EpochSeconds | main.go:217 | Defines `Unix()`: days since 1970-01-01 times 86400, plus the time of day, minus the zone offset. It has no contract; EpochNextDay, StringConvertsTimestamps and the timestamp fixture state its values |
| Timestamp.EpochNextDay | main.go:217 | Unix seconds advance by exactly 86400 from the last day of a month to the first day of the next month, and from 31 December to 1 January of the next year |
| Scalars.ParseBool | main.go:176 | Accepts exactly the twelve literals, as true for `1 t T TRUE true True` and false for `0 f F FALSE false False` |
| Scalars.ParseInt64 | main.go:200 | Accepts exactly an optionally signed run of decimal digits whose value lies in the int64 range, and returns that value |
| Scalars.ParseFormatInt | main.go:200 | Every int64, written in decimal, parses back to itself |
| Scalars.ParseFloat | main.go:193 | Accepted float text contains at least one digit. Its value is stated by ParseFloatDecimal and ParseFloatExponent |
| Scalars.ParseFloatDecimal | main.go:193 | Digits `a`, `.` and digits `b`, with an optional sign and at least one digit, parse to `±(a + b / 10^len(b))` |
| Scalars.ParseFloatExponent | main.go:193 | Text with an exponent parses to its mantissa's value times `10^n`, or divided by `10^-n` for a negative exponent, negated after a `-` sign |
| Scalars.UnsignedDecimal | main.go:193 | Unsigned `a.b` parses to `a + b / 10^len(b)` |
| Scalars.MantissaOfDecimal | main.go:193 | A mantissa `a.b` has the value `a + b / 10^len(b)` |
| Scalars.ExponentOfText | main.go:193 | An optionally signed run of digits after `e` is the exponent it spells |
| Scalars.ScaleUp | main.go:193 | Scaling by a non-negative exponent multiplies by that power of ten |
| Scalars.ScaleDown | main.go:193 | Scaling by a negative exponent divides by that power of ten |
| Scalars.TransformNumeric | main.go:183-206 | After trimming and stripping leading zeros: empty text is nil; text without `.` is kept exactly when it is a valid int64, as that integer; text with `.` is kept exactly when it parses as a float, as that float |
| Scalars.NumericKeepsDecimal | main.go:183-197 | Digits `a` (not starting with `0`), `.` and digits `b`, with white space and leading zeros around them, convert to the float `a + b / 10^len(b)` |
| Scalars.NumericDropsBareDot | main.go:183-196 | A `.` with only white space and zeros around it is nil |
| Scalars.NumericTextPadded | main.go:185-187 | Trimming and zero-stripping remove exactly the white space and the leading zeros around the number text |
| Scalars.NumericKeepsNonZero | main.go:183-206 | Any non-zero int64, written with white space around it and any number of leading zeros, converts to itself |
| Scalars.NumericDropsZeros | main.go:185-190 | Text made only of white space and zeros (`"0"`, `"000"`) is nil |
| Scalars.TransformBool | main.go:167-181 | After trimming, the value is kept exactly when it is one of the twelve literals, as the boolean it spells, `false` included |
| Scalars.BoolKeepsLiterals | main.go:167-181 | Each of the twelve literals, with white space around it, converts to its boolean |
| Scalars.NotBoolLiteral | main.go:176 | Text longer than five characters, or text containing `.`, is no boolean literal |
| Scalars.TransformNull | main.go:150-165 | The value is kept exactly when its trimmed text is a true literal, and it is then `true`; false literals and parse failures are nil |
| Scalars.TransformString | main.go:208-220 | Blank text is nil. Otherwise the result is either the trimmed text, when that is no RFC 3339 timestamp, or the Unix seconds of the timestamp it parses as |
| Scalars.StringConvertsTimestamps | main.go:208-218 | Every valid date-time, formatted in RFC 3339 and padded with white space, converts to its Unix seconds |
| Decoder.TagOf | main.go:50 | Names the converter a trimmed key selects. It has no contract; TagOfTags states which keys select one |
| Decoder.TagOfTags | main.go:50-81 | A trimmed key selects a converter exactly when it is one of `S N BOOL NULL L M` |
| Decoder.Visit | main.go:37-44 | One iteration of the normalisation loop. It has no contract; NormalizeFacts.NormalizedStep states what it does |
| Decoder.NormalizeFrom | main.go:37-44 | The normalisation loop from a given key on. It has no contract; NormalizeFacts.NormalizeFromKeeps states its invariant |
| Decoder.Normalize | main.go:37-44 | Every value of the normalised node is smaller than the node itself, so the recursion terminates. Renormalize.NormalizeIdempotent and the NormalizeFacts rows state what normalisation does |
| Decoder.CriteriaChecks | main.go:35-84 | criteriaChecks: normalise, then dispatch. It has no contract of its own; NormalizeFacts.SingleTagDecodes, NormalizeFacts.NoTagIsNil and Renormalize.CriteriaChecksNormalized state its results |
| Decoder.Dispatch | main.go:45-83 | The dispatch loop. It has no contract; NormalizeFacts.DispatchAt, DispatchSkip, DispatchEnd and DispatchUntagged state its steps |
| Decoder.Converted | main.go:50-81 | The dispatch table: a scalar tag panics exactly on a non-string value, an `L` whose value is no array is nil, and `M` is never nil |
| Decoder.DecodeList | main.go:142-147 | A decoded list is never empty |
| Decoder.ListFrom | main.go:136-138 | The loop never loses an element it has already appended |
| Decoder.DecodeMap | main.go:86-122 | The map converter either panics or returns an object, never nil |
| Decoder.MapFrom | main.go:89-107 | The outer loop keeps every key already merged |
| Decoder.MergeInner | main.go:102-104 | The inner loop keeps every key already merged |
| NormalizeFacts.NormalizeShape | main.go:37-44 | Normalisation removes no key and adds only trimmed forms of original keys; distinct keys stay distinct |
| NormalizeFacts.NormalizeBindsTrimmed | main.go:37-44 | Each key with a non-blank trimmed form has that form bound afterwards, to the value of some original key that trims to it |
| NormalizeFacts.NormalizeAliases | main.go:37-44 | When no two original keys trim alike, each trimmed form is bound to its own key's value (`"NULL "` gains a `"NULL"` alias with the same value) |
| NormalizeFacts.NormalizedKeysTrim | main.go:37-44 | Every key after normalisation trims to the trimmed form of an original key |
| NormalizeFacts.NormalizeFromKeeps | main.go:37-44 | The normalisation loop keeps its invariant: keys between the originals and their trimmed forms, every binding sourced, visited keys bound |
| NormalizeFacts.NormalizedStep | main.go:37-44 | One iteration of the normalisation loop extends that invariant by one key |
| NormalizeFacts.TaggedEntry | main.go:37-44 | With one tagged original key, every tagged entry after normalisation carries that tag and that key's value |
| NormalizeFacts.NoTagIsNil | main.go:45-83 | A node in which no key trims to a recognised tag decodes to nil |
| NormalizeFacts.DispatchUntagged | main.go:45-83 | The dispatch loop over entries without a recognised tag ends in nil |
| NormalizeFacts.DispatchSingle | main.go:45-83 | When all tagged entries share one tag and value, dispatch gives that tag's conversion if a tagged entry remains, and nil otherwise |
| NormalizeFacts.DispatchAt | main.go:50-81 | A tagged entry ends the dispatch with its conversion. The exception is an `L` list that decodes to nil: the loop then moves on to the next entry |
| NormalizeFacts.DispatchSkip | main.go:79-80 | An entry with no recognised tag is skipped |
| NormalizeFacts.DispatchEnd | main.go:83 | The dispatch loop returns nil once the entries run out |
| NormalizeFacts.SingleTagDecodes | main.go:35-84 | A node with distinct keys and exactly one key that trims to a tag decodes to that tag's conversion of its value |
| NormalizeFacts.NullBlankIsNil | main.go:58-61 | A blank `NULL` value is nil |
| Renormalize.NormalizeIdempotent | main.go:37-44 | With distinct keys, normalising a normalised node changes nothing |
| Renormalize.CriteriaChecksNormalized | main.go:35-84 | With distinct keys, criteriaChecks on a node it has already normalised returns what it returned the first time, as transformMap's second visit of an aliased map needs (main.go:78, main.go:89-105) |
| Renormalize.RunLookup | main.go:37-44 | After the loop over any keys, each key holds the value of the last visit that copied to it, or its value before |
| Renormalize.RunOrder | main.go:37-44 | The loop keeps every entry in place and only appends; when every trimmed form is already bound it appends nothing |
| Renormalize.DispatchAnyBound | main.go:45-83 | The dispatch result does not depend on the size bound that justifies its termination |
| DecodeFacts.ListFromSurvivors | main.go:128-147 | From any point on, the list loop returns the accumulated elements followed by the decoded survivors of the remaining items, nil when empty, panic on a panic |
| DecodeFacts.DecodeListIsFilter | main.go:124-148 | A list decodes to the order-preserving sequence of the non-nil decodings of its object elements; an empty one is nil, and a panic anywhere is a panic |
| DecodeFacts.SurvivorsAppend | main.go:124-148 | Filtering a concatenation concatenates the filtered parts |
| DecodeFacts.SurvivorsBound | main.go:124-148 | The filtered list is no longer than the input |
| DecodeFacts.SurvivorsCrash | main.go:133 | The list panics exactly when some object element's decoding panics |
| DecodeFacts.MergeInnerSources | main.go:98-105 | Every key the inner loop adds comes from an attribute that decodes to the stored value |
| DecodeFacts.MergeInnerComplete | main.go:98-105 | Every attribute that decodes to a value has its key in the merged map |
| DecodeFacts.MergeInnerCrash | main.go:98-100 | The inner loop panics exactly when some attribute is not an object or its decoding panics |
| DecodeFacts.MapFromSources | main.go:89-107 | Every key of the map result comes from an attribute of a merged outer entry, with that attribute's decoded value |
| DecodeFacts.MapFromComplete | main.go:89-107 | Every attribute of a merged outer entry that decodes to a value has its key in the map result |
| DecodeFacts.MapFromPanic | main.go:89-107 | The map converter panics exactly when a merged outer entry has a broken attribute |
| DecodeFacts.DecodeMapMeaning | main.go:86-122 | The map converter is never nil, panics exactly on a broken attribute, and otherwise returns exactly the merged decodings: every key sourced, every decodable attribute present |
| Decoder.DocumentFrom | main.go:16-31 | The document loop from a given entry on. It has no contract; the DocumentFrom rows below state its results |
| Decoder.Document | main.go:13-33 | transformationCriteria. It has no contract; DecodeFacts.DocumentMeaning states its result |
| DecodeFacts.DocumentFromSources | main.go:16-31 | Every key the document loop adds is a kept input key: non-blank, object-valued, and decoding to the stored value |
| DecodeFacts.DocumentFromKeeps | main.go:16-31 | A key the rest of the input does not repeat keeps its accumulated value |
| DecodeFacts.DocumentFromComplete | main.go:16-31 | With distinct input keys, every kept input entry appears in the output under its original key, with its decoded value |
| DecodeFacts.DocumentFromCrash | main.go:25 | The document loop panics exactly when a decoded entry panics |
| DecodeFacts.DocumentMeaning | main.go:13-33 | With distinct input keys, the document panics exactly when an entry panics. Otherwise the output holds exactly the kept entries, under their untrimmed keys, with non-nil values |
| DecodeFacts.DocumentSize | main.go:16-31 | The output keys are input keys, and there are no more of them than input entries |
| Sorting.SortStrings | main.go:114 | The keys end up in ascending byte-wise order and are a permutation of the keys before the sort |
| Transform.CriteriaChecks | main.go:35-84 | The two loops of criteriaChecks, early returns included, compute the decoder function `Decoder.CriteriaChecks` |
| Transform.NormalizeKeys | main.go:37-44 | The in-place key normalisation loop computes `Decoder.Normalize` |
| Transform.TransformList | main.go:124-148 | The list loop computes `Decoder.DecodeList` |
| Transform.TransformMap | main.go:86-122 | The map loops, the sort and the copy compute `Decoder.DecodeMap` |
| Transform.MergeAttributes | main.go:98-105 | The inner loop of transformMap computes `Decoder.MergeInner` |
| Transform.SortedCopy | main.go:109-121 | Collecting, sorting and copying the keys yields a map equal to the unsorted result |
| Transform.CollectKeys | main.go:109-112 | The collected keys are exactly the map's keys, each listed once |
| Transform.Rebuild | main.go:116-119 | Copying every key's entry into a new map reproduces the map |
| Transform.TransformationCriteria | main.go:13-33 | The document loop computes `Decoder.Document` |
| Fixtures.StringEmpty | main_test.go:15 | `""` converts to nil |
| Fixtures.StringTrimmed | main_test.go:16 | `"1234  "` converts to `"1234"` |
| Fixtures.StringTimestamp | main_test.go:17 | `"2014-07-16T20:55:46Z"` converts to 1405544146 |
| Fixtures.NumericFloat | main_test.go:35 | `"1.50"` converts to the float 1.5 |
| Fixtures.NumericLeadingZero | main_test.go:36 | `"011  "` converts to the integer 11 |
| Fixtures.NumericInvalid | main_test.go:37 | `"5215s"` converts to nil |
| Fixtures.BoolInvalid | main_test.go:55 | `"1.50"` is no boolean |
| Fixtures.BoolLeadingSpace | main_test.go:56 | `" t"` converts to true |
| Fixtures.BoolTrailingSpace | main_test.go:57 | `"0 "` converts to false |
| DecodeFixtures.ListFixture | main_test.go:69-115 | The list fixture decodes to `[11, false]` |
| DecodeFixtures.MergeFixture | main_test.go:117-176 | The attributes of the map fixture merge to `{"list_1": [11, false], "null_1": true}`; `"truthy"` is dropped |
| DecodeFixtures.MapFixture | main_test.go:117-176 | The map fixture decodes to `{"list_1": [11, false], "null_1": true}` |
| DecodeFixtures.TruthyItem | main_test.go:120-122 | `{"BOOL": "truthy"}` decodes to nil |
| DecodeFixtures.PaddedNullItem | main_test.go:123-125 | `{"NULL ": "true"}` decodes to true through its trimmed alias |
| DecodeFixtures.ListItem | main_test.go:126-144 | An `L` node holding the list fixture decodes to `[11, false]` |
| DecodeFixtures.NoopListEntry | main_test.go:218-220 | `{"L": "noop"}` decodes to nil |
| DecodeFixtures.NoopItemsEntry | main_test.go:221-225 | `{"L": ["noop"]}` decodes to nil |
| DecodeFixtures.DocumentFixture | main_test.go:178-266 | The end-to-end fixture converts to `{"map_1": …, "number_1": 1.5, "string_1": "784498", "string_2": 1405544146}`, dropping `list_2`, `list_3` and the blank key |
| DecodeFixtures.StringAttribute | main.go:51-52 | A single `S` attribute with a string value decodes to the string conversion of that value |
| DecodeFixtures.NumberAttribute | main.go:53-54 | A single `N` attribute with a string value decodes to the numeric conversion |
| DecodeFixtures.BoolAttribute | main.go:55-56 | A single `BOOL` attribute with a string value decodes to the boolean conversion |
| DecodeFixtures.NullAttribute | main.go:57-66 | A single `NULL` attribute with a string value decodes to the null conversion |
| DecodeFixtures.ListAttribute | main.go:67-76 | A single `L` attribute holding an array decodes to that list's decoding |
| DecodeFixtures.ListNotArray | main.go:68-71 | A single `L` attribute whose value is not an array decodes to nil |
| DecodeFixtures.MapAttribute | main.go:77-78 | A single `M` attribute decodes to the map conversion of the whole node |

## Left out

- `main()` (main.go:222-242) is not modelled. It reads `input.json`, runs `json.Unmarshal` and `json.Marshal`, logs, and measures time, all of which is I/O.
- Go's randomised map iteration order is not modelled. An object is one fixed sequence of entries. For nodes with several recognised tags, or for attribute keys that collide across outer entries, Go may pick a different winner on different runs.
- Go's `criteriaChecks` stores aliases in the caller's map. The model stores them in a local copy. The caller can read that map again: `transformMap` receives the node with both `"M "` and its alias `"M"` (main.go:78), bound to the same inner map, so its loop (main.go:89-105) visits that inner map twice, the second time after the first visit has normalised it. The copy gives the same result because normalising twice is normalising once (Renormalize.CriteriaChecksNormalized). The first visit also normalises the nodes nested inside that map; the same lemma applies at each level, but no lemma states it for the whole tree. Go also does not say whether a `range` visits keys that are added while it runs. The added keys are already trimmed, so visiting them changes nothing either way.
- Scalars.ParseFloat: the value is the exact decimal, as a real. float64 rounding is not modelled. Neither is the range error that makes Go return nil for text like `"1.0e400"`. Hexadecimal floats, `Inf`, `NaN` and `_` separators are not accepted by the model.
- Timestamp.ParseRfc3339: only accepts the strict `YYYY-MM-DDThh:mm:ss[.frac](Z|±hh:mm)` form, with every field exactly two digits and the year four. Go falls back to its general layout parser, which is more lenient: it also accepts a one-digit hour, for example. That leniency is not modelled. Fractional seconds are skipped because `Unix()` ignores them.
- The check at main.go:62-64 is dead code and is not modelled. The type assertion at main.go:58 already panics on a non-string value.
- Invalid UTF-8 is not modelled. Strings are sequences of Unicode scalar values, so byte-wise order is code-point order.
- Sorting.SortStrings: the model proves the contract of `sort.Strings` with an insertion sort. The library's own algorithm is not modelled.
- The order of the rebuilt map in `transformMap` is not modelled. A Go map has no order, so the sort has no effect that the model could state beyond the map's equality with the unsorted result.
