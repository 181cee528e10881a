# ChestShop item-code converter, modelled in Dafny

`converter.py` rewrites a list of shop items. A line holding an item code
`<name>#<id>` is replaced by a human-readable label, looked up by the code's
numeric id in an item store.

- **Decoding the id.** The id is written in base 62 over the alphabet
  `0-9a-zA-Z`, most significant symbol first.
- **Choosing the label.** The label comes from the stored item's metadata, in
  this order:
  - its custom display name, with surrounding double quotes removed;
  - otherwise its book title, unquoted;
  - otherwise a summary of its stored enchantments, such as
    `Enchanted Book [Sharpness V, Breach I]`.
- **Reading the display name.** A display name shaped like a JSON object is
  read as a rich-text component.
- **Writing the result.** All lines are written back at once, or the file is
  left as it was, or, when a label is not a string, it is left empty.

The project models that core in seven modules:

| module | contents |
|---|---|
| `Wrappers` | `Option` and `Result` |
| `Strings` | the Python string operations the converter calls: `str.index`, `str.strip`, one-character `str.split`, `str.join`, `str(int)` |
| `Base62` | `base62_decode` as a loop (`Decode`), the value it computes (`Decoded`/`Value`), and an encoder as its inverse |
| `Catalog` | the enchantment-name table (a list of bindings, last binding wins, as in a dictionary literal), the Roman numeral table, and the lookups of lines 225 and 228 |
| `DisplayName` | `extract_display_name` |
| `Enchantments` | `extract_enchantments`: the function `Summary` and the loop `ExtractEnchantments` |
| `Converter` | the label precedence, `decode_item_code_and_get_display_name`, and the line loop of `process_item_file_and_update` |

The bulk update is `Converter.ProcessItemLines`. It takes the per-code handler
as a parameter of type `Converter.Resolver`; `Converter.Handler` is the handler
the converter uses, the resolution `Converter.ResolveSpec` that the method
`Converter.ResolveItemCode` computes. Only lines holding `#` are resolved at
all (converter.py:253). The update has three outcomes (`Converter.Outcome`):

- `Unchanged`: a line holding `#` holds more than one, or its id part holds
  a symbol outside the alphabet. Those errors are raised inside the loop,
  before the per-item `try` (converter.py:277, 280), and escape to the outer
  handler (converter.py:271-272) before the file is opened, so it keeps its
  contents.
- `Emptied`: no line aborts, but some appended label (converter.py:257) is
  not a string. The file is opened for writing, which truncates it
  (converter.py:264), and only then does the join (converter.py:265) raise a
  `TypeError`, caught at converter.py:271-272.
- `Written(lines)`: otherwise; the file holds `Converter.WrittenText(lines)`.

The item store has two parameters:

- `lookup: nat -> Record` stands for the database, base64, Java deserialisation
  and YAML. `Record` is `Missing`, `Unreadable` (an error caught inside the
  handler) or `Loaded(meta)`.
- `parse: string -> Option<Component>` stands for `json.loads`; `None` is a
  decoding error.

## Behaviour of the code worth knowing

- **Quotes.** `strip('"')` (converter.py:180) removes every leading and
  trailing quote, not only one surrounding pair
  (`DisplayName.StripQuotesLayers`).
- **Errors are not per line.** The comment at converter.py:263 says the file
  is written "only after successful processing". A malformed code or a bad
  base-62 symbol raises outside the handler's `try` and abandons the whole
  update; it is not turned into "keep the line" (`Converter.LineAborts`,
  `Converter.ProcessItemLines`).
- **A failed write empties the file.** A truthy label that is not a string is
  appended like any other; the file is opened for writing before the join
  raises on it, so the file is left empty rather than untouched
  (`Converter.ProcessItemLines`).
- **Kept lines are stripped.** The comment at converter.py:259 says the
  original item is kept, and the one at 261 that normal items are kept "as
  they are", but the kept value is the line after `strip()` (converter.py:251),
  so surrounding white space is dropped.
- **Empty id part.** An empty id part (`Apple#`) decodes to 0 rather than
  failing (`Base62.ValueEmpty`).
- **The fallback label.** The bulk path's fallback is the falsy display-name
  value. The enchantment branch therefore never produces a label there for an
  item without enchantments, while the single-code report prints the item name
  (`Converter.FallbackDiffers`).

## Model

| member | source | states |
|---|---|---|
| Base62.Value | converter.py:110-115 | definition: the positional base-62 value, most significant symbol first |
| Base62.Decoded | converter.py:108-115 | definition: the value, or None when some character is not a symbol |
| Base62.Decode | converter.py:108-115 | the loop returns the positional base-62 value of the string, or None where `str.index` raises |
| Base62.DecodeFails | converter.py:112-113 | decoding fails exactly when some character of the input is outside the alphabet |
| Base62.SymbolPosition | converter.py:113 | the index of a character in the alphabet is its digit value for 0-9, a-z, A-Z, and there is none for any other character |
| Base62.Alphabet | converter.py:8 | definition: the 62 symbols, each at the position its code point gives |
| Base62.AlphabetParts | converter.py:8 | the alphabet is the ten digits, then the 26 lower-case letters, then the 26 upper-case letters |
| Base62.AlphabetLayout | converter.py:8 | the alphabet has 62 symbols, each at the position its code point gives |
| Base62.ValueEmpty | converter.py:110 | the empty string decodes to 0 |
| Base62.ValueSnoc | converter.py:112-114 | appending a symbol multiplies the value by 62 and adds the symbol's digit |
| Base62.ValueBound | converter.py:110-115 | the value of an n-symbol string is below 62^n |
| Base62.LeadingZero | converter.py:110-115 | a leading `0` symbol does not change the value |
| Base62.ValueExamples | converter.py:108-118 | "0" is 0, "10" is 62, "1Z" is 123, "2NV" is 2·62²+49·62+57 |
| Base62.DecodeEncode | converter.py:108-115 | decoding the canonical encoding of any natural number gives that number back |
| Strings.IndexOfSpec | converter.py:113 | `str.index` finds the first occurrence, and finds none exactly when the character is absent |
| Strings.IndexOf | converter.py:113 | definition: `str.index` of one character, the first position or None where it raises |
| Strings.Strip | converter.py:180 | stripping keeps the contiguous middle whose surroundings are all stripped characters and whose ends are not |
| Strings.StripUnique | converter.py:180 | that description determines the result |
| Strings.IsSpace | converter.py:251 | definition: the characters Python's `str.isspace` accepts, which `strip()` removes |
| Strings.StripIdempotent | converter.py:251 | stripping twice is stripping once |
| Strings.Split | converter.py:277 | `split` yields at least one part and no part contains the separator |
| Strings.SplitCount | converter.py:277 | `split` yields one part more than there are separators |
| Strings.JoinSplit | converter.py:277 | joining the parts of a split restores the string |
| Strings.SplitJoin | converter.py:265 | splitting a join of separator-free parts gives the parts back |
| Strings.Join | converter.py:232 | definition: `sep.join(parts)`, used here and for the written text at line 265 |
| Strings.DecimalRoundTrip | converter.py:228 | `int(str(n)) == n` for every integer |
| Strings.DecimalString | converter.py:228 | definition: `str(level)` for an integer, in decimal with a leading `-` when negative |
| Catalog.LastBinding | converter.py:46-91 | definition: `.get` on a dictionary literal with repeated keys: the last binding of the key among the first `n` |
| Catalog.LastBindingSpec | converter.py:46-91 | a lookup yields the last binding of the key in the table, and nothing exactly when the key is unbound |
| Catalog.LastBindingAt | converter.py:46-91 | a binding that no later binding of the same key overrides is the one a lookup finds |
| Catalog.SharpnessName | converter.py:59-85 | "minecraft:sharpness", bound twice, is named "Sharpness" |
| Catalog.BreachName | converter.py:89 | "minecraft:breach", the last binding, is named "Breach" |
| Catalog.EnchantmentName | converter.py:225 | definition: the table's last binding of the identifier, or the identifier itself |
| Catalog.Binding | converter.py:47-89 | definition: the 42 bindings of the name table, in source order, duplicates included |
| Catalog.Numeral | converter.py:228 | definition: the tabled Roman numeral, or `str(level)` |
| Catalog.RomanNumerals | converter.py:94-106 | definition: the levels 1 to 10 and their Roman numerals |
| Catalog.RomanNumeralRange | converter.py:94-106 | the Roman table covers exactly the levels 1 to 10 |
| Catalog.RomanTableCorrect | converter.py:94-106 | each tabled numeral is a numeral of I, V and X whose Roman value is its level |
| Catalog.NumeralRoundTrip | converter.py:228 | every level's numeral reads back as that level, as a Roman numeral for 1 to 10 and as decimal elsewhere |
| Catalog.NumeralInjective | converter.py:228 | distinct levels get distinct numerals |
| Catalog.NumeralCommaFree | converter.py:228 | no numeral contains a comma |
| DisplayName.ExtractDisplayName | converter.py:177-193 | definition: a non-string value's rendering; else the unquoted string, or its parsed component's rich text when it is `{…}`-shaped and parses |
| DisplayName.RichText | converter.py:195-210 | definition: a non-empty `text`, else the first `extra` element's string or `text`, else the empty string |
| DisplayName.Truthy | converter.py:256 | definition: Python truthiness of a label or metadata value, as tested here and at line 315 (a non-empty string, or the recorded truthiness of another value) |
| DisplayName.StripQuotes | converter.py:180 | definition: `strip('"')`, every leading and trailing quote removed |
| DisplayName.LooksLikeJson | converter.py:182 | definition: starts with `{` and ends with `}` |
| DisplayName.QuotesStripped | converter.py:180 | the unquoted value has no quote at either end, stripping again changes nothing, and a value without quotes at its ends is kept |
| DisplayName.StripQuotesLayers | converter.py:180 | `""My Sword""` unquotes to `My Sword`: both layers of quotes go |
| DisplayName.StripQuotesOnly | converter.py:180 | a string of quotes unquotes to the empty string |
| DisplayName.RawPassThrough | converter.py:179-190 | a string value that is not `{…}`-shaped, or fails to parse, gives the unquoted string, which has no quote at either end |
| DisplayName.ParsedComponent | converter.py:182-184 | a `{…}`-shaped value that parses gives the component's rich text |
| DisplayName.JsonUnquoted | converter.py:180-184 | a `{…}`-shaped value has no quotes to strip, so its parse decides |
| DisplayName.RawNameIsStable | converter.py:179-190 | extracting again from a name taken raw gives the same name |
| DisplayName.QuotedName | converter.py:179-190 | a name that has no quote at either end and is not `{…}`-shaped comes back without the one pair of quotes wrapped around it |
| DisplayName.RichTextSelection | converter.py:197-210 | a non-empty `text` wins; else the first element of a non-empty `extra`, a string or an object's `text`; else the empty string |
| DisplayName.RichTextOrigin | converter.py:197-210 | a non-empty rich-text name is the `text` field or comes from the first `extra` element |
| DisplayName.NameFromExtra | converter.py:199-208 | an empty `text` defers to the `text` of a leading `extra` object |
| Enchantments.ExtractEnchantments | converter.py:213-237 | the loop returns the fallback when there are no enchantments, else `Enchanted Book [` + the entries joined by `, ` + `]` |
| Enchantments.Entries | converter.py:223-229 | definition: one entry `name numeral` per stored enchantment, in storage order |
| Enchantments.Entry | converter.py:229 | definition: the entry `f"{name} {numeral}"` of one stored enchantment |
| Enchantments.Summary | converter.py:213-237 | definition: the fallback for missing or empty stored enchantments, else `Enchanted Book [` + the entries joined by `, ` + `]` |
| Enchantments.NoEnchantments | converter.py:215-219 | missing, null or empty stored enchantments give the fallback unchanged |
| Enchantments.SummaryOfEnchantments | converter.py:231-235 | stored enchantments always give a non-empty string that starts with the prefix and ends with `]`, so the final `else` is never taken |
| Enchantments.SummaryTruthyOrFallback | converter.py:213-237 | the summary is truthy or is the fallback itself |
| Enchantments.EntriesRecovered | converter.py:232 | with comma-free entries, splitting the joined text at commas gives every entry back, in order |
| Enchantments.BookEntries | converter.py:221-233 | with comma-free names, the text between the brackets splits into one entry per stored enchantment, in order |
| Enchantments.TwoEntries | converter.py:231-233 | two enchantments give `Enchanted Book [a, b]` |
| Enchantments.ExampleEntries | converter.py:225-229 | the entries of Sharpness 5 and Breach 1 are `Sharpness V` and `Breach I` |
| Enchantments.BookExample | converter.py:213-237 | Sharpness 5 and Breach 1 give `Enchanted Book [Sharpness V, Breach I]` |
| Converter.ChooseLabel | converter.py:313-324 | definition: the truthy display name, else the non-empty unquoted title, else the enchantment summary with the given fallback |
| Converter.BulkLabel | converter.py:313-324 | definition: the precedence with the display-name value itself as fallback (line 324) |
| Converter.ReportLabel | converter.py:155-167 | definition: the precedence with the item name as fallback (line 167) |
| Converter.Resolved | converter.py:288-307 | definition: no label for a missing or unreadable record, else the bulk label of its `meta`, empty when absent |
| Converter.ResolveSpec | converter.py:277-330 | definition: abort on a bad split or symbol, None for a missing or unreadable record, else the bulk label |
| Converter.ResolveItemCode | converter.py:275-330 | the handler aborts as the split and decoding dictate, gives None for a missing or unreadable record, and otherwise the precedence label |
| Converter.Handler | converter.py:275-330 | definition: `decode_item_code_and_get_display_name` as the resolver the bulk loop calls |
| Converter.DisplayNameFirst | converter.py:313-316 | a truthy display name decides the label, and the title, the enchantments and the fallback play no part |
| Converter.TitleSecond | converter.py:319-321 | otherwise a non-empty title decides, unquoted, and the enchantments and fallback play no part |
| Converter.EnchantmentsLast | converter.py:322-324 | with neither, the enchantment summary decides |
| Converter.BulkLabelIsText | converter.py:313-324 | every truthy label of the bulk path is a string |
| Converter.FallbackDiffers | converter.py:167 | an item with nothing to show is reported under its item name, but gives no label on the bulk path |
| Converter.LoadedLabel | converter.py:307 | an item without `meta` is read as one with empty metadata |
| Converter.MalformedExactly | converter.py:277 | a code aborts as malformed exactly when it does not hold exactly one `#` |
| Converter.ResolveWellFormed | converter.py:277-280 | a one-`#` code aborts exactly when its id part holds a foreign symbol, and otherwise resolves through the store under the decoded id |
| Converter.NameIgnored | converter.py:277-283 | the name part of a code plays no part in its resolution |
| Converter.ProcessItemLines | converter.py:248-272 | for any handler: the file is unchanged exactly when some line aborts; otherwise it is emptied exactly when some appended item is not a string; otherwise it holds one line per input line, in order, each that line's item |
| Converter.LineResult | converter.py:251-261 | definition: the item appended for a line (the stripped line, or the truthy label of its code), or the abort |
| Converter.LineKeptOrReplaced | converter.py:251-261 | an appended item is the stripped input line, or the truthy label of the code it holds |
| Converter.PlainLineKept | converter.py:253-261 | a line without `#` is kept, stripped |
| Converter.LineAborts | converter.py:253-280 | a line aborts exactly when it holds `#` and its code's resolution aborts |
| Converter.LineText | converter.py:255-257 | for a resolver whose truthy labels are all strings, every appended item is a string |
| Converter.HandlerLabels | converter.py:313-324 | every truthy label the bulk handler returns is a string |
| Converter.BulkLineAborts | converter.py:253-280 | with the bulk handler, a line aborts exactly when it holds `#` and its code fails to split or decode, and every appended item is a string, so the file is never emptied |
| Converter.LineStable | converter.py:250-261 | a written line processed again is unchanged when it is a kept line, or a label without `#` and without surrounding white space |
| Converter.WrittenText | converter.py:265 | definition: the lines joined by newlines, plus a final newline |
| Converter.WrittenNothing | converter.py:265 | an empty list is written as one newline, which splits into two empty lines |
| Converter.WrittenLines | converter.py:264-265 | the written text splits at newlines into the updated lines and an empty remainder |

## Left out

- The SQLite store, base64 decoding, Java deserialisation and YAML loading are
  foreign libraries and I/O. They are the `lookup` parameter. Any error inside
  the handler's `try` is the `Unreadable` record.
- `json.loads` is a foreign parser. It is the `parse` parameter, whose result
  keeps only the fields the extraction reads. An `extra` must be a list in the
  model, and a `text` must be a string. A truthy `extra` of any other kind is
  not modelled: a string gives its first character, and an object, a number or
  `true` makes `display_name_data['extra'][0]` (converter.py:202) raise a
  `KeyError` or `TypeError`. The handler's `except` (converter.py:328-330) then
  returns `None`, so the source keeps that line, stripped (converter.py:259).
- File reading and writing, `print` output and the `FileNotFoundError` branch
  are I/O. The write is modelled as the `Converter.Outcome` of the update, and
  its text by `Converter.WrittenText`.
- A label holding a lone surrogate (from a JSON `\ud800` escape) cannot be
  encoded as UTF-8, so the write at converter.py:265 raises after the file has
  been truncated, leaving it empty. Dafny's `char` cannot hold a lone
  surrogate, so the model does not capture this.
- The module-level call and the print-only `decode_item_code` are left out.
  The latter differs from the bulk handler only in its fallback. That fallback
  is modelled as `Converter.ReportLabel` and compared in
  `Converter.FallbackDiffers`.
- The legacy numeric `ENCHANTMENTS` table is left out, because no code reads it.
- The database connection and cursor (converter.py:283-284) are opened
  outside the handler's `try`; their failure would abandon the update like a
  malformed code, and is not part of this model.
- Only two shapes of metadata are modelled: a `title` that is a string, and
  `stored-enchants` that is a mapping from strings to integer levels, given in
  iteration order. What the source does with other shapes is not modelled:
  - a falsy `title` that is not a string (0, null, an empty list) falls
    through to the enchantments, and a truthy one makes `strip` raise inside
    the `try`;
  - a falsy `stored-enchants` that is not a mapping gives the fallback, and a
    truthy one makes `items()` raise inside the `try`;
  - a level that is not an integer is rendered by `ROMAN_NUMERAL_MAPPING.get(level,
    str(level))` (converter.py:228): `"5"` gives `5`, and `5.0` gives `V`.
- A display-name value that is not a string is kept only as its `str()`
  rendering and its truthiness (`Opaque`).
- Enchantments.BookEntries: takes as a precondition that the display names
  contain no comma. The precondition is needed: an identifier missing from the
  table is its own name (converter.py:225), and it may contain a comma. The
  table's own 42 names contain none, but the model does not prove that.
- Converter.HandlerLabels: holds because the parsed component's `text` fields
  are strings in the model. In the source, `{"text": 5}` is returned at
  converter.py:198 (or 208 for an `extra` object) and appended at 257; the
  file is then opened for writing (264), which truncates it, and the join at
  265 raises a `TypeError`, caught at 271-272, so the file is left empty.
  `Converter.ProcessItemLines` captures that outcome (`Emptied`) for any
  resolver, but the bulk handler in the model never yields such a label.
- Converter.BulkLineAborts: its "every appended item is a string, so the file
  is never emptied" rests on the same string-typed `text` fields; in the
  source a non-string rich-text `text` empties the file as just described.
- Converter.BulkLabelIsText: "a truthy bulk label is text" rests on the same
  string-typed `text` fields; a non-string rich-text `text` is a truthy label
  that is not a string in the source, and it empties the file.
