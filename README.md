# hyperfind search settings: a Dafny model

This project models `SearchSettingsFrame`, hyperfind's settings form for one
Diamond search filter. The form is built from the filter's manifest, a flat
map of string properties:

- `Instance` and `Instance-Editable` give the instance name and whether it is editable.
- `Threshold` and `Threshold-Editable` give the drop threshold and whether it is editable.
- Each argument `i` is described by `Type-i`, `Label-i`, `Default-i`, `Minimum-i`, `Maximum-i` and `Increment-i`.
- Option `j` of a choice argument `i` is `Choice-j-i`, option index first: line 335 formats `%s-%d-%d` with `j` before `i`, as the doc comment's `Choice-JJ-II` says.

The form holds one field per argument: a check box, a text field, a number
spinner or a drop-down list. It also keeps a list of change listeners. The
filter's arguments are the texts of its fields:

- a check box gives `true` or `false`;
- a text field gives `*` for empty text and otherwise the base64 of its UTF-8 octets;
- a number gives a plain integer when its value is integral and fits an `int`, and otherwise `Double.toString`'s text (scientific notation for the integral values outside the `int` range, the only other numbers the model holds);
- a choice gives the selected index, `-1` when nothing is selected.

The model has two layers.

- `Manifest.Interpret` is a pure reference. It maps a property map to the form's settings or to the error that stops construction.
- `SearchSettings.SearchSettingsFrame` is a class. Its fields are the ones the Java object updates: the listener list, the instance name, the threshold spinner, whether each top-level field is shown, and the argument list. `SearchSettings.CreateFromProperties` builds one with the same two loops as the Java `createFromProperties`: the outer `Type-i` scan and the inner `Choice-j-i` scan. It is proved to fail exactly when `Interpret` fails, with the same error. Otherwise the new form's state is exactly `Interpret`'s result.

Supporting modules:

- `Fields`: the field kinds, the spinner's default clamp, the choice checks, and each field's argument text, with the read-back lemmas.
- `Decimal` and `Scientific`: Java's decimal text of integers.
  - `Integer.toString`, `Integer.parseInt`, and `new Double(...)` on integral literals.
  - The saturating `(int)` cast, and `Double.toString` in scientific notation for integral values outside the `int` range.
- `Base64` (RFC 4648 section 4, with padding) and `Utf8` (RFC 3629): the octet encodings behind string arguments.
- `Listeners`: the change-listener class.
- `Sequences`: counting, first-position and first-removal functions on sequences, behind listener registration and the drop-down's selection.

Two behaviours of the Java class that a reader of its doc comment (lines 340-375) might not expect:

- An explicit number default outside `Minimum`/`Maximum` stops construction. `SpinnerNumberModel`'s constructor throws for a value outside its bounds. The model reports this as `NumberOutOfRange`.
- The doc comment (lines 370-374) describes the options as a zero-indexed array, so a default must be an index of it. The check at line 282 refuses only a default at or past the end of the list, so a negative default gets through (see Findings). The rest of the model uses the corrected check, which also refuses a negative default.

## Model

| member | source | states |
|---|---|---|
| `Manifest.Property` | src/edu/cmu/cs/diamond/hyperfind/SearchSettingsFrame.java:328-331 | a property lookup gives Some exactly when the key is present, and then the key's value |
| `Manifest.KeyDigits` | src/edu/cmu/cs/diamond/hyperfind/SearchSettingsFrame.java:328-331 | the key of property `name` for index i is the name, a dash, and decimal digits that read back as i |
| `Manifest.KeyInjective` | src/edu/cmu/cs/diamond/hyperfind/SearchSettingsFrame.java:328-331 | `name-i` keys for different indices are different |
| `Manifest.ChoiceKeyDigits` | src/edu/cmu/cs/diamond/hyperfind/SearchSettingsFrame.java:333-338 | an option key is `Choice-`, digits that read back as the option index j, a dash, then digits that read back as the argument index i |
| `Manifest.ChoiceKeyInjective` | src/edu/cmu/cs/diamond/hyperfind/SearchSettingsFrame.java:333-338 | `Choice-j-i` keys are equal only for the same option of the same argument |
| `Manifest.ChoiceOptions` | src/edu/cmu/cs/diamond/hyperfind/SearchSettingsFrame.java:425-433 | the options of argument i are the values of Choice-0-i, Choice-1-i, ... in order; the option after the last one is absent |
| `Manifest.ParseArgument` | src/edu/cmu/cs/diamond/hyperfind/SearchSettingsFrame.java:402-437 | every argument built from a manifest has a sound field: a one-line text, a spinner inside its bounds, a selection among the choices |
| `Manifest.ParseArguments` | src/edu/cmu/cs/diamond/hyperfind/SearchSettingsFrame.java:396-438 | a successful scan keeps the arguments it was given, only appends, and keeps every field sound |
| `Manifest.Interpret` | src/edu/cmu/cs/diamond/hyperfind/SearchSettingsFrame.java:376-441 | a successful construction had an accepted Threshold, and gives a one-line instance name, sound argument fields, and a threshold spinner with minimum 0, no maximum and step 1 |
| `Manifest.ThresholdErrors` | src/edu/cmu/cs/diamond/hyperfind/SearchSettingsFrame.java:387-394 | a missing, non-integer or negative Threshold each stops construction with its own error; otherwise the construction fails exactly when the argument scan does, with its error |
| `Manifest.TopLevelSettings` | src/edu/cmu/cs/diamond/hyperfind/SearchSettingsFrame.java:378-394 | Instance defaults to "filter" and its newlines become spaces; the instance name is editable unless Instance-Editable is exactly "false"; the threshold is editable only when Threshold-Editable is exactly "true"; the threshold spinner starts at Threshold with minimum 0, no maximum and step 1 |
| `Manifest.ParseArgumentsSuccess` | src/edu/cmu/cs/diamond/hyperfind/SearchSettingsFrame.java:396-438 | a successful scan from index i keeps what it was given and appends exactly the arguments of i, i+1, ... up to the first missing Type key |
| `Manifest.DescribesIndices` | src/edu/cmu/cs/diamond/hyperfind/SearchSettingsFrame.java:396-400 | the scanned arguments are, position by position, the arguments of consecutive present Type keys; the next Type key is absent |
| `Manifest.ArgumentsOfManifest` | src/edu/cmu/cs/diamond/hyperfind/SearchSettingsFrame.java:396-400 | the argument count is the length of the run of Type-0, Type-1, ... keys, and argument k is what index k describes |
| `Manifest.NoTypeZeroNoArguments` | src/edu/cmu/cs/diamond/hyperfind/SearchSettingsFrame.java:396-400 | with an accepted Threshold and no Type-0, there are no arguments, whatever later keys exist |
| `Manifest.ParseArgumentsFirstFailure` | src/edu/cmu/cs/diamond/hyperfind/SearchSettingsFrame.java:396-438 | if index f is the first faulty index of the scan, the scan fails with f's error |
| `Manifest.FirstFaultyArgument` | src/edu/cmu/cs/diamond/hyperfind/SearchSettingsFrame.java:396-438 | the first faulty argument description decides the construction's error |
| `Manifest.ParseArgumentsFailure` | src/edu/cmu/cs/diamond/hyperfind/SearchSettingsFrame.java:396-438 | a failed scan has a faulty index whose Type keys up to it are present, whose earlier indices are sound, and whose error is the scan's error |
| `Manifest.FailureHasFaultyArgument` | src/edu/cmu/cs/diamond/hyperfind/SearchSettingsFrame.java:396-438 | every failure past the threshold comes from one faulty argument, all earlier ones being sound |
| `Manifest.ArgumentErrors` | src/edu/cmu/cs/diamond/hyperfind/SearchSettingsFrame.java:402-437 | a missing Label is MissingLabel; a type other than boolean, string, number or choice is UnknownType naming the type; a labelled boolean or string argument is always built |
| `Manifest.NumberArgumentErrors` | src/edu/cmu/cs/diamond/hyperfind/SearchSettingsFrame.java:414-423 | the first of Default, Minimum, Maximum and Increment that is not a number literal is MalformedNumber naming its key; when all are literals, construction fails exactly when the start value is outside the bounds, with NumberOutOfRange, and in particular for an explicit Default outside them |
| `Manifest.ChoiceArgumentErrors` | src/edu/cmu/cs/diamond/hyperfind/SearchSettingsFrame.java:424-434 | a Default that is not a 32-bit integer is MalformedInteger naming its key; no Choice-0-i is EmptyChoiceList; a Default that is not an option index is ChoiceDefaultOutOfRange; with none of these faults the choice argument is built |
| `Manifest.ArgumentFields` | src/edu/cmu/cs/diamond/hyperfind/SearchSettingsFrame.java:408-434 | per type: a boolean is checked iff Default is exactly "true"; a string holds Default or "" with newlines made spaces; a number has the given bounds, Increment or 1, and Default or the clamped 0, within the bounds; a choice lists its options and selects the first option equal to the Default's one, or 0 |
| `Manifest.EditableManifest` | src/edu/cmu/cs/diamond/hyperfind/SearchSettingsFrame.java:305-311 | a built form is editable iff its instance name is editable, or its threshold is, or Type-0 exists |
| `Manifest.InterpretOfArguments` | src/edu/cmu/cs/diamond/hyperfind/SearchSettingsFrame.java:393-440 | past an accepted threshold the outcome is the top-level settings over the argument scan, or the scan's error |
| `Manifest.ArgumentKeyInjective` | src/edu/cmu/cs/diamond/hyperfind/SearchSettingsFrame.java:328-338 | every argument key names one property of one index, and none is a top-level key |
| `Manifest.ParseArgumentFrame` | src/edu/cmu/cs/diamond/hyperfind/SearchSettingsFrame.java:402-437 | an argument depends only on its own Type, Label, Default, Minimum, Maximum, Increment and Choice keys |
| `Manifest.InterpretFrame` | src/edu/cmu/cs/diamond/hyperfind/SearchSettingsFrame.java:376-441 | the result depends only on the top-level keys and the keys of indices up to the first missing Type |
| `Manifest.LaterArgumentIgnored` | src/edu/cmu/cs/diamond/hyperfind/SearchSettingsFrame.java:396-400 | past the first missing Type-n, setting or removing any key of a later index leaves the result unchanged |
| `Fields.InitialValue` | src/edu/cmu/cs/diamond/hyperfind/SearchSettingsFrame.java:217-224 | an explicit default is kept; otherwise 0 when allowed; with consistent bounds the start value is within them |
| `Fields.NewSpinner` | src/edu/cmu/cs/diamond/hyperfind/SearchSettingsFrame.java:214-228 | the spinner exists iff its start value is within the bounds; it keeps the bounds, the step and an explicit default |
| `Fields.ClampedDefault` | src/edu/cmu/cs/diamond/hyperfind/SearchSettingsFrame.java:217-224 | without a default and with consistent bounds: the start value is 0 when allowed, the minimum when it is above 0, the maximum when it is below 0 |
| `Fields.ExplicitDefault` | src/edu/cmu/cs/diamond/hyperfind/SearchSettingsFrame.java:226-227 | an explicit default is never clamped: the spinner exists iff it is within the bounds, and then starts there |
| `Fields.FilterNewlines` | src/edu/cmu/cs/diamond/hyperfind/SearchSettingsFrame.java:175-177 | a text field's text has no newline: each newline of the given text becomes a space and every other character is kept; a one-line text is kept as it is |
| `Fields.CheckChoiceAsWritten` | src/edu/cmu/cs/diamond/hyperfind/SearchSettingsFrame.java:279-284 | as written: an empty list is NoChoices exactly when there are no choices |
| `Fields.CheckChoice` | src/edu/cmu/cs/diamond/hyperfind/SearchSettingsFrame.java:279-284 | accepted iff there is a choice and the default, if given, is an index of the list; NoChoices exactly for an empty list |
| `Fields.NewChoice` | src/edu/cmu/cs/diamond/hyperfind/SearchSettingsFrame.java:258-263 | the drop-down lists the choices and selects the default's item, or the first choice; the reported index is the first position holding that item, so it is at most the default |
| `Fields.NewChoiceAsWritten` | src/edu/cmu/cs/diamond/hyperfind/SearchSettingsFrame.java:258-263 | past the written check: a default of -1 leaves nothing selected, a default below -1 makes the drop-down refuse it, and any other default behaves as in the corrected model |
| `Fields.CheckChoiceAsWrittenAdmitsNegative` | src/edu/cmu/cs/diamond/hyperfind/SearchSettingsFrame.java:282-284 | the written and the corrected check differ exactly on a negative default over a non-empty list; -1 over two options gets through, leaves nothing selected and gives the text "-1" |
| `Fields.BooleanText` | src/edu/cmu/cs/diamond/hyperfind/SearchSettingsFrame.java:162-165 | a boolean argument is "true" or "false", and reading it back as a default restores the state |
| `Fields.StringText` | src/edu/cmu/cs/diamond/hyperfind/SearchSettingsFrame.java:196-205 | the argument is "*" exactly for the empty text |
| `Fields.StringRoundTrip` | src/edu/cmu/cs/diamond/hyperfind/SearchSettingsFrame.java:196-205 | decoding a string argument ("*", or base64 of UTF-8) gives the text back |
| `Fields.NumberText` | src/edu/cmu/cs/diamond/hyperfind/SearchSettingsFrame.java:238-248 | a number argument reads back as its value, and it is a plain integer literal exactly when the value fits an int |
| `Fields.ChoiceText` | src/edu/cmu/cs/diamond/hyperfind/SearchSettingsFrame.java:272-275 | a choice argument is the decimal text of the selected index, and reads back as it |
| `Fields.Encode` | src/edu/cmu/cs/diamond/hyperfind/SearchSettingsFrame.java:162-275 | the text of a sound field reads back, under the field's kind, bounds and choices, as exactly that field |
| `Fields.EncodeAllAppend` | src/edu/cmu/cs/diamond/hyperfind/SearchSettingsFrame.java:290-292 | adding an argument appends its text and leaves the earlier texts unchanged |
| `Fields.EncodeAllReadBack` | src/edu/cmu/cs/diamond/hyperfind/SearchSettingsFrame.java:288-294 | every entry of the argument list reads back as the field at the same position |
| `Decimal.IntToString` | src/edu/cmu/cs/diamond/hyperfind/SearchSettingsFrame.java:244 | Integer.toString's text reads back as the same integer |
| `Decimal.ParseInt` | src/edu/cmu/cs/diamond/hyperfind/SearchSettingsFrame.java:387 | parseInt succeeds exactly on signed decimal literals whose value fits 32 bits, and then gives that value |
| `Decimal.ParseIntOfIntToString` | src/edu/cmu/cs/diamond/hyperfind/SearchSettingsFrame.java:387 | parseInt reads back a rendered integer exactly when it fits 32 bits |
| `Decimal.ParseNumberLiteral` | src/edu/cmu/cs/diamond/hyperfind/SearchSettingsFrame.java:418-422 | a literal without surrounding blanks reads as a signed decimal integer |
| `Decimal.IntValue` | src/edu/cmu/cs/diamond/hyperfind/SearchSettingsFrame.java:300-303 | the int conversion of the threshold keeps values within 32 bits and saturates at the bounds outside them |
| `Scientific.DoubleTextRoundTrip` | src/edu/cmu/cs/diamond/hyperfind/SearchSettingsFrame.java:246 | Double.toString of a large integral value is not a plain integer literal, and its scientific notation reads back as the value |
| `Base64.RoundTrip` | src/edu/cmu/cs/diamond/hyperfind/SearchSettingsFrame.java:203 | base64 decoding inverts encoding for every octet sequence |
| `Utf8.RoundTrip` | src/edu/cmu/cs/diamond/hyperfind/SearchSettingsFrame.java:203 | UTF-8 decoding inverts encoding for every text |
| `Sequences.RemoveFirst` | src/edu/cmu/cs/diamond/hyperfind/SearchSettingsFrame.java:317-319 | List.remove leaves a list without the listener unchanged, and otherwise makes it one shorter |
| `Sequences.OccurrencesAppend` | src/edu/cmu/cs/diamond/hyperfind/SearchSettingsFrame.java:313-315 | registering x adds one registration of x and none of anyone else |
| `Sequences.RemoveFirstCutsFirst` | src/edu/cmu/cs/diamond/hyperfind/SearchSettingsFrame.java:317-319 | removal drops the first registration of the listener and keeps the others in order; an absent listener changes nothing |
| `Sequences.RemoveFirstOccurrences` | src/edu/cmu/cs/diamond/hyperfind/SearchSettingsFrame.java:317-319 | removal takes away one registration of that listener, if any, and none of any other |
| `Sequences.RemoveAfterAdd` | src/edu/cmu/cs/diamond/hyperfind/SearchSettingsFrame.java:313-319 | removing a listener just added, when it was not registered before, restores the list |
| `Listeners.ChangeListener.StateChanged` | src/edu/cmu/cs/diamond/hyperfind/SearchSettingsFrame.java:324 | a listener counts each change notification it receives |
| `SearchSettings.SearchSettingsFrame.constructor` | src/edu/cmu/cs/diamond/hyperfind/SearchSettingsFrame.java:68-108 | a new form has the given instance name with newlines made spaces, a threshold spinner at the threshold (minimum 0, step 1), the given visibility flags, no arguments and no listeners |
| `SearchSettings.SearchSettingsFrame.AddBoolean` | src/edu/cmu/cs/diamond/hyperfind/SearchSettingsFrame.java:168-170 | appends a check box with the given state; nothing else changes |
| `SearchSettings.SearchSettingsFrame.AddString` | src/edu/cmu/cs/diamond/hyperfind/SearchSettingsFrame.java:208-210 | appends a text field holding the default with newlines made spaces; nothing else changes |
| `SearchSettings.SearchSettingsFrame.AddNumber` | src/edu/cmu/cs/diamond/hyperfind/SearchSettingsFrame.java:251-255 | appends the spinner for the clamped default exactly when it fits the bounds; otherwise reports failure and nothing changes |
| `SearchSettings.SearchSettingsFrame.AddChoice` | src/edu/cmu/cs/diamond/hyperfind/SearchSettingsFrame.java:278-286 | reports the choice problem, if any, and then changes nothing; otherwise appends the drop-down with the default's item selected |
| `SearchSettings.SearchSettingsFrame.FilterArguments` | src/edu/cmu/cs/diamond/hyperfind/SearchSettingsFrame.java:288-294 | the loop returns the text of every argument field in order |
| `SearchSettings.SearchSettingsFrame.InstanceName` | src/edu/cmu/cs/diamond/hyperfind/SearchSettingsFrame.java:296-298 | gives the form's instance name, which has no newline |
| `SearchSettings.SearchSettingsFrame.Threshold` | src/edu/cmu/cs/diamond/hyperfind/SearchSettingsFrame.java:300-303 | gives the threshold: a non-negative int, saturated at the int maximum |
| `SearchSettings.SearchSettingsFrame.IsEditable` | src/edu/cmu/cs/diamond/hyperfind/SearchSettingsFrame.java:305-311 | true iff the instance name or the threshold is shown, or there is an argument |
| `SearchSettings.SearchSettingsFrame.AddChangeListener` | src/edu/cmu/cs/diamond/hyperfind/SearchSettingsFrame.java:313-315 | registers the listener after those already there |
| `SearchSettings.SearchSettingsFrame.RemoveChangeListener` | src/edu/cmu/cs/diamond/hyperfind/SearchSettingsFrame.java:317-319 | drops the listener's first registration |
| `SearchSettings.SearchSettingsFrame.FireChangeEvent` | src/edu/cmu/cs/diamond/hyperfind/SearchSettingsFrame.java:321-326 | notifies the listeners in registration order; each one receives one notification per registration |
| `SearchSettings.NewFrame` | src/edu/cmu/cs/diamond/hyperfind/SearchSettingsFrame.java:101-102 | no form is made exactly when the threshold is negative; otherwise a new, sound form with the given settings |
| `SearchSettings.ReadChoices` | src/edu/cmu/cs/diamond/hyperfind/SearchSettingsFrame.java:425-433 | the inner loop collects exactly the options of the argument |
| `SearchSettings.AddNumberArgument` | src/edu/cmu/cs/diamond/hyperfind/SearchSettingsFrame.java:414-423 | adds the number argument the index describes, or reports its error and changes nothing |
| `SearchSettings.AddChoiceArgument` | src/edu/cmu/cs/diamond/hyperfind/SearchSettingsFrame.java:424-434 | adds the choice argument the index describes, or reports its error and changes nothing |
| `SearchSettings.AddArgument` | src/edu/cmu/cs/diamond/hyperfind/SearchSettingsFrame.java:402-437 | one pass of the outer loop: adds the argument the index describes, or reports its error and changes nothing |
| `SearchSettings.AddArguments` | src/edu/cmu/cs/diamond/hyperfind/SearchSettingsFrame.java:396-438 | the outer loop adds exactly the scanned arguments, or stops with the scan's error |
| `SearchSettings.CreateFromProperties` | src/edu/cmu/cs/diamond/hyperfind/SearchSettingsFrame.java:376-441 | fails iff the manifest is faulty, with Interpret's error; otherwise gives a new sound form with no listeners whose state is Interpret's settings |

## Left out

- Swing layout and widgets are not modelled: `addField`, `addArgumentField`, the separator, `pack`, the Close button, window visibility, and the window title built from the filter name. `createFromProperties`'s `filterName` parameter is therefore not modelled.
- User edits to the fields are not modelled, nor are the per-widget change listeners that call `fireChangeEvent`. A field keeps the value it was built with. `FireChangeEvent` is modelled as a method that can be called directly.
- `main` is not modelled: it reads the manifest file and prints the results, which is I/O.
- Listeners are non-null: a null listener, which Java's list accepts, on which `fireChangeEvent` throws a NullPointerException before notifying the listeners after it, and which `remove(null)` drops, is not modelled.
- What a listener does with a notification is code outside this class. The model's listener only counts its notifications. The `ChangeEvent` object is not modelled.
- `isDisplayable()` is modelled as a flag saying the field was put on the form. That is the only way the code makes it true before the window is shown.
- Numbers are integers. Literals with a fraction or an exponent, `NaN` and `Infinity` are not modelled, so `Default`, `Minimum`, `Maximum` and `Increment` must be integral literals. The model reports any other literal as `MalformedNumber`. Otherwise the literal is trimmed as Java trims it.
- Decimal.ParseNumberLiteral: Java also accepts literals with a fraction, an exponent or a type suffix, and these are not modelled.
- `String.getBytes()` uses the platform's default character set. The model fixes it to UTF-8.
- Java strings can hold lone UTF-16 surrogates, which `getBytes()` replaces. Dafny characters are Unicode scalar values, so lone surrogates are not modelled.
- Errors are modelled as values naming the cause. Java throws `IllegalArgumentException`, or its subclass `NumberFormatException` from the number parsers, including `parseInt` on the null of a missing Threshold. The messages are not modelled. JComboBox's own throw for an index below -1 appears only in `Fields.NewChoiceAsWritten`: with the corrected check such a default is already refused.
- `Increment` is stored as given, with no check on its sign or size. The spinner model does not check it at construction either.
- SearchSettings.SearchSettingsFrame.constructor: the threshold parameter is typed as a non-negative integer no larger than the `int` maximum, as Java's `int` parameter holds. The spinner model's throw for a negative threshold is modelled by `SearchSettings.NewFrame`, which returns None. `Threshold`'s saturation clause covers a spinner value above the `int` range, which the Java form reaches only through user edits, and those are not modelled.
- Decimal.ParseInt: `Integer.parseInt` reads digits with `Character.digit`, so it also accepts non-ASCII Unicode decimal digits (Arabic-Indic digits, full-width digits). The model accepts only ASCII digits.
- Manifest.Key: `Formatter` writes `%d` with the default locale's digits. The model writes ASCII digits, which is what the Java class produces in a locale whose digits are ASCII.
- Decimal.ParseNumberLiteral: `new Double(...)` rounds a literal to the nearest double. The model keeps the exact integer, so for magnitudes above 2^53 the model's value can differ from Java's.
- Fields.NewSpinner: the literal `-0` is the double -0.0, which `Double.compareTo` orders below 0.0. The model reads it as 0, so `Default-0=-0` with `Minimum-0=0` is accepted here, while `SpinnerNumberModel` refuses it.
- Fields.NumberText: outside the `int` range the text is the model's exact scientific notation, not Java's shortest round-tripping double text; the two agree only for values that a double holds exactly and that need no more digits than Java prints.
- Scientific.DoubleText: the significand holds every significant decimal digit of the value. `Double.toString` prints the shortest digits that identify the double, so the two agree only up to 2^53 in magnitude and for larger values with few significant digits.
- Scientific.DoubleTextRoundTrip: it reads back the model's exact text, so it says nothing about the rounding of values above 2^53 that Java's doubles would do.
- Fields.StringText: `Util.base64Encode` is not part of this model. The text is taken to be RFC 4648 section 4 base64 with `=` padding.

## Findings

| source | as written | input that shows it | evidently intended | confidence | as-written member | corrected member |
|---|---|---|---|---|---|---|
| src/edu/cmu/cs/diamond/hyperfind/SearchSettingsFrame.java:282-283 | addChoice refuses a default only when it is at or past the number of choices | `Type-0=choice`, `Label-0=x`, `Choice-0-0=a`, `Choice-1-0=b`, `Default-0=-1`: the check passes, `setSelectedIndex(-1)` leaves the drop-down without a selection, and the argument text is "-1", which names no option | the default must be an index of the list, 0 <= default < number of choices | not executed | `Fields.CheckChoiceAsWrittenAdmitsNegative` | `Fields.CheckChoice` |
