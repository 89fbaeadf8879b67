/**
 * The four kinds of argument field of the settings form (SearchSettingsFrame's
 * BooleanField, StringField, SpinnerField and ChoiceField), how each is built
 * from its default, and the text each contributes to the filter arguments.
 */
module Fields {
  import opened Wrappers
  import opened Bytes
  import opened Decimal
  import opened Scientific
  import opened Sequences
  import Base64
  import Utf8

  /** The model behind a SpinnerField: current value, optional bounds and the step. */
  datatype Spinner = Spinner(value: int, minimum: Option<int>, maximum: Option<int>, increment: int)

  predicate InBounds(v: int, minimum: Option<int>, maximum: Option<int>) {
    (minimum.None? || minimum.value <= v) && (maximum.None? || v <= maximum.value)
  }

  /**
   * The value a SpinnerField starts with: the given default, or else 0 raised to
   * the minimum when below it, or else lowered to the maximum when above it.
   */
  function InitialValue(defl: Option<int>, minimum: Option<int>, maximum: Option<int>): (v: int)
    ensures defl.Some? ==> v == defl.value
    ensures defl.None? && InBounds(0, minimum, maximum) ==> v == 0
    ensures defl.None? && (minimum.None? || maximum.None? || minimum.value <= maximum.value) ==> InBounds(v, minimum, maximum)
  {
    match defl
    case Some(d) => d
    case None =>
      if minimum.Some? && 0 < minimum.value then minimum.value
      else if maximum.Some? && 0 > maximum.value then maximum.value
      else 0
  }

  /**
   * A SpinnerField for a default and bounds; None when the spinner model refuses
   * a starting value outside the bounds.
   */
  function NewSpinner(defl: Option<int>, minimum: Option<int>, maximum: Option<int>, increment: int): (r: Option<Spinner>)
    ensures r.Some? <==> InBounds(InitialValue(defl, minimum, maximum), minimum, maximum)
    ensures r.Some? ==> InBounds(r.value.value, r.value.minimum, r.value.maximum)
    ensures r.Some? ==> r.value.minimum == minimum && r.value.maximum == maximum && r.value.increment == increment
    ensures r.Some? && defl.Some? ==> r.value.value == defl.value
  {
    var v := InitialValue(defl, minimum, maximum);
    if InBounds(v, minimum, maximum) then Some(Spinner(v, minimum, maximum, increment)) else None
  }

  /**
   * Without a default the spinner always starts inside consistent bounds: at 0
   * when 0 is allowed, otherwise at the bound nearest to 0.
   */
  lemma ClampedDefault(minimum: Option<int>, maximum: Option<int>, increment: int)
    requires minimum.None? || maximum.None? || minimum.value <= maximum.value
    ensures NewSpinner(None, minimum, maximum, increment).Some?
    ensures var v := NewSpinner(None, minimum, maximum, increment).value.value;
      && InBounds(v, minimum, maximum)
      && (InBounds(0, minimum, maximum) ==> v == 0)
      && (minimum.Some? && minimum.value > 0 ==> v == minimum.value)
      && (maximum.Some? && maximum.value < 0 ==> v == maximum.value)
  {
  }

  /** An explicit default is never clamped: outside the bounds the field cannot be built. */
  lemma ExplicitDefault(d: int, minimum: Option<int>, maximum: Option<int>, increment: int)
    ensures NewSpinner(Some(d), minimum, maximum, increment).Some? <==> InBounds(d, minimum, maximum)
    ensures NewSpinner(Some(d), minimum, maximum, increment).Some? ==> NewSpinner(Some(d), minimum, maximum, increment).value.value == d
  {
  }

  datatype Field =
    | BooleanField(checked: bool)
    | StringField(text: string)
    | SpinnerField(spinner: Spinner)
    | ChoiceField(choices: seq<string>, selectedIndex: int)

  /** A field argument: the caption (its Label) shown beside it, and the field that holds the value. */
  datatype Argument = Argument(caption: string, field: Field)

  /**
   * What every field keeps: a text without newlines, a spinner inside its
   * bounds, and a selection that is the first position of the selected item.
   */
  predicate FieldValid(f: Field) {
    match f
    case StringField(text) => '\n' !in text
    case SpinnerField(s) => InBounds(s.value, s.minimum, s.maximum)
    case ChoiceField(choices, selectedIndex) =>
      0 <= selectedIndex < |choices| && FirstIndex(choices, choices[selectedIndex]) == selectedIndex
    case _ => true
  }

  /**
   * The text a JTextField holds when it is given s: its document has the
   * filterNewlines property, which turns every '\n' into a space.
   */
  function FilterNewlines(s: string): (r: string)
    ensures |r| == |s| && '\n' !in r
    ensures forall k | 0 <= k < |s| && s[k] != '\n' :: r[k] == s[k]
    ensures forall k | 0 <= k < |s| && s[k] == '\n' :: r[k] == ' '
    ensures '\n' !in s ==> r == s
  {
    seq(|s|, k requires 0 <= k < |s| => if s[k] == '\n' then ' ' else s[k])
  }

  predicate ArgumentsValid(args: seq<Argument>) {
    forall k | 0 <= k < |args| :: FieldValid(args[k].field)
  }

  // ---- choice fields ----

  datatype ChoiceProblem = NoChoices | DefaultOutOfRange

  /** addChoice's checks as the code has them: only an index at or past the end is refused. */
  function CheckChoiceAsWritten(count: nat, defl: Option<int>): (r: Option<ChoiceProblem>)
    ensures r == Some(NoChoices) <==> count == 0
  {
    if count == 0 then Some(NoChoices)
    else if defl.Some? && defl.value >= count then Some(DefaultOutOfRange)
    else None
  }

  /** addChoice's checks with the range closed at 0: the default must index one of the choices. */
  function CheckChoice(count: nat, defl: Option<int>): (r: Option<ChoiceProblem>)
    ensures r.None? <==> count > 0 && (defl.None? || 0 <= defl.value < count)
    ensures r == Some(NoChoices) <==> count == 0
  {
    if count == 0 then Some(NoChoices)
    else if defl.Some? && !(0 <= defl.value < count) then Some(DefaultOutOfRange)
    else None
  }

  /**
   * The ChoiceField for checked choices. The default's item is selected, or
   * else the first choice; getSelectedIndex then reports the first position
   * holding that item, which differs from the default when an earlier choice
   * has the same text.
   */
  function NewChoice(choices: seq<string>, defl: Option<int>): (f: Field)
    requires CheckChoice(|choices|, defl).None?
    ensures f.ChoiceField? && f.choices == choices && FieldValid(f)
    ensures f.choices[f.selectedIndex] == if defl.Some? then choices[defl.value] else choices[0]
    ensures defl.Some? ==> f.selectedIndex <= defl.value
    ensures defl.None? ==> f.selectedIndex == 0
  {
    ChoiceField(choices, if defl.Some? then FirstIndex(choices, choices[defl.value]) else 0)
  }

  /**
   * The ChoiceField the code builds past its own check: setSelectedIndex(-1)
   * clears the selection, so getSelectedIndex reports -1, and an index below
   * -1 makes JComboBox throw (None).
   */
  function NewChoiceAsWritten(choices: seq<string>, defl: Option<int>): (r: Option<Field>)
    requires CheckChoiceAsWritten(|choices|, defl).None?
    ensures r.None? <==> defl.Some? && defl.value < -1
    ensures defl == Some(-1) ==> r == Some(ChoiceField(choices, -1))
    ensures r.Some? && defl != Some(-1) ==> r == Some(NewChoice(choices, defl))
  {
    if defl.Some? && defl.value < -1 then None
    else if defl == Some(-1) then Some(ChoiceField(choices, -1))
    else Some(NewChoice(choices, defl))
  }

  /**
   * The two checks differ exactly on negative defaults, which the code lets
   * through; with the default -1 the form has no selection and the argument
   * text is "-1", which names no choice.
   */
  lemma CheckChoiceAsWrittenAdmitsNegative(count: nat, defl: Option<int>)
    ensures CheckChoiceAsWritten(count, defl) != CheckChoice(count, defl) <==> count > 0 && defl.Some? && defl.value < 0
    ensures CheckChoiceAsWritten(2, Some(-1)).None? && CheckChoice(2, Some(-1)) == Some(DefaultOutOfRange)
    ensures var f := NewChoiceAsWritten(["a", "b"], Some(-1));
      f == Some(ChoiceField(["a", "b"], -1)) && !FieldValid(f.value) && Encode(f.value) == "-1"
  {
    assert NatToString(1) == "1";
  }

  // ---- the argument text of each kind of field ----

  /** BooleanField: "true" when checked, "false" otherwise; read back as a default it gives the same state. */
  function BooleanText(selected: bool): (r: string)
    ensures r == "true" || r == "false"
    ensures BooleanDefault(Some(r)) == selected
  {
    if selected then "true" else "false"
  }

  /** A boolean default is checked exactly when it reads "true". */
  function BooleanDefault(defl: Option<string>): bool {
    defl == Some("true")
  }

  /** StringField: "*" for the empty text, otherwise the base64 of the text's octets. */
  function StringText(text: string): (r: string)
    ensures r == "*" <==> text == []
  {
    if text == [] then "*"
    else
      Utf8.EncodeEmpty(text);
      Base64.EncodeShape(Utf8.Encode(text));
      Base64.Encode(Utf8.Encode(text))
  }

  /** How the consumer reads a string argument back: "*" is the empty text, anything else base64 of UTF-8. */
  function StringFromText(a: string): Option<string> {
    if a == "*" then Some([])
    else
      match Base64.Decode(a)
      case None => None
      case Some(octets) => Utf8.Decode(octets)
  }

  /** Every text survives its string argument. */
  lemma StringRoundTrip(text: string)
    ensures StringFromText(StringText(text)) == Some(text)
  {
    if text != [] {
      Base64.RoundTrip(Utf8.Encode(text));
      Utf8.RoundTrip(text);
    }
  }

  /**
   * SpinnerField: a value that fits an int is written as a plain integer with no
   * trailing ".0"; a larger one goes through Double.toString. The text reads
   * back as the value, and it is a plain integer literal exactly within the int range.
   */
  function NumberText(v: int): (r: string)
    ensures NumberFromText(r) == Some(v)
    ensures Int32Min <= v <= Int32Max <==> ParseDecimal(r) == Some(v)
  {
    if Int32Min <= v <= Int32Max then IntToString(v)
    else
      DoubleTextRoundTrip(v);
      DoubleText(v)
  }

  /** How the consumer reads a number argument: a plain integer, or the scientific form. */
  function NumberFromText(a: string): Option<int> {
    match ParseDecimal(a)
    case Some(v) => Some(v)
    case None => ParseScientific(a)
  }

  /** ChoiceField: the selected index as a plain integer literal, which reads back as that index. */
  function ChoiceText(selected: int): (r: string)
    ensures ParseDecimal(r) == Some(selected)
  {
    IntToString(selected)
  }

  /**
   * The text of a field, as its toString produces it. The text of a sound
   * field reads back, under the field's kind, bounds and choices, as exactly that field.
   */
  function Encode(f: Field): (r: string)
    ensures FieldValid(f) ==> ReadBack(f, r) == Some(f)
  {
    match f
    case BooleanField(selected) => BooleanText(selected)
    case StringField(text) =>
      StringRoundTrip(text);
      StringText(text)
    case SpinnerField(s) => NumberText(s.value)
    case ChoiceField(_, selected) => ChoiceText(selected)
  }

  /** The argument list: the text of each field, in order. */
  function EncodeAll(args: seq<Argument>): (r: seq<string>)
    ensures |r| == |args|
    ensures forall k | 0 <= k < |args| :: r[k] == Encode(args[k].field)
  {
    seq(|args|, k requires 0 <= k < |args| => Encode(args[k].field))
  }

  /** Adding an argument adds its text at the end and leaves the earlier texts alone. */
  lemma EncodeAllAppend(args: seq<Argument>, a: Argument)
    ensures EncodeAll(args + [a]) == EncodeAll(args) + [Encode(a.field)]
  {
    assert (args + [a])[..|args|] == args;
  }

  /**
   * How the filter reads an argument text back into the field it came from:
   * the kind, the bounds and the choices are known, the value is what the text names.
   */
  function ReadBack(f: Field, a: string): Option<Field> {
    match f
    case BooleanField(_) =>
      if a == "true" then Some(BooleanField(true))
      else if a == "false" then Some(BooleanField(false))
      else None
    case StringField(_) =>
      var t := StringFromText(a);
      if t.Some? then Some(StringField(t.value)) else None
    case SpinnerField(s) =>
      var v := NumberFromText(a);
      if v.Some? && InBounds(v.value, s.minimum, s.maximum) then Some(SpinnerField(s.(value := v.value))) else None
    case ChoiceField(choices, _) =>
      var k := ParseDecimal(a);
      if k.Some? && 0 <= k.value < |choices| then Some(ChoiceField(choices, k.value)) else None
  }

  /** Every entry of the argument list reads back as the field at the same position. */
  lemma EncodeAllReadBack(args: seq<Argument>)
    requires ArgumentsValid(args)
    ensures forall k | 0 <= k < |args| :: ReadBack(args[k].field, EncodeAll(args)[k]) == Some(args[k].field)
  {
    forall k | 0 <= k < |args|
      ensures ReadBack(args[k].field, EncodeAll(args)[k]) == Some(args[k].field)
    {
      assert FieldValid(args[k].field);
    }
  }
}
