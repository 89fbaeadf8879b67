/**
 * The manifest interpreter: from a flat property map to the top-level settings
 * (instance name, threshold, whether each is editable) and the ordered list of
 * argument fields described by Type-i, Label-i, Default-i, Minimum-i,
 * Maximum-i, Increment-i and Choice-j-i. Interpret is the reference the
 * imperative construction is proved against.
 */
module Manifest {
  import opened Wrappers
  import opened Decimal
  import opened Fields
  import opened Sequences

  type Properties = map<string, string>

  /** Properties.getProperty: the value of a key, or None when it is absent. */
  function Property(p: Properties, key: string): (r: Option<string>)
    ensures r.Some? <==> key in p
    ensures r.Some? ==> r.value == p[key]
  {
    if key in p then Some(p[key]) else None
  }

  /** The key of property name for argument i: name, '-', then the decimal digits of i. */
  function Key(name: string, i: nat): string {
    name + "-" + NatToString(i)
  }

  /** The key of option j of argument i: "Choice-", the digits of j, '-', then the digits of i (option index first). */
  function ChoiceKey(i: nat, j: nat): string {
    "Choice-" + NatToString(j) + "-" + NatToString(i)
  }

  /** A key is the name and a dash, followed by decimal digits that read back as the index. */
  lemma KeyDigits(name: string, i: nat)
    ensures var r := Key(name, i);
      && |r| > |name| + 1 && r[..|name| + 1] == name + "-"
      && AllDigits(r[|name| + 1..]) && DigitsValue(r[|name| + 1..]) == i
  {
    DigitsValueOfNatToString(i);
    assert Key(name, i)[|name| + 1..] == NatToString(i);
  }

  /**
   * An option key is "Choice-", then digits that read back as the option
   * index, a dash, and digits that read back as the argument index.
   */
  lemma ChoiceKeyDigits(i: nat, j: nat)
    ensures var r := ChoiceKey(i, j);
      && |r| > 7 && r[..7] == "Choice-"
      && var rest := r[7..]; var d := IndexOf(rest, '-');
      && d < |rest| && AllDigits(rest[..d]) && DigitsValue(rest[..d]) == j
      && AllDigits(rest[d + 1..]) && DigitsValue(rest[d + 1..]) == i
  {
    var x := NatToString(j);
    var y := NatToString(i);
    DigitsValueOfNatToString(j);
    DigitsValueOfNatToString(i);
    DashSplit(x, y);
    var r := ChoiceKey(i, j);
    assert r == "Choice-" + (x + "-" + y);
    assert r[7..] == x + "-" + y;
  }

  /** Digits, a dash, then anything: the first dash is the one after the digits. */
  lemma DashSplit(x: string, y: string)
    requires AllDigits(x)
    ensures var rest := x + "-" + y;
      IndexOf(rest, '-') == |x| && rest[..|x|] == x && rest[|x| + 1..] == y
  {
    IndexOfSeparator(x, '-', y);
    var rest := x + "-" + y;
    assert rest[..|x|] == x;
    assert rest[|x| + 1..] == y;
  }

  const TypeLabel := "Type"

  function TypeKey(i: nat): string {
    Key(TypeLabel, i)
  }

  /** Different indices give different keys for the same property. */
  lemma KeyInjective(name: string, i: nat, k: nat)
    requires Key(name, i) == Key(name, k)
    ensures i == k
  {
    var n := |name| + 1;
    assert Key(name, i)[n..] == NatToString(i);
    assert Key(name, k)[n..] == NatToString(k);
    NatToStringInjective(i, k);
  }

  lemma SplitAtDash(a: string, b: string, c: string, d: string)
    requires AllDigits(a) && AllDigits(c)
    requires a + "-" + b == c + "-" + d
    ensures a == c && b == d
  {
    var s := a + "-" + b;
    IndexOfSeparator(a, '-', b);
    IndexOfSeparator(c, '-', d);
    assert |a| == |c|;
    assert s[..|a|] == a && (c + "-" + d)[..|c|] == c;
    assert s[|a| + 1..] == b && (c + "-" + d)[|c| + 1..] == d;
  }

  /** Two option keys are equal only for the same option of the same argument. */
  lemma ChoiceKeyInjective(i: nat, j: nat, i2: nat, j2: nat)
    requires ChoiceKey(i, j) == ChoiceKey(i2, j2)
    ensures i == i2 && j == j2
  {
    var prefix := "Choice-";
    var s := NatToString(j) + "-" + NatToString(i);
    var t := NatToString(j2) + "-" + NatToString(i2);
    assert ChoiceKey(i, j) == prefix + s && ChoiceKey(i2, j2) == prefix + t;
    assert (prefix + s)[|prefix|..] == s && (prefix + t)[|prefix|..] == t;
    SplitAtDash(NatToString(j), NatToString(i), NatToString(j2), NatToString(i2));
    NatToStringInjective(j, j2);
    NatToStringInjective(i, i2);
  }

  /** n distinct keys, all present, fit in the map: the bound that ends each scan. */
  lemma {:induction false} PrefixBound(keys: set<string>, f: nat -> string, n: nat)
    requires forall a: nat, b: nat | a < n && b < n && f(a) == f(b) :: a == b
    requires forall k: nat | k < n :: f(k) in keys
    ensures n <= |keys|
    decreases n
  {
    if n > 0 {
      var rest := keys - {f(n - 1)};
      assert forall k: nat | k < n - 1 :: f(k) in rest;
      PrefixBound(rest, f, n - 1);
    }
  }

  lemma TypeKeysBound(p: Properties, n: nat)
    requires forall k: nat | k < n :: TypeKey(k) in p
    ensures n <= |p.Keys|
  {
    forall a: nat, b: nat | a < n && b < n && TypeKey(a) == TypeKey(b) ensures a == b {
      KeyInjective(TypeLabel, a, b);
    }
    PrefixBound(p.Keys, (k: nat) => TypeKey(k), n);
  }

  /** A present Type-i extends the run of present Type keys by one, which still fits in the keys. */
  lemma TypeKeysExtend(p: Properties, i: nat)
    requires forall k: nat | k < i :: TypeKey(k) in p
    requires TypeKey(i) in p
    ensures forall k: nat | k < i + 1 :: TypeKey(k) in p
    ensures i + 1 <= |p.Keys|
  {
    TypeKeysBound(p, i + 1);
  }

  lemma ChoiceKeysBound(p: Properties, i: nat, n: nat)
    requires forall k: nat | k < n :: ChoiceKey(i, k) in p
    ensures n <= |p.Keys|
  {
    forall a: nat, b: nat | a < n && b < n && ChoiceKey(i, a) == ChoiceKey(i, b) ensures a == b {
      ChoiceKeyInjective(i, a, i, b);
    }
    PrefixBound(p.Keys, (k: nat) => ChoiceKey(i, k), n);
  }

  /** The options of argument i from option j on, appended to acc, up to the first missing Choice-j-i. */
  function CollectChoices(p: Properties, i: nat, j: nat, acc: seq<string>): seq<string>
    requires forall k: nat | k < j :: ChoiceKey(i, k) in p
    decreases |p.Keys| - j
  {
    if ChoiceKey(i, j) !in p then acc
    else
      ChoiceKeysBound(p, i, j + 1);
      CollectChoices(p, i, j + 1, acc + [p[ChoiceKey(i, j)]])
  }

  /**
   * The options of a choice argument: the values of Choice-0-i, Choice-1-i,
   * ... in order, up to the first missing one.
   */
  function ChoiceOptions(p: Properties, i: nat): (c: seq<string>)
    ensures forall j | 0 <= j < |c| :: ChoiceKey(i, j) in p && c[j] == p[ChoiceKey(i, j)]
    ensures ChoiceKey(i, |c|) !in p
  {
    CollectChoicesSpec(p, i, 0, []);
    CollectChoices(p, i, 0, [])
  }

  lemma {:induction false} CollectChoicesSpec(p: Properties, i: nat, j: nat, acc: seq<string>)
    requires forall k: nat | k < j :: ChoiceKey(i, k) in p
    requires |acc| == j && forall k | 0 <= k < j :: acc[k] == p[ChoiceKey(i, k)]
    ensures var c := CollectChoices(p, i, j, acc);
      && |c| >= j
      && (forall k | 0 <= k < |c| :: ChoiceKey(i, k) in p && c[k] == p[ChoiceKey(i, k)])
      && ChoiceKey(i, |c|) !in p
    decreases |p.Keys| - j
  {
    if ChoiceKey(i, j) in p {
      ChoiceKeysBound(p, i, j + 1);
      CollectChoicesSpec(p, i, j + 1, acc + [p[ChoiceKey(i, j)]]);
    }
  }

  datatype Error =
    | MissingThreshold
    | MalformedInteger(key: string)
    | ThresholdOutOfRange
    | MissingLabel(index: nat)
    | UnknownType(index: nat, typeName: string)
    | MalformedNumber(key: string)
    | NumberOutOfRange(index: nat)
    | EmptyChoiceList(index: nat)
    | ChoiceDefaultOutOfRange(index: nat)

  /** new Double(...) on an optional property. */
  function OptionalNumber(p: Properties, key: string): Result<Option<int>, Error> {
    match Property(p, key)
    case None => Success(None)
    case Some(text) =>
      match ParseNumberLiteral(text)
      case Some(v) => Success(Some(v))
      case None => Failure(MalformedNumber(key))
  }

  /** new Integer(...) on an optional property. */
  function OptionalInteger(p: Properties, key: string): Result<Option<int>, Error> {
    match Property(p, key)
    case None => Success(None)
    case Some(text) =>
      match ParseInt(text)
      case Some(v) => Success(Some(v))
      case None => Failure(MalformedInteger(key))
  }

  /** A number argument: its optional Default, Minimum, Maximum and Increment, read in that order. */
  function NumberArgument(p: Properties, i: nat, caption: string): (r: Result<Argument, Error>)
    ensures r.Success? ==> FieldValid(r.value.field)
  {
    var d :- OptionalNumber(p, Key("Default", i));
    var minimum :- OptionalNumber(p, Key("Minimum", i));
    var maximum :- OptionalNumber(p, Key("Maximum", i));
    var increment :- OptionalNumber(p, Key("Increment", i));
    match NewSpinner(d, minimum, maximum, increment.GetOr(1))
    case None => Failure(NumberOutOfRange(i))
    case Some(s) => Success(Argument(caption, SpinnerField(s)))
  }

  /** A choice argument: its optional Default, then its options. */
  function ChoiceArgument(p: Properties, i: nat, caption: string): (r: Result<Argument, Error>)
    ensures r.Success? ==> FieldValid(r.value.field)
  {
    var d :- OptionalInteger(p, Key("Default", i));
    var choices := ChoiceOptions(p, i);
    match CheckChoice(|choices|, d)
    case Some(NoChoices) => Failure(EmptyChoiceList(i))
    case Some(DefaultOutOfRange) => Failure(ChoiceDefaultOutOfRange(i))
    case None => Success(Argument(caption, NewChoice(choices, d)))
  }

  /** The field argument i describes, for a present Type-i. */
  function ParseArgument(p: Properties, i: nat): (r: Result<Argument, Error>)
    requires TypeKey(i) in p
    ensures r.Success? ==> FieldValid(r.value.field)
  {
    var typeName := p[TypeKey(i)];
    match Property(p, Key("Label", i))
    case None => Failure(MissingLabel(i))
    case Some(caption) =>
      var defl := Property(p, Key("Default", i));
      if typeName == "boolean" then
        Success(Argument(caption, BooleanField(BooleanDefault(defl))))
      else if typeName == "string" then
        Success(Argument(caption, StringField(FilterNewlines(defl.GetOr("")))))
      else if typeName == "number" then
        NumberArgument(p, i, caption)
      else if typeName == "choice" then
        ChoiceArgument(p, i, caption)
      else
        Failure(UnknownType(i, typeName))
  }

  /** The arguments from index i on, appended to acc; the scan stops at the first missing Type-i. */
  function ParseArguments(p: Properties, i: nat, acc: seq<Argument>): (r: Result<seq<Argument>, Error>)
    requires forall k: nat | k < i :: TypeKey(k) in p
    ensures r.Success? ==> |r.value| >= |acc| && r.value[..|acc|] == acc
    ensures r.Success? && ArgumentsValid(acc) ==> ArgumentsValid(r.value)
    decreases |p.Keys| - i
  {
    if TypeKey(i) !in p then Success(acc)
    else
      TypeKeysBound(p, i + 1);
      match ParseArgument(p, i)
      case Failure(e) => Failure(e)
      case Success(a) =>
        assert ArgumentsValid(acc) ==> ArgumentsValid(acc + [a]);
        var r := ParseArguments(p, i + 1, acc + [a]);
        assert r.Success? ==> r.value[..|acc|] == r.value[..|acc + [a]|][..|acc|];
        r
  }

  /** One step of the argument scan: the end at a missing Type-i, a fault at i, or on to i + 1. */
  lemma ParseArgumentsStep(p: Properties, i: nat, acc: seq<Argument>)
    requires forall k: nat | k < i :: TypeKey(k) in p
    ensures TypeKey(i) !in p ==> ParseArguments(p, i, acc) == Success(acc)
    ensures TypeKey(i) in p && ParseArgument(p, i).Failure? ==>
      ParseArguments(p, i, acc) == Failure(ParseArgument(p, i).error)
    ensures TypeKey(i) in p && ParseArgument(p, i).Success? ==>
      ParseArguments(p, i, acc) == ParseArguments(p, i + 1, acc + [ParseArgument(p, i).value])
  {
  }

  /** Adding the argument of a present Type-i moves the scan on to i + 1 without changing its outcome. */
  lemma ParseArgumentsAdvance(p: Properties, i: nat, before: seq<Argument>, after: seq<Argument>)
    requires forall k: nat | k < i + 1 :: TypeKey(k) in p
    requires ParseArgument(p, i).Success? && after == before + [ParseArgument(p, i).value]
    ensures ParseArguments(p, i + 1, after) == ParseArguments(p, i, before)
  {
  }

  /** The settings a manifest describes, apart from the argument fields. */
  function InstanceName(p: Properties): string {
    Property(p, "Instance").GetOr("filter")
  }

  function InstanceEditable(p: Properties): bool {
    Property(p, "Instance-Editable") != Some("false")
  }

  function ThresholdEditable(p: Properties): bool {
    Property(p, "Threshold-Editable") == Some("true")
  }

  /** The state of a settings form: what SearchSettingsFrame holds, as a value. */
  datatype Settings = Settings(
    instanceName: string,
    instanceEditable: bool,
    threshold: Spinner,
    thresholdEditable: bool,
    arguments: seq<Argument>)

  /** The threshold spinner of a form: minimum 0, no maximum, step 1. */
  function ThresholdSpinner(threshold: int): Option<Spinner> {
    NewSpinner(Some(threshold), Some(0), None, 1)
  }

  /** The form has something to edit: a shown instance name, a shown threshold, or an argument. */
  predicate Editable(s: Settings) {
    s.instanceEditable || s.thresholdEditable || |s.arguments| > 0
  }

  /** What createFromProperties builds from a manifest, or the error that stops it. */
  function Interpret(p: Properties): (r: Result<Settings, Error>)
    ensures r.Success? ==> ThresholdAccepted(p)
    ensures r.Success? ==> '\n' !in r.value.instanceName && ArgumentsValid(r.value.arguments)
    ensures r.Success? ==> ThresholdSpinner(r.value.threshold.value) == Some(r.value.threshold)
  {
    match Property(p, "Threshold")
    case None => Failure(MissingThreshold)
    case Some(text) =>
      match ParseInt(text)
      case None => Failure(MalformedInteger("Threshold"))
      case Some(t) =>
        match ThresholdSpinner(t)
        case None => Failure(ThresholdOutOfRange)
        case Some(threshold) =>
          var args :- ParseArguments(p, 0, []);
          Success(Settings(FilterNewlines(InstanceName(p)), InstanceEditable(p), threshold, ThresholdEditable(p), args))
  }

  // ---- what Interpret promises ----

  /** Threshold is present, a 32-bit integer, and not negative (the threshold spinner's minimum is 0). */
  predicate ThresholdAccepted(p: Properties) {
    "Threshold" in p && ParseInt(p["Threshold"]).Some? && ParseInt(p["Threshold"]).value >= 0
  }

  /** A missing, malformed or negative Threshold stops the construction; otherwise the arguments decide. */
  lemma ThresholdErrors(p: Properties)
    ensures "Threshold" !in p ==> Interpret(p) == Failure(MissingThreshold)
    ensures "Threshold" in p && ParseInt(p["Threshold"]).None? ==> Interpret(p) == Failure(MalformedInteger("Threshold"))
    ensures "Threshold" in p && ParseInt(p["Threshold"]).Some? && ParseInt(p["Threshold"]).value < 0 ==>
      Interpret(p) == Failure(ThresholdOutOfRange)
    ensures ThresholdAccepted(p) ==>
      (Interpret(p).Success? <==> ParseArguments(p, 0, []).Success?) &&
      (Interpret(p).Failure? ==> Interpret(p).error == ParseArguments(p, 0, []).error)
  {
  }

  /**
   * The top-level settings: Instance defaults to "filter"; the instance name is
   * editable unless Instance-Editable is exactly "false"; the threshold is the
   * value of Threshold and is editable only when Threshold-Editable is exactly "true".
   */
  lemma TopLevelSettings(p: Properties)
    requires Interpret(p).Success?
    ensures var s := Interpret(p).value;
      && s.instanceName == FilterNewlines(if "Instance" in p then p["Instance"] else "filter")
      && (s.instanceEditable <==> !("Instance-Editable" in p && p["Instance-Editable"] == "false"))
      && (s.thresholdEditable <==> "Threshold-Editable" in p && p["Threshold-Editable"] == "true")
      && ThresholdAccepted(p)
      && s.threshold == Spinner(ParseInt(p["Threshold"]).value, Some(0), None, 1)
  {
  }

  /** args are the arguments of indices i, i + 1, ..., and Type-(i + |args|) is the first missing type. */
  ghost predicate Describes(p: Properties, i: nat, args: seq<Argument>)
    decreases |args|
  {
    if args == [] then TypeKey(i) !in p
    else TypeKey(i) in p && ParseArgument(p, i) == Success(args[0]) && Describes(p, i + 1, args[1..])
  }

  lemma {:induction false} ParseArgumentsSuccess(p: Properties, i: nat, acc: seq<Argument>)
    requires forall k: nat | k < i :: TypeKey(k) in p
    requires ParseArguments(p, i, acc).Success?
    ensures var r := ParseArguments(p, i, acc).value;
      |r| >= |acc| && r[..|acc|] == acc && Describes(p, i, r[|acc|..])
    decreases |p.Keys| - i
  {
    ParseArgumentsStep(p, i, acc);
    var r := ParseArguments(p, i, acc).value;
    if TypeKey(i) in p {
      TypeKeysExtend(p, i);
      var a := ParseArgument(p, i).value;
      var acc' := acc + [a];
      ParseArgumentsSuccess(p, i + 1, acc');
      assert r == ParseArguments(p, i + 1, acc').value;
      assert r[..|acc|] == acc'[..|acc|] == acc;
      var rest := r[|acc|..];
      assert rest[0] == acc'[|acc|] == a;
      assert rest[1..] == r[|acc'|..];
      assert Describes(p, i, rest);
    } else {
      assert r[|acc|..] == [];
    }
  }

  lemma {:induction false} DescribesIndices(p: Properties, i: nat, args: seq<Argument>)
    requires Describes(p, i, args)
    ensures forall k | i <= k < i + |args| :: TypeKey(k) in p && ParseArgument(p, k) == Success(args[k - i])
    ensures TypeKey(i + |args|) !in p
    decreases |args|
  {
    if args != [] {
      DescribesIndices(p, i + 1, args[1..]);
      forall k | i <= k < i + |args|
        ensures TypeKey(k) in p && ParseArgument(p, k) == Success(args[k - i])
      {
        if k > i {
          assert args[k - i] == args[1..][k - (i + 1)];
        }
      }
    }
  }

  /**
   * The arguments are one per index 0, 1, ... up to the first missing Type-i
   * (later indices are never read), and argument k is what index k describes.
   */
  lemma ArgumentsOfManifest(p: Properties)
    requires Interpret(p).Success?
    ensures var args := Interpret(p).value.arguments;
      && (forall k: nat | k < |args| :: TypeKey(k) in p && ParseArgument(p, k) == Success(args[k]))
      && TypeKey(|args|) !in p
  {
    ParseArgumentsSuccess(p, 0, []);
    var args := ParseArguments(p, 0, []).value;
    assert args[0..] == args;
    DescribesIndices(p, 0, args);
  }

  /** Without Type-0 there are no arguments, whatever else the manifest holds. */
  lemma NoTypeZeroNoArguments(p: Properties)
    requires ThresholdAccepted(p) && TypeKey(0) !in p
    ensures Interpret(p).Success? && Interpret(p).value.arguments == []
  {
  }

  lemma {:induction false} ParseArgumentsFirstFailure(p: Properties, i: nat, acc: seq<Argument>, f: nat)
    requires i <= f
    requires forall k: nat | k <= f :: TypeKey(k) in p
    requires forall k: nat | i <= k < f :: ParseArgument(p, k).Success?
    requires ParseArgument(p, f).Failure?
    ensures ParseArguments(p, i, acc) == Failure(ParseArgument(p, f).error)
    decreases f - i
  {
    TypeKeysBound(p, i + 1);
    if i < f {
      ParseArgumentsFirstFailure(p, i + 1, acc + [ParseArgument(p, i).value], f);
    }
  }

  /** The first index whose description is faulty decides the error. */
  lemma FirstFaultyArgument(p: Properties, f: nat)
    requires ThresholdAccepted(p)
    requires forall k: nat | k <= f :: TypeKey(k) in p
    requires forall k: nat | k < f :: ParseArgument(p, k).Success?
    requires ParseArgument(p, f).Failure?
    ensures Interpret(p) == Failure(ParseArgument(p, f).error)
  {
    ParseArgumentsFirstFailure(p, 0, [], f);
  }

  lemma {:induction false} ParseArgumentsFailure(p: Properties, i: nat, acc: seq<Argument>)
    requires forall k: nat | k < i :: TypeKey(k) in p
    requires ParseArguments(p, i, acc).Failure?
    ensures exists f: nat :: && i <= f
                             && (forall k: nat | k <= f :: TypeKey(k) in p)
                             && (forall k: nat | i <= k < f :: ParseArgument(p, k).Success?)
                             && ParseArgument(p, f) == Failure(ParseArguments(p, i, acc).error)
    decreases |p.Keys| - i
  {
    ParseArgumentsStep(p, i, acc);
    assert TypeKey(i) in p;
    if ParseArgument(p, i).Success? {
      TypeKeysExtend(p, i);
      var acc' := acc + [ParseArgument(p, i).value];
      ParseArgumentsFailure(p, i + 1, acc');
      assert ParseArguments(p, i + 1, acc') == ParseArguments(p, i, acc);
      var f: nat :| && i + 1 <= f
                    && (forall k: nat | k <= f :: TypeKey(k) in p)
                    && (forall k: nat | i + 1 <= k < f :: ParseArgument(p, k).Success?)
                    && ParseArgument(p, f) == Failure(ParseArguments(p, i, acc).error);
      assert forall k: nat | i <= k < f :: ParseArgument(p, k).Success?;
    } else {
      assert ParseArgument(p, i) == Failure(ParseArguments(p, i, acc).error);
    }
  }

  /** Every failure past the threshold comes from one index, all earlier indices being fine. */
  lemma FailureHasFaultyArgument(p: Properties)
    requires ThresholdAccepted(p) && Interpret(p).Failure?
    ensures exists f: nat :: && (forall k: nat | k <= f :: TypeKey(k) in p)
                             && (forall k: nat | k < f :: ParseArgument(p, k).Success?)
                             && ParseArgument(p, f) == Failure(Interpret(p).error)
  {
    ParseArgumentsFailure(p, 0, []);
  }

  /** A number property is present but is not a number literal. */
  predicate NumberMalformed(p: Properties, key: string) {
    key in p && ParseNumberLiteral(p[key]).None?
  }

  /** The value of a well-formed number property, None when it is absent. */
  function NumberValue(p: Properties, key: string): Option<int> {
    if key in p then ParseNumberLiteral(p[key]) else None
  }

  /** An integer property is present but is not a 32-bit integer literal. */
  predicate IntegerMalformed(p: Properties, key: string) {
    key in p && ParseInt(p[key]).None?
  }

  /**
   * The faults of any argument: a missing label, or a type other than
   * boolean, string, number or choice; a labelled boolean or string argument
   * is always built.
   */
  lemma ArgumentErrors(p: Properties, i: nat)
    requires TypeKey(i) in p
    ensures Key("Label", i) !in p ==> ParseArgument(p, i) == Failure(MissingLabel(i))
    ensures Key("Label", i) in p && p[TypeKey(i)] !in {"boolean", "string", "number", "choice"} ==>
      ParseArgument(p, i) == Failure(UnknownType(i, p[TypeKey(i)]))
    ensures Key("Label", i) in p && p[TypeKey(i)] in {"boolean", "string"} ==> ParseArgument(p, i).Success?
  {
  }

  /**
   * The faults of a number argument: the first of Default, Minimum, Maximum
   * and Increment that is not a literal, or a start value outside the bounds
   * (in particular an explicit Default outside them).
   */
  lemma NumberArgumentErrors(p: Properties, i: nat)
    requires TypeKey(i) in p
    ensures Key("Label", i) in p && p[TypeKey(i)] == "number" ==>
      var d, lo, hi, inc := Key("Default", i), Key("Minimum", i), Key("Maximum", i), Key("Increment", i);
      && (NumberMalformed(p, d) ==> ParseArgument(p, i) == Failure(MalformedNumber(d)))
      && (!NumberMalformed(p, d) && NumberMalformed(p, lo) ==> ParseArgument(p, i) == Failure(MalformedNumber(lo)))
      && (!NumberMalformed(p, d) && !NumberMalformed(p, lo) && NumberMalformed(p, hi) ==>
            ParseArgument(p, i) == Failure(MalformedNumber(hi)))
      && (!NumberMalformed(p, d) && !NumberMalformed(p, lo) && !NumberMalformed(p, hi) && NumberMalformed(p, inc) ==>
            ParseArgument(p, i) == Failure(MalformedNumber(inc)))
      && (!NumberMalformed(p, d) && !NumberMalformed(p, lo) && !NumberMalformed(p, hi) && !NumberMalformed(p, inc) ==>
            var start := InitialValue(NumberValue(p, d), NumberValue(p, lo), NumberValue(p, hi));
            && (ParseArgument(p, i).Failure? <==> !InBounds(start, NumberValue(p, lo), NumberValue(p, hi)))
            && (ParseArgument(p, i).Failure? ==> ParseArgument(p, i).error == NumberOutOfRange(i))
            && (d in p && !InBounds(NumberValue(p, d).value, NumberValue(p, lo), NumberValue(p, hi)) ==>
                  ParseArgument(p, i) == Failure(NumberOutOfRange(i))))
  {
    if Key("Label", i) in p && p[TypeKey(i)] == "number" {
      assert ParseArgument(p, i) == NumberArgument(p, i, p[Key("Label", i)]);
    }
  }

  /**
   * The faults of a choice argument: a Default that is not an integer, no
   * options, or a Default that is not the index of an option; with none of
   * these the argument is built.
   */
  lemma ChoiceArgumentErrors(p: Properties, i: nat)
    requires TypeKey(i) in p
    ensures Key("Label", i) in p && p[TypeKey(i)] == "choice" ==>
      var d := Key("Default", i);
      && (IntegerMalformed(p, d) ==> ParseArgument(p, i) == Failure(MalformedInteger(d)))
      && (!IntegerMalformed(p, d) && ChoiceKey(i, 0) !in p ==> ParseArgument(p, i) == Failure(EmptyChoiceList(i)))
      && (!IntegerMalformed(p, d) && ChoiceKey(i, 0) in p && d in p && !(0 <= ParseInt(p[d]).value < |ChoiceOptions(p, i)|) ==>
            ParseArgument(p, i) == Failure(ChoiceDefaultOutOfRange(i)))
      && (!IntegerMalformed(p, d) && ChoiceKey(i, 0) in p && (d in p ==> 0 <= ParseInt(p[d]).value < |ChoiceOptions(p, i)|) ==>
            ParseArgument(p, i).Success?)
  {
  }

  /** What each kind of argument holds when its description is sound. */
  lemma ArgumentFields(p: Properties, i: nat)
    requires TypeKey(i) in p && ParseArgument(p, i).Success?
    ensures var a := ParseArgument(p, i).value;
      var t := p[TypeKey(i)];
      var defl := Property(p, Key("Default", i));
      && Key("Label", i) in p && a.caption == p[Key("Label", i)]
      && t in {"boolean", "string", "number", "choice"}
      && (t == "boolean" ==> a.field == BooleanField(defl == Some("true")))
      && (t == "string" ==> a.field == StringField(FilterNewlines(if defl.Some? then defl.value else "")))
      && (t == "number" ==>
            var d, lo, hi, inc := Key("Default", i), Key("Minimum", i), Key("Maximum", i), Key("Increment", i);
            var minimum, maximum := NumberValue(p, lo), NumberValue(p, hi);
            && !NumberMalformed(p, d) && !NumberMalformed(p, lo) && !NumberMalformed(p, hi) && !NumberMalformed(p, inc)
            && a.field.SpinnerField?
            && a.field.spinner.minimum == minimum
            && a.field.spinner.maximum == maximum
            && a.field.spinner.increment == (if inc in p then NumberValue(p, inc).value else 1)
            && a.field.spinner.value == (if d in p then NumberValue(p, d).value else InitialValue(None, minimum, maximum))
            && InBounds(a.field.spinner.value, minimum, maximum))
      && (t == "choice" ==>
            var d := Key("Default", i);
            var c := ChoiceOptions(p, i);
            && !IntegerMalformed(p, d)
            && |c| > 0 && (d in p ==> 0 <= ParseInt(p[d]).value < |c|)
            && a.field == ChoiceField(c, if d in p then FirstIndex(c, c[ParseInt(p[d]).value]) else 0))
  {
  }

  /** The form has something to edit exactly when the instance name or the threshold is editable, or Type-0 exists. */
  lemma EditableManifest(p: Properties)
    requires Interpret(p).Success?
    ensures Editable(Interpret(p).value) <==> InstanceEditable(p) || ThresholdEditable(p) || TypeKey(0) in p
  {
    ArgumentsOfManifest(p);
  }

  /** With an accepted threshold, the settings are the top-level ones over the scanned arguments. */
  lemma InterpretOfArguments(p: Properties)
    requires ThresholdAccepted(p)
    ensures var args := ParseArguments(p, 0, []);
      && ThresholdSpinner(ParseInt(p["Threshold"]).value).Some?
      && (args.Failure? ==> Interpret(p) == Failure(args.error))
      && (args.Success? ==> Interpret(p) == Success(Settings(FilterNewlines(InstanceName(p)), InstanceEditable(p),
            ThresholdSpinner(ParseInt(p["Threshold"]).value).value, ThresholdEditable(p), args.value)))
  {
  }

  // ---- the properties of indices past the first gap are never read ----

  /** The properties that describe one argument; ChoiceProperty(j) is its option j. */
  datatype ArgumentProperty =
    | TypeProperty | LabelProperty | DefaultProperty
    | MinimumProperty | MaximumProperty | IncrementProperty
    | ChoiceProperty(option: nat)

  function ArgumentKey(i: nat, a: ArgumentProperty): string {
    match a
    case TypeProperty => TypeKey(i)
    case LabelProperty => Key("Label", i)
    case DefaultProperty => Key("Default", i)
    case MinimumProperty => Key("Minimum", i)
    case MaximumProperty => Key("Maximum", i)
    case IncrementProperty => Key("Increment", i)
    case ChoiceProperty(j) => ChoiceKey(i, j)
  }

  /** The first three letters of a property's key, which tell the properties apart. */
  function KeyHead(a: ArgumentProperty): string {
    match a
    case TypeProperty => "Typ"
    case LabelProperty => "Lab"
    case DefaultProperty => "Def"
    case MinimumProperty => "Min"
    case MaximumProperty => "Max"
    case IncrementProperty => "Inc"
    case ChoiceProperty(_) => "Cho"
  }

  lemma ArgumentKeyHead(i: nat, a: ArgumentProperty)
    ensures |ArgumentKey(i, a)| >= 3 && ArgumentKey(i, a)[..3] == KeyHead(a)
  {
    match a
    case ChoiceProperty(j) =>
      assert ChoiceKey(i, j) == "Choice-" + (NatToString(j) + "-" + NatToString(i));
    case _ =>
      var name := if a == TypeProperty then TypeLabel else if a == LabelProperty then "Label"
        else if a == DefaultProperty then "Default" else if a == MinimumProperty then "Minimum"
        else if a == MaximumProperty then "Maximum" else "Increment";
      assert ArgumentKey(i, a) == name + ("-" + NatToString(i));
  }

  /**
   * Each key names one property of one argument, and none of them is a
   * top-level key.
   */
  lemma ArgumentKeyInjective(i: nat, a: ArgumentProperty, k: nat, b: ArgumentProperty)
    ensures ArgumentKey(i, a) == ArgumentKey(k, b) ==> i == k && a == b
    ensures ArgumentKey(i, a) !in {"Instance", "Instance-Editable", "Threshold", "Threshold-Editable"}
  {
    ArgumentKeyHead(i, a);
    ArgumentKeyHead(k, b);
    assert "Instance"[..3] == "Ins" && "Instance-Editable"[..3] == "Ins";
    assert "Threshold"[..3] == "Thr" && "Threshold-Editable"[..3] == "Thr";
    if ArgumentKey(i, a) == ArgumentKey(k, b) {
      assert KeyHead(a) == KeyHead(b);
      match a
      case TypeProperty => KeyInjective(TypeLabel, i, k);
      case LabelProperty => KeyInjective("Label", i, k);
      case DefaultProperty => KeyInjective("Default", i, k);
      case MinimumProperty => KeyInjective("Minimum", i, k);
      case MaximumProperty => KeyInjective("Maximum", i, k);
      case IncrementProperty => KeyInjective("Increment", i, k);
      case ChoiceProperty(j) => ChoiceKeyInjective(i, j, k, b.option);
    }
  }

  lemma {:induction false} CollectChoicesFrame(p: Properties, q: Properties, i: nat, j: nat, acc: seq<string>)
    requires forall k: nat | k < j :: ChoiceKey(i, k) in p
    requires forall m: nat :: Property(p, ChoiceKey(i, m)) == Property(q, ChoiceKey(i, m))
    ensures forall k: nat | k < j :: ChoiceKey(i, k) in q
    ensures CollectChoices(q, i, j, acc) == CollectChoices(p, i, j, acc)
    decreases |p.Keys| - j
  {
    assert forall k: nat | k < j :: Property(p, ChoiceKey(i, k)).Some?;
    assert Property(p, ChoiceKey(i, j)) == Property(q, ChoiceKey(i, j));
    if ChoiceKey(i, j) in p {
      ChoiceKeysBound(p, i, j + 1);
      CollectChoicesFrame(p, q, i, j + 1, acc + [p[ChoiceKey(i, j)]]);
    }
  }

  lemma ParseArgumentAgree(p: Properties, q: Properties, i: nat)
    requires TypeKey(i) in p
    requires Property(p, TypeKey(i)) == Property(q, TypeKey(i))
    requires Property(p, Key("Label", i)) == Property(q, Key("Label", i))
    requires Property(p, Key("Default", i)) == Property(q, Key("Default", i))
    requires Property(p, Key("Minimum", i)) == Property(q, Key("Minimum", i))
    requires Property(p, Key("Maximum", i)) == Property(q, Key("Maximum", i))
    requires Property(p, Key("Increment", i)) == Property(q, Key("Increment", i))
    requires ChoiceOptions(p, i) == ChoiceOptions(q, i)
    ensures TypeKey(i) in q && ParseArgument(q, i) == ParseArgument(p, i)
  {
    var t := p[TypeKey(i)];
    if Key("Label", i) in p {
      var caption := p[Key("Label", i)];
      if t == "number" {
        NumberArgumentAgree(p, q, i, caption);
      } else if t == "choice" {
        ChoiceArgumentAgree(p, q, i, caption);
      }
    }
  }

  lemma NumberArgumentAgree(p: Properties, q: Properties, i: nat, caption: string)
    requires Property(p, Key("Default", i)) == Property(q, Key("Default", i))
    requires Property(p, Key("Minimum", i)) == Property(q, Key("Minimum", i))
    requires Property(p, Key("Maximum", i)) == Property(q, Key("Maximum", i))
    requires Property(p, Key("Increment", i)) == Property(q, Key("Increment", i))
    ensures NumberArgument(q, i, caption) == NumberArgument(p, i, caption)
  {
    assert OptionalNumber(q, Key("Default", i)) == OptionalNumber(p, Key("Default", i));
    assert OptionalNumber(q, Key("Minimum", i)) == OptionalNumber(p, Key("Minimum", i));
    assert OptionalNumber(q, Key("Maximum", i)) == OptionalNumber(p, Key("Maximum", i));
    assert OptionalNumber(q, Key("Increment", i)) == OptionalNumber(p, Key("Increment", i));
  }

  lemma ChoiceArgumentAgree(p: Properties, q: Properties, i: nat, caption: string)
    requires Property(p, Key("Default", i)) == Property(q, Key("Default", i))
    requires ChoiceOptions(p, i) == ChoiceOptions(q, i)
    ensures ChoiceArgument(q, i, caption) == ChoiceArgument(p, i, caption)
  {
    assert OptionalInteger(q, Key("Default", i)) == OptionalInteger(p, Key("Default", i));
  }

  /** An argument depends on its own properties only. */
  lemma ParseArgumentFrame(p: Properties, q: Properties, i: nat)
    requires TypeKey(i) in p
    requires forall a :: Property(p, ArgumentKey(i, a)) == Property(q, ArgumentKey(i, a))
    ensures TypeKey(i) in q && ParseArgument(q, i) == ParseArgument(p, i)
  {
    assert Property(p, ArgumentKey(i, TypeProperty)) == Property(q, ArgumentKey(i, TypeProperty));
    assert Property(p, ArgumentKey(i, LabelProperty)) == Property(q, ArgumentKey(i, LabelProperty));
    assert Property(p, ArgumentKey(i, DefaultProperty)) == Property(q, ArgumentKey(i, DefaultProperty));
    assert Property(p, ArgumentKey(i, MinimumProperty)) == Property(q, ArgumentKey(i, MinimumProperty));
    assert Property(p, ArgumentKey(i, MaximumProperty)) == Property(q, ArgumentKey(i, MaximumProperty));
    assert Property(p, ArgumentKey(i, IncrementProperty)) == Property(q, ArgumentKey(i, IncrementProperty));
    forall m: nat
      ensures Property(p, ChoiceKey(i, m)) == Property(q, ChoiceKey(i, m))
    {
      assert ArgumentKey(i, ChoiceProperty(m)) == ChoiceKey(i, m);
    }
    CollectChoicesFrame(p, q, i, 0, []);
    ParseArgumentAgree(p, q, i);
  }

  lemma {:induction false} ParseArgumentsFrame(p: Properties, q: Properties, i: nat, acc: seq<Argument>, n: nat)
    requires i <= n && TypeKey(n) !in p
    requires forall k: nat | k < i :: TypeKey(k) in p
    requires forall k: nat | k < i :: TypeKey(k) in q
    requires forall k: nat, a | i <= k <= n :: Property(p, ArgumentKey(k, a)) == Property(q, ArgumentKey(k, a))
    ensures ParseArguments(q, i, acc) == ParseArguments(p, i, acc)
    decreases n - i
  {
    assert Property(p, ArgumentKey(i, TypeProperty)) == Property(q, ArgumentKey(i, TypeProperty));
    if TypeKey(i) in p {
      ParseArgumentFrame(p, q, i);
      if ParseArgument(p, i).Success? {
        ParseArgumentsFrame(p, q, i + 1, acc + [ParseArgument(p, i).value], n);
      }
    }
  }

  /**
   * Interpret reads the top-level keys and the properties of the indices up
   * to the first missing Type-n, and nothing else.
   */
  lemma InterpretFrame(p: Properties, q: Properties, n: nat)
    requires TypeKey(n) !in p
    requires Property(p, "Instance") == Property(q, "Instance")
    requires Property(p, "Instance-Editable") == Property(q, "Instance-Editable")
    requires Property(p, "Threshold") == Property(q, "Threshold")
    requires Property(p, "Threshold-Editable") == Property(q, "Threshold-Editable")
    requires forall k: nat, a | k <= n :: Property(p, ArgumentKey(k, a)) == Property(q, ArgumentKey(k, a))
    ensures Interpret(q) == Interpret(p)
  {
    ParseArgumentsFrame(p, q, 0, [], n);
  }

  /**
   * Past the first missing Type-n nothing is read: setting or removing any
   * property of a later index, Type-k included, leaves the result alone.
   */
  lemma LaterArgumentIgnored(p: Properties, n: nat, k: nat, a: ArgumentProperty, v: string)
    requires TypeKey(n) !in p && n < k
    ensures Interpret(p[ArgumentKey(k, a) := v]) == Interpret(p)
    ensures Interpret(p - {ArgumentKey(k, a)}) == Interpret(p)
  {
    var key := ArgumentKey(k, a);
    ArgumentKeyInjective(k, a, k, a);
    forall m: nat, b | m <= n
      ensures Property(p, ArgumentKey(m, b)) == Property(p[key := v], ArgumentKey(m, b))
      ensures Property(p, ArgumentKey(m, b)) == Property(p - {key}, ArgumentKey(m, b))
    {
      ArgumentKeyInjective(m, b, k, a);
    }
    InterpretFrame(p, p[key := v], n);
    InterpretFrame(p, p - {key}, n);
  }
}
