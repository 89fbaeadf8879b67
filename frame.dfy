/**
 * SearchSettingsFrame: the settings form of one search filter. It holds the
 * instance name, the drop threshold, the argument fields in the order they
 * were added, and the change listeners. createFromProperties fills a form from
 * a filter's manifest properties; the form's state then equals what
 * Manifest.Interpret describes.
 */
module SearchSettings {
  import opened Wrappers
  import opened Decimal
  import opened Fields
  import opened Manifest
  import opened Listeners
  import opened Sequences

  class SearchSettingsFrame {
    var listeners: seq<ChangeListener>
    var instanceName: string
    /** The instance-name field is on the form (it is always created, but shown only when editable). */
    var instanceShown: bool
    var threshold: Spinner
    /** The threshold field is on the form. */
    var thresholdShown: bool
    var arguments: seq<Argument>

    /**
     * The threshold spinner starts at 0 or above with step 1 and no upper
     * bound; the instance name is one line; every field is sound.
     */
    ghost predicate Valid()
      reads this
    {
      ThresholdSpinner(threshold.value) == Some(threshold) && '\n' !in instanceName && ArgumentsValid(arguments)
    }

    /** The form's state as a value. */
    function State(): Settings
      reads this
    {
      Settings(instanceName, instanceShown, threshold, thresholdShown, arguments)
    }

    /**
     * A form with no arguments and no listeners; the threshold spinner starts
     * at threshold, and the one-line instance-name field turns each newline of
     * instanceName into a space.
     */
    constructor (instanceName: string, instanceEditable: bool, threshold: nat, thresholdEditable: bool)
      requires threshold <= Int32Max
      ensures Valid()
      ensures State() == Settings(FilterNewlines(instanceName), instanceEditable, Spinner(threshold, Some(0), None, 1), thresholdEditable, [])
      ensures listeners == []
    {
      this.listeners := [];
      this.instanceName := FilterNewlines(instanceName);
      this.instanceShown := instanceEditable;
      this.threshold := Spinner(threshold, Some(0), None, 1);
      this.thresholdShown := thresholdEditable;
      this.arguments := [];
    }

    /** addBoolean: a check box, checked when defl holds. */
    method AddBoolean(caption: string, defl: bool)
      requires Valid()
      modifies this`arguments
      ensures Valid()
      ensures arguments == old(arguments) + [Argument(caption, BooleanField(defl))]
    {
      arguments := arguments + [Argument(caption, BooleanField(defl))];
    }

    /** addString: a one-line text field holding defl, each newline turned into a space. */
    method AddString(caption: string, defl: string)
      requires Valid()
      modifies this`arguments
      ensures Valid()
      ensures arguments == old(arguments) + [Argument(caption, StringField(FilterNewlines(defl)))]
    {
      arguments := arguments + [Argument(caption, StringField(FilterNewlines(defl)))];
    }

    /**
     * addNumber: a spinner. Without a default it starts at 0, raised to the
     * minimum or lowered to the maximum; a starting value outside the bounds
     * is refused (ok is false) and the form is left as it was.
     */
    method AddNumber(caption: string, defl: Option<int>, minimum: Option<int>, maximum: Option<int>, increment: int)
      returns (ok: bool)
      requires Valid()
      modifies this`arguments
      ensures Valid()
      ensures ok <==> NewSpinner(defl, minimum, maximum, increment).Some?
      ensures ok ==> arguments == old(arguments) + [Argument(caption, SpinnerField(NewSpinner(defl, minimum, maximum, increment).value))]
      ensures !ok ==> arguments == old(arguments)
    {
      var v: int;
      if defl.Some? {
        v := defl.value;
      } else {
        v := 0;
        if minimum.Some? && v < minimum.value {
          v := minimum.value;
        } else if maximum.Some? && v > maximum.value {
          v := maximum.value;
        }
      }
      ok := (minimum.None? || minimum.value <= v) && (maximum.None? || v <= maximum.value);
      if ok {
        arguments := arguments + [Argument(caption, SpinnerField(Spinner(v, minimum, maximum, increment)))];
      }
    }

    /**
     * addChoice: a drop-down list over choices with the item at defl selected
     * (the first choice when there is no default); the list then reports the
     * first index holding that item. An empty list or a default that is not
     * an index of the list is refused with the problem, and nothing is added.
     */
    method AddChoice(caption: string, choices: seq<string>, defl: Option<int>)
      returns (problem: Option<ChoiceProblem>)
      requires Valid()
      modifies this`arguments
      ensures Valid()
      ensures problem == CheckChoice(|choices|, defl)
      ensures problem.None? ==> arguments == old(arguments) + [Argument(caption, NewChoice(choices, defl))]
      ensures problem.Some? ==> arguments == old(arguments)
    {
      if |choices| == 0 {
        return Some(NoChoices);
      }
      if defl.Some? && (defl.value < 0 || defl.value >= |choices|) {
        return Some(DefaultOutOfRange);
      }
      var selected := if defl.Some? then FirstIndex(choices, choices[defl.value]) else 0;
      arguments := arguments + [Argument(caption, ChoiceField(choices, selected))];
      problem := None;
    }

    /** getFilterArguments: the text of every argument field, in the order they were added. */
    method FilterArguments() returns (ret: seq<string>)
      ensures ret == EncodeAll(arguments)
    {
      ret := [];
      for k := 0 to |arguments|
        invariant ret == EncodeAll(arguments[..k])
      {
        assert arguments[..k + 1] == arguments[..k] + [arguments[k]];
        EncodeAllAppend(arguments[..k], arguments[k]);
        ret := ret + [Encode(arguments[k].field)];
      }
      assert arguments[..|arguments|] == arguments;
    }

    /** getInstanceName: the text of the instance-name field. */
    method InstanceName() returns (name: string)
      ensures name == State().instanceName
      ensures Valid() ==> '\n' !in name
    {
      name := instanceName;
    }

    /** getThreshold: the spinner's value cast to int. */
    method Threshold() returns (t: int)
      requires Valid()
      ensures Int32Min <= t <= Int32Max && t >= 0
      ensures threshold.value <= Int32Max ==> t == threshold.value
      ensures threshold.value > Int32Max ==> t == Int32Max
    {
      t := IntValue(threshold.value);
    }

    /** isEditable: the instance name or the threshold is on the form, or there is an argument. */
    method IsEditable() returns (e: bool)
      ensures e <==> Editable(State())
      ensures e <==> instanceShown || thresholdShown || arguments != []
    {
      e := instanceShown || thresholdShown || |arguments| > 0;
    }

    /** addChangeListener: l is registered after the listeners already there. */
    method AddChangeListener(l: ChangeListener)
      modifies this`listeners
      ensures listeners == old(listeners) + [l]
    {
      listeners := listeners + [l];
    }

    /** removeChangeListener: the first registration of l, if any, is dropped. */
    method RemoveChangeListener(l: ChangeListener)
      modifies this`listeners
      ensures listeners == RemoveFirst(old(listeners), l)
    {
      listeners := RemoveFirst(listeners, l);
    }

    /**
     * fireChangeEvent: every registered listener is told once per registration,
     * in registration order; nothing else changes.
     */
    method FireChangeEvent() returns (delivered: seq<ChangeListener>)
      modifies set l | l in listeners
      ensures delivered == listeners
      ensures forall l | l in listeners :: l.received == old(l.received) + Occurrences(listeners, l)
    {
      delivered := [];
      var k := 0;
      while k < |listeners|
        invariant 0 <= k <= |listeners|
        invariant delivered == listeners[..k]
        invariant forall l | l in listeners :: l.received == old(l.received) + Occurrences(listeners[..k], l)
      {
        var l := listeners[k];
        assert listeners[..k + 1] == listeners[..k] + [l];
        forall m | m in listeners
          ensures Occurrences(listeners[..k + 1], m) == Occurrences(listeners[..k], m) + if l == m then 1 else 0
        {
          OccurrencesAppend(listeners[..k], l, m);
        }
        l.StateChanged();
        delivered := delivered + [l];
        k := k + 1;
      }
      assert listeners[..|listeners|] == listeners;
    }
  }

  /**
   * The form's constructor: the threshold spinner refuses a negative starting
   * value, and then no form is made.
   */
  method NewFrame(instanceName: string, instanceEditable: bool, threshold: int, thresholdEditable: bool)
    returns (r: Option<SearchSettingsFrame>)
    requires threshold <= Int32Max
    ensures r.None? <==> ThresholdSpinner(threshold).None?
    ensures r.None? <==> threshold < 0
    ensures r.Some? ==> && fresh(r.value) && r.value.Valid() && r.value.listeners == []
                        && r.value.State() == Settings(FilterNewlines(instanceName), instanceEditable, ThresholdSpinner(threshold).value, thresholdEditable, [])
  {
    if threshold < 0 {
      return None;
    }
    var fr := new SearchSettingsFrame(instanceName, instanceEditable, threshold, thresholdEditable);
    return Some(fr);
  }

  /** The inner scan of createFromProperties: the options Choice-0-i, Choice-1-i, ... up to the first missing one. */
  method ReadChoices(p: Properties, i: nat) returns (choices: seq<string>)
    ensures choices == ChoiceOptions(p, i)
  {
    choices := [];
    var j: nat := 0;
    while true
      invariant forall k: nat | k < j :: ChoiceKey(i, k) in p
      invariant CollectChoices(p, i, j, choices) == ChoiceOptions(p, i)
      decreases |p.Keys| - j
    {
      if ChoiceKey(i, j) !in p {
        break;
      }
      ChoiceKeysBound(p, i, j + 1);
      choices := choices + [p[ChoiceKey(i, j)]];
      j := j + 1;
    }
  }

  /** A number argument: its optional Default, Minimum, Maximum and Increment, in that order. */
  method AddNumberArgument(fr: SearchSettingsFrame, p: Properties, i: nat, caption: string) returns (e: Option<Error>)
    requires fr.Valid() && TypeKey(i) in p && Key("Label", i) in p && p[TypeKey(i)] == "number"
    requires caption == p[Key("Label", i)]
    modifies fr`arguments
    ensures fr.Valid()
    ensures ParseArgument(p, i).Failure? ==> e == Some(ParseArgument(p, i).error) && fr.arguments == old(fr.arguments)
    ensures ParseArgument(p, i).Success? ==> e == None && fr.arguments == old(fr.arguments) + [ParseArgument(p, i).value]
  {
    var d := OptionalNumber(p, Key("Default", i));
    if d.Failure? {
      return Some(d.error);
    }
    var minimum := OptionalNumber(p, Key("Minimum", i));
    if minimum.Failure? {
      return Some(minimum.error);
    }
    var maximum := OptionalNumber(p, Key("Maximum", i));
    if maximum.Failure? {
      return Some(maximum.error);
    }
    var increment := OptionalNumber(p, Key("Increment", i));
    if increment.Failure? {
      return Some(increment.error);
    }
    var ok := fr.AddNumber(caption, d.value, minimum.value, maximum.value, increment.value.GetOr(1));
    if !ok {
      return Some(NumberOutOfRange(i));
    }
    return None;
  }

  /** A choice argument: its optional Default, then its options. */
  method AddChoiceArgument(fr: SearchSettingsFrame, p: Properties, i: nat, caption: string) returns (e: Option<Error>)
    requires fr.Valid() && TypeKey(i) in p && Key("Label", i) in p && p[TypeKey(i)] == "choice"
    requires caption == p[Key("Label", i)]
    modifies fr`arguments
    ensures fr.Valid()
    ensures ParseArgument(p, i).Failure? ==> e == Some(ParseArgument(p, i).error) && fr.arguments == old(fr.arguments)
    ensures ParseArgument(p, i).Success? ==> e == None && fr.arguments == old(fr.arguments) + [ParseArgument(p, i).value]
  {
    var d := OptionalInteger(p, Key("Default", i));
    if d.Failure? {
      return Some(d.error);
    }
    var choices := ReadChoices(p, i);
    var problem := fr.AddChoice(caption, choices, d.value);
    if problem == Some(NoChoices) {
      return Some(EmptyChoiceList(i));
    } else if problem == Some(DefaultOutOfRange) {
      return Some(ChoiceDefaultOutOfRange(i));
    }
    return None;
  }

  /** One pass of createFromProperties' loop: the argument that index i describes is added, or the error is reported. */
  method AddArgument(fr: SearchSettingsFrame, p: Properties, i: nat) returns (e: Option<Error>)
    requires fr.Valid() && TypeKey(i) in p
    modifies fr`arguments
    ensures fr.Valid()
    ensures ParseArgument(p, i).Failure? ==> e == Some(ParseArgument(p, i).error) && fr.arguments == old(fr.arguments)
    ensures ParseArgument(p, i).Success? ==> e == None && fr.arguments == old(fr.arguments) + [ParseArgument(p, i).value]
  {
    var typeName := p[TypeKey(i)];
    if Key("Label", i) !in p {
      return Some(MissingLabel(i));
    }
    var caption := p[Key("Label", i)];
    var defl := Property(p, Key("Default", i));
    if typeName == "boolean" {
      fr.AddBoolean(caption, defl.Some? && defl.value == "true");
      e := None;
    } else if typeName == "string" {
      fr.AddString(caption, if defl.Some? then defl.value else "");
      e := None;
    } else if typeName == "number" {
      e := AddNumberArgument(fr, p, i, caption);
    } else if typeName == "choice" {
      e := AddChoiceArgument(fr, p, i, caption);
    } else {
      e := Some(UnknownType(i, typeName));
    }
  }

  /**
   * The outer scan of createFromProperties: the arguments at indices 0, 1, ...
   * up to the first missing Type-i are added in order, stopping at the first
   * faulty one.
   */
  method AddArguments(fr: SearchSettingsFrame, p: Properties) returns (e: Option<Error>)
    requires fr.Valid() && fr.arguments == []
    modifies fr`arguments
    ensures fr.Valid()
    ensures ParseArguments(p, 0, []).Failure? ==> e == Some(ParseArguments(p, 0, []).error)
    ensures ParseArguments(p, 0, []).Success? ==> e == None && fr.arguments == ParseArguments(p, 0, []).value
  {
    ghost var outcome := ParseArguments(p, 0, []);
    var i: nat := 0;
    while true
      invariant forall k: nat | k < i :: TypeKey(k) in p
      invariant fr.Valid()
      invariant ParseArguments(p, i, fr.arguments) == outcome
      decreases |p.Keys| - i
    {
      ParseArgumentsStep(p, i, fr.arguments);
      if TypeKey(i) !in p {
        break;
      }
      TypeKeysExtend(p, i);
      ghost var before := fr.arguments;
      e := AddArgument(fr, p, i);
      if e.Some? {
        return;
      }
      ParseArgumentsAdvance(p, i, before, fr.arguments);
      i := i + 1;
    }
    e := None;
  }

  /**
   * createFromProperties: reads the top-level settings, builds the form, then
   * adds the argument described at each index 0, 1, ... until the first
   * missing Type-i. It fails exactly when the manifest is faulty, with the
   * error Interpret names, and otherwise yields a new form whose state is
   * Interpret's settings.
   */
  method CreateFromProperties(p: Properties) returns (r: Result<SearchSettingsFrame, Error>)
    ensures r.Failure? <==> Interpret(p).Failure?
    ensures r.Failure? ==> r.error == Interpret(p).error
    ensures r.Success? ==> && fresh(r.value) && r.value.Valid() && r.value.listeners == []
                           && r.value.State() == Interpret(p).value
  {
    var instanceName := if "Instance" in p then p["Instance"] else "filter";
    var instanceEditable := !("Instance-Editable" in p && p["Instance-Editable"] == "false");
    ThresholdErrors(p);
    if "Threshold" !in p {
      return Failure(MissingThreshold);
    }
    var t := ParseInt(p["Threshold"]);
    if t.None? {
      return Failure(MalformedInteger("Threshold"));
    }
    var thresholdEditable := "Threshold-Editable" in p && p["Threshold-Editable"] == "true";
    var made := NewFrame(instanceName, instanceEditable, t.value, thresholdEditable);
    if made.None? {
      return Failure(ThresholdOutOfRange);
    }
    var fr := made.value;
    InterpretOfArguments(p);
    var e := AddArguments(fr, p);
    if e.Some? {
      return Failure(e.value);
    }
    return Success(fr);
  }
}
