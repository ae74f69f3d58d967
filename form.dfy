/** The Form: a data dictionary turned into typed fields, memoised, wired to the fields
    whose branching logic depends on them, and looked up by name to decode one answer. */
module Forms {
  import opened Values
  import opened Choices
  import opened Fields
  import opened Registry

  /** A data dictionary: one attribute map per field, in declared order. */
  type Dictionary = seq<Attributes>

  // ---------------------------------------------------------------------------------------
  // The association test `branching_logic =~ /^\[<name>\(.+\)\]="1"$/`

  /** The length of the first line of `s`. */
  function LineLength(s: string): (n: nat)
    ensures n <= |s|
    ensures forall k :: 0 <= k < n ==> s[k] != '\n'
    ensures n < |s| ==> s[n] == '\n'
  {
    if s == [] || s[0] == '\n' then 0 else 1 + LineLength(s[1..])
  }

  /** One line reads `[<name>(<something>)]="1"` with something non-empty. The name is
      matched as plain text. */
  predicate Structural(line: string, name: string)
  {
    var pre := "[" + name + "(";
    var suf := ")]=\"1\"";
    |pre| + |suf| < |line| && line[..|pre|] == pre && line[|line| - |suf|..] == suf
  }

  /** `^` and `$` are line anchors in Ruby, and `.` does not match a newline, so the
      pattern matches when some line of the logic has the shape on its own. */
  predicate SomeLineMatches(s: string, name: string)
    decreases |s|
  {
    var n := LineLength(s);
    Structural(s[..n], name) || (n < |s| && SomeLineMatches(s[n + 1..], name))
  }

  /** `f.branching_logic =~ ...`: nil never matches. */
  predicate IsAssociateLogic(logic: Option<string>, name: string)
  {
    logic.Some? && SomeLineMatches(logic.value, name)
  }

  /** The structural test is the pattern's meaning on one line: the line is the prefix, a
      non-empty middle and the suffix. */
  lemma StructuralShape(line: string, name: string)
    ensures Structural(line, name) <==>
              exists mid :: mid != [] && line == "[" + name + "(" + mid + ")]=\"1\""
  {
    var pre := "[" + name + "(";
    var suf := ")]=\"1\"";
    if Structural(line, name) {
      var mid := line[|pre|..|line| - |suf|];
      assert line == line[..|pre|] + mid + line[|line| - |suf|..];
      assert mid != [] && line == pre + mid + suf;
    }
    if exists mid :: mid != [] && line == pre + mid + suf {
      var mid :| mid != [] && line == pre + mid + suf;
      assert line[..|pre|] == pre;
      assert line[|line| - |suf|..] == suf;
    }
  }

  /** On logic without a newline the line anchors are string anchors. */
  lemma SingleLineLogic(s: string, name: string)
    requires forall k :: 0 <= k < |s| ==> s[k] != '\n'
    ensures SomeLineMatches(s, name) <==> Structural(s, name)
  {
    var n := LineLength(s);
    assert n == |s|;
    assert s[..n] == s;
  }

  /** The lines are tried one by one: logic with a first line `a` matches when `a` has the
      shape or some later line does. */
  lemma LinesMatch(a: string, b: string, name: string)
    requires forall k :: 0 <= k < |a| ==> a[k] != '\n'
    ensures SomeLineMatches(a + "\n" + b, name) <==> Structural(a, name) || SomeLineMatches(b, name)
  {
    var s := a + "\n" + b;
    assert s[|a|] == '\n';
    assert LineLength(s) == |a| by {
      LineLengthPrefix(a, "\n" + b);
    }
    assert s[..|a|] == a;
    assert s[|a| + 1..] == b;
  }

  lemma {:induction false} LineLengthPrefix(a: string, b: string)
    requires forall k :: 0 <= k < |a| ==> a[k] != '\n'
    requires b != [] && b[0] == '\n'
    ensures LineLength(a + b) == |a|
  {
    if a == [] {
      assert a + b == b;
    } else {
      assert (a + b)[1..] == a[1..] + b;
      LineLengthPrefix(a[1..], b);
    }
  }

  /** The branching logic a composite decoder looks for on choice `key` of `f` makes the
      field an associate of `f`, provided it is one line and the key is not empty. */
  lemma CanonicalIsAssociate(f: Field, key: Option<string>)
    requires Interpolate(key) != []
    requires forall k :: 0 <= k < |Canonical(f, key)| ==> Canonical(f, key)[k] != '\n'
    ensures IsAssociateLogic(Some(Canonical(f, key)), Interpolate(Name(f)))
  {
    var name := Interpolate(Name(f));
    var s := Canonical(f, key);
    assert s == "[" + name + "(" + Interpolate(key) + ")]=\"1\"";
    StructuralShape(s, name);
    SingleLineLogic(s, name);
  }

  // ---------------------------------------------------------------------------------------
  // Building the fields

  /** `lookup_field_class(attributes["field_type"]).new(attributes)`. */
  function Declare(a: Attributes): Field
  {
    Field(a, Resolve(Get(a, "field_type")).variant, None, None)
  }

  /** The class lookup of each entry, in dictionary order. */
  function Resolutions(dd: Dictionary): (rs: seq<Resolution>)
    ensures |rs| == |dd|
    ensures forall i :: 0 <= i < |dd| ==> rs[i] == Resolve(Get(dd[i], "field_type"))
  {
    seq(|dd|, i requires 0 <= i < |dd| => Resolve(Get(dd[i], "field_type")))
  }

  /** The lines printed for a run of lookups, in order. */
  function Messages(rs: seq<Resolution>): seq<string>
    decreases |rs|
  {
    if rs == [] then []
    else
      var r := rs[|rs| - 1];
      Messages(rs[..|rs| - 1]) + (if r.warning.Some? then [r.warning.value] else [])
  }

  /** The warnings printed while the fields are built. */
  function Warnings(dd: Dictionary): seq<string>
  {
    Messages(Resolutions(dd))
  }

  /** The unwired fields, one per entry. */
  function Declared(dd: Dictionary): (fs: seq<Field>)
    ensures |fs| == |dd|
    ensures forall i :: 0 <= i < |dd| ==> fs[i] == Declare(dd[i])
  {
    seq(|dd|, i requires 0 <= i < |dd| => Declare(dd[i]))
  }

  /** `fs.select { |f| f.branching_logic =~ ... }`: the positions of the fields whose
      logic depends on `name`, in order. */
  function AssociatesOf(fs: seq<Field>, name: string): (js: seq<nat>)
    ensures forall j: nat :: j in js <==> j < |fs| && IsAssociateLogic(BranchingLogic(fs[j]), name)
    ensures forall a, b :: 0 <= a < b < |js| ==> js[a] < js[b]
    ensures forall k :: 0 <= k < |js| ==> js[k] < |fs|
    decreases |fs|
  {
    if fs == [] then []
    else
      var n := |fs| - 1;
      var init := AssociatesOf(fs[..n], name);
      assert forall j :: 0 <= j < n ==> fs[..n][j] == fs[j];
      init + (if IsAssociateLogic(BranchingLogic(fs[n]), name) then [n] else [])
  }

  /** `field.associated_fields = ...` for one field. */
  function Wire(fs: seq<Field>, f: Field): Field
  {
    f.(associated := Some(AssociatesOf(fs, Interpolate(Name(f)))))
  }

  /** The fields a Form builds from a dictionary: declared, then wired. */
  function Build(dd: Dictionary): (fs: seq<Field>)
    ensures |fs| == |dd|
    ensures forall i :: 0 <= i < |dd| ==> fs[i] == Wire(Declared(dd), Declare(dd[i]))
    ensures WellWired(fs) && Kindred(fs)
  {
    var ds := Declared(dd);
    var fs := seq(|ds|, i requires 0 <= i < |ds| => Wire(ds, ds[i]));
    BuildKindred(dd, fs);
    fs
  }

  /** Built fields have the class their type resolves to, so `text`, `radio` and
      `checkbox` fields are Text, RadioButtons and CheckboxesWithOther. */
  lemma BuildKindred(dd: Dictionary, fs: seq<Field>)
    requires |fs| == |dd|
    requires forall i :: 0 <= i < |dd| ==> fs[i] == Wire(Declared(dd), Declare(dd[i]))
    ensures WellWired(fs) && Kindred(fs)
  {
    TextResolves();
    RadioResolves();
    CheckboxResolves();
    forall i | 0 <= i < |fs| ensures InPool(fs, fs[i]) {
      assert fs[i].associated == Some(AssociatesOf(Declared(dd), Interpolate(Name(Declare(dd[i])))));
    }
  }

  /** One field per entry, in dictionary order, with the entry's attributes and the class
      its declared type resolves to. */
  lemma BuildEntries(dd: Dictionary, i: nat)
    requires i < |dd|
    ensures |Build(dd)| == |dd|
    ensures Build(dd)[i].attributes == dd[i]
    ensures Name(Build(dd)[i]) == Get(dd[i], "field_name")
    ensures Build(dd)[i].variant == Resolve(Get(dd[i], "field_type")).variant
    ensures Build(dd)[i].options.None? && Build(dd)[i].associated.Some?
  {
  }

  /** Field `j` is wired as an associate of field `i` exactly when its branching logic
      matches the pattern for `i`'s name, whatever their order and also when `i == j`. */
  lemma BuildAssociates(dd: Dictionary, i: nat, j: nat)
    requires i < |dd|
    ensures j in Build(dd)[i].associated.value <==>
              j < |dd| && IsAssociateLogic(Get(dd[j], "branching_logic"), Interpolate(Get(dd[i], "field_name")))
  {
    var ds := Declared(dd);
    if j < |dd| {
      assert BranchingLogic(ds[j]) == Get(dd[j], "branching_logic");
    }
  }

  /** A field with no branching logic is nobody's associate. */
  lemma NoLogicNoAssociate(dd: Dictionary, i: nat, j: nat)
    requires i < |dd| && j < |dd| && "branching_logic" !in dd[j]
    ensures j !in Build(dd)[i].associated.value
  {
    BuildAssociates(dd, i, j);
  }

  /** A run of lookups prints nothing exactly when every lookup found its class. */
  lemma {:induction false} NoMessages(rs: seq<Resolution>)
    ensures Messages(rs) == [] <==> forall i :: 0 <= i < |rs| ==> rs[i].warning.None?
    decreases |rs|
  {
    if rs != [] {
      var n := |rs| - 1;
      NoMessages(rs[..n]);
      assert forall i :: 0 <= i < n ==> rs[..n][i] == rs[i];
    }
  }

  /** Building prints nothing exactly when every declared type names a field class. */
  lemma NoWarnings(dd: Dictionary)
    ensures Warnings(dd) == [] <==> forall i :: 0 <= i < |dd| ==> Resolve(Get(dd[i], "field_type")).warning.None?
  {
    NoMessages(Resolutions(dd));
  }

  // ---------------------------------------------------------------------------------------
  // Looking a field up and decoding it

  /** `fs` is `gs` with nothing changed but the options of some fields. */
  predicate SameButOptions(fs: seq<Field>, gs: seq<Field>)
  {
    |fs| == |gs| && forall k :: 0 <= k < |fs| ==> fs[k].(options := gs[k].options) == gs[k]
  }

  lemma SameButOptionsTrans(fs: seq<Field>, gs: seq<Field>, hs: seq<Field>)
    requires SameButOptions(fs, gs) && SameButOptions(gs, hs)
    ensures SameButOptions(fs, hs)
  {
    forall k | 0 <= k < |fs| ensures fs[k].(options := hs[k].options) == hs[k] {
      assert fs[k].(options := gs[k].options) == gs[k];
      assert gs[k].(options := hs[k].options) == hs[k];
    }
  }

  /** Options play no part in wiring or in the classes of the fields. */
  lemma SameButOptionsDecodable(fs: seq<Field>, gs: seq<Field>)
    requires SameButOptions(fs, gs) && WellWired(gs) && Kindred(gs)
    ensures WellWired(fs) && Kindred(fs)
  {
    forall k | 0 <= k < |fs|
      ensures fs[k].attributes == gs[k].attributes && fs[k].variant == gs[k].variant
      ensures fs[k].associated == gs[k].associated
    {
      assert fs[k].(options := gs[k].options) == gs[k];
    }
    assert forall k :: 0 <= k < |fs| ==> InPool(gs, gs[k]);
  }

  /** `fields.find { |field| field.field_name == key }`. */
  function FirstNamed(fs: seq<Field>, name: string): (o: Option<nat>)
    ensures o.Some? ==> o.value < |fs| && Name(fs[o.value]) == Some(name)
    ensures o.Some? ==> forall k :: 0 <= k < o.value ==> Name(fs[k]) != Some(name)
    ensures o.None? ==> forall k :: 0 <= k < |fs| ==> Name(fs[k]) != Some(name)
  {
    if fs == [] then None
    else if Name(fs[0]) == Some(name) then Some(0)
    else
      var o := FirstNamed(fs[1..], name);
      if o.Some? then Some(o.value + 1) else None
  }

  /** The `as:` option of a lookup: a Symbol goes through `lookup_field_class`, a class is
      used as it is. */
  datatype As = AsSymbol(symbol: string) | AsClass(variant: Variant)

  /** The class an `as:` option asks for. */
  function AsVariant(a: Option<As>): Option<Variant>
  {
    match a
    case None => None
    case Some(AsSymbol(t)) => Some(Resolve(Some(t)).variant)
    case Some(AsClass(v)) => Some(v)
  }

  /** The warning printed when an `as:` Symbol names no field class. */
  function AsWarnings(a: Option<As>): seq<string>
  {
    match a
    case Some(AsSymbol(t)) => Messages([Resolve(Some(t))])
    case _ => []
  }

  /** `find_field`'s result: with a class, a fresh field of that class on the same
      attributes (no associated fields); without, the found field itself. Either way its
      options become the lookup's. */
  function Found(f: Field, klass: Option<Variant>, options: Options): (g: Field)
  {
    if klass.Some? then Field(f.attributes, klass.value, Some(options), None)
    else f.(options := Some(options))
  }

  /** The memoised fields after a lookup: only a found field that is not replaced by an
      `as:` class is itself changed, and only in its options. */
  function AfterFind(fs: seq<Field>, name: string, klass: Option<Variant>, options: Options): (gs: seq<Field>)
    ensures SameButOptions(gs, fs)
    ensures klass.Some? || FirstNamed(fs, name).None? ==> gs == fs
    ensures klass.None? && FirstNamed(fs, name).Some? ==>
              var i := FirstNamed(fs, name).value;
              && gs[i] == fs[i].(options := Some(options))
              && forall k :: 0 <= k < |fs| && k != i ==> gs[k] == fs[k]
    ensures WellWired(fs) && Kindred(fs) ==> WellWired(gs) && Kindred(gs)
  {
    var o := FirstNamed(fs, name);
    var gs := if o.Some? && klass.None? then fs[o.value := Found(fs[o.value], None, options)] else fs;
    assert SameButOptions(gs, fs);
    if WellWired(fs) && Kindred(fs) then SameButOptionsDecodable(gs, fs); gs else gs
  }

  /** `field.value(nil)`, for a Form whose responses were never set: the decoder raises
      when it first indexes the responses. The checkbox classes do that once per choice, so
      with no choices they finish without reading them. */
  function DecodeWithoutResponses(pool: seq<Field>, f: Field): (r: Result<Value>)
    requires Decodable(pool, f)
    ensures f.variant in {Generic, Text, Notes, Descriptive, Dropdown, Sql, File} ==> r == Err(NoResponses)
    ensures r.Ok? ==> && f.variant in {Checkboxes, CheckboxesWithOther, CheckboxesWithRadioButtonsOrOther, CheckboxesWithCheckboxesOrOther}
                      && ChoiceText(f).Some? && Parse(ChoiceText(f).value) == []
    ensures r.Err? ==> r.error in {NoResponses, NoChoices(Interpolate(Name(f))), NoOptions(Interpolate(Name(f)))}
    ensures r.Err? && r.error == NoOptions(Interpolate(Name(f))) ==> f.variant == Yesno && f.options.None?
    ensures f.variant == Yesno ==> r == Err(if f.options.None? then NoOptions(Interpolate(Name(f))) else NoResponses)
    ensures f.variant == RadioButtons ==> r == Err(if ChoiceText(f).None? then NoChoices(Interpolate(Name(f))) else NoResponses)
    ensures f.variant in {Checkboxes, CheckboxesWithOther, CheckboxesWithRadioButtonsOrOther, CheckboxesWithCheckboxesOrOther} ==>
              && (ChoiceText(f).None? ==> r == Err(NoChoices(Interpolate(Name(f)))))
              && (ChoiceText(f).Some? && Parse(ChoiceText(f).value) != [] ==> r == Err(NoResponses))
              && (ChoiceText(f).Some? && Parse(ChoiceText(f).value) == [] ==> r == Decode(pool, f, map[]) && r.Ok?)
  {
    match f.variant
    case Yesno => if f.options.None? then Err(NoOptions(Interpolate(Name(f)))) else Err(NoResponses)
    case RadioButtons => if ChoiceText(f).None? then Err(NoChoices(Interpolate(Name(f)))) else Err(NoResponses)
    case Checkboxes => CheckboxesWithoutResponses(pool, f)
    case CheckboxesWithOther => CheckboxesWithoutResponses(pool, f)
    case CheckboxesWithRadioButtonsOrOther => CheckboxesWithoutResponses(pool, f)
    case CheckboxesWithCheckboxesOrOther => CheckboxesWithoutResponses(pool, f)
    case _ => Err(NoResponses)
  }

  function CheckboxesWithoutResponses(pool: seq<Field>, f: Field): Result<Value>
    requires Decodable(pool, f)
  {
    if ChoiceText(f).None? then Err(NoChoices(Interpolate(Name(f))))
    else if Parse(ChoiceText(f).value) == [] then Decode(pool, f, map[])
    else Err(NoResponses)
  }

  /** Without responses a decoder either raises or returns what it returns for every
      response record: it never returns a value that depends on responses it could not
      read. */
  lemma WithoutResponsesUnread(pool: seq<Field>, f: Field, resp: Responses)
    requires Decodable(pool, f)
    requires DecodeWithoutResponses(pool, f).Ok?
    ensures Decode(pool, f, resp) == DecodeWithoutResponses(pool, f)
  {
    var cs := Parse(ChoiceText(f).value);
    assert cs == [];
    assert Selected(f, cs, resp) == [] && Selected(f, cs, map[]) == [];
  }

  /** The answer of one lookup on the memoised fields `fs`: `method_missing` finds the
      field, applies `as:` and the options, and decodes the responses. A name that no field
      has raises inside `find_field`. */
  function Answer(fs: seq<Field>, name: string, klass: Option<Variant>, options: Options,
                  responses: Option<Responses>): (r: Result<Value>)
    requires WellWired(fs) && Kindred(fs)
    ensures FirstNamed(fs, name).None? ==> r == Err(FieldNotFound(name))
    ensures FirstNamed(fs, name).Some? && responses.Some? ==>
              var i := FirstNamed(fs, name).value;
              && Decodable(AfterFind(fs, name, klass, options), Found(fs[i], klass, options))
              && r == Decode(AfterFind(fs, name, klass, options), Found(fs[i], klass, options), responses.value)
    ensures FirstNamed(fs, name).Some? && responses.None? ==>
              var i := FirstNamed(fs, name).value;
              && Decodable(AfterFind(fs, name, klass, options), Found(fs[i], klass, options))
              && r == DecodeWithoutResponses(AfterFind(fs, name, klass, options), Found(fs[i], klass, options))
    ensures FirstNamed(fs, name).Some? && responses.None? ==> r.Ok? || r.error != FieldNotFound(name)
  {
    match FirstNamed(fs, name)
    case None => Err(FieldNotFound(name))
    case Some(i) =>
      var pool := AfterFind(fs, name, klass, options);
      var f := Found(fs[i], klass, options);
      assert InPool(fs, fs[i]);
      DecodeFound(pool, f, responses)
  }

  /** `field.value(responses)`, where the responses may never have been set. */
  function DecodeFound(pool: seq<Field>, f: Field, responses: Option<Responses>): Result<Value>
    requires Decodable(pool, f)
  {
    if responses.None? then DecodeWithoutResponses(pool, f) else Decode(pool, f, responses.value)
  }

  /** A name no field has is an error, never an absent value. */
  lemma UnknownNameRaises(fs: seq<Field>, name: string, klass: Option<Variant>, options: Options,
                          responses: Option<Responses>)
    requires WellWired(fs) && Kindred(fs)
    requires forall k :: 0 <= k < |fs| ==> Name(fs[k]) != Some(name)
    ensures Answer(fs, name, klass, options, responses) == Err(FieldNotFound(name))
  {
  }

  /** The field a lookup decodes is the first field with that name; with an `as:` class it
      is a fresh field of that class on the same attributes, with no associated fields;
      either way its options are exactly the lookup's. */
  lemma FoundField(fs: seq<Field>, name: string, klass: Option<Variant>, options: Options)
    requires FirstNamed(fs, name).Some?
    ensures var i := FirstNamed(fs, name).value;
            var g := Found(fs[i], klass, options);
            && Name(g) == Some(name) && g.attributes == fs[i].attributes && g.options == Some(options)
            && (klass.Some? ==> g.variant == klass.value && g.associated.None?)
            && (klass.None? ==> g.variant == fs[i].variant && g.associated == fs[i].associated)
            && (klass.None? ==> AfterFind(fs, name, klass, options)[i] == g)
  {
  }

  /** Repeating a lookup changes nothing more and gives the same answer: the options the
      first lookup stored are the ones the second stores again. */
  lemma LookupRepeats(fs: seq<Field>, name: string, klass: Option<Variant>, options: Options,
                      responses: Option<Responses>)
    requires WellWired(fs) && Kindred(fs)
    ensures var gs := AfterFind(fs, name, klass, options);
            && AfterFind(gs, name, klass, options) == gs
            && Answer(gs, name, klass, options, responses) == Answer(fs, name, klass, options, responses)
  {
    var gs := AfterFind(fs, name, klass, options);
    var o := FirstNamed(fs, name);
    FirstNamedSameNames(gs, fs, name);
    if o.Some? {
      assert Found(gs[o.value], klass, options) == Found(fs[o.value], klass, options);
    }
  }

  /** Lookup by name sees only the attributes. */
  lemma {:induction false} FirstNamedSameNames(fs: seq<Field>, gs: seq<Field>, name: string)
    requires SameButOptions(fs, gs)
    ensures FirstNamed(fs, name) == FirstNamed(gs, name)
    decreases |fs|
  {
    if fs != [] {
      assert fs[0].(options := gs[0].options) == gs[0];
      assert Name(fs[0]) == Name(gs[0]);
      assert SameButOptions(fs[1..], gs[1..]) by {
        forall k | 0 <= k < |fs[1..]| ensures fs[1..][k].(options := gs[1..][k].options) == gs[1..][k] {
          assert fs[1..][k] == fs[k + 1] && gs[1..][k] == gs[k + 1];
        }
      }
      FirstNamedSameNames(fs[1..], gs[1..], name);
    }
  }

  /** The `map` step of `fields`: each entry's class is looked up, printing a warning for
      each type that names none, and instantiated on the entry. */
  method DeclareAll(dd: Dictionary) returns (built: seq<Field>, printed: seq<string>)
    ensures built == Declared(dd)
    ensures printed == Warnings(dd)
  {
    var rs := Resolutions(dd);
    built := [];
    printed := [];
    var i := 0;
    while i < |dd|
      invariant 0 <= i <= |dd|
      invariant |built| == i
      invariant forall k :: 0 <= k < i ==> built[k] == Declare(dd[k])
      invariant printed == Messages(rs[..i])
    {
      var r := rs[i];
      if r.warning.Some? {
        printed := printed + [r.warning.value];
      }
      built := built + [Field(dd[i], r.variant, None, None)];
      assert rs[..i + 1][..i] == rs[..i];
      i := i + 1;
    }
    assert rs[..|dd|] == rs;
  }

  /** The `each` step of `fields`: every field in turn gets as associated fields those of
      the whole list whose branching logic depends on it. */
  method WireAll(built: seq<Field>) returns (wired: seq<Field>)
    ensures |wired| == |built|
    ensures forall k :: 0 <= k < |built| ==> wired[k] == Wire(built, built[k])
  {
    wired := built;
    var j := 0;
    while j < |built|
      invariant 0 <= j <= |built| && |wired| == |built|
      invariant forall k :: 0 <= k < j ==> wired[k] == Wire(built, built[k])
      invariant forall k :: j <= k < |built| ==> wired[k] == built[k]
    {
      wired := wired[j := wired[j].(associated := Some(AssociatesOf(built, Interpolate(Name(wired[j])))))];
      j := j + 1;
    }
  }

  /** The `as:` handling of the accessor: a Symbol is looked up, printing a warning when it
      names no field class. */
  method ClassFor(a: Option<As>) returns (klass: Option<Variant>, printed: seq<string>)
    ensures klass == AsVariant(a)
    ensures printed == AsWarnings(a)
  {
    match a {
      case None =>
        klass, printed := None, [];
      case Some(AsSymbol(t)) =>
        var res := Resolve(Some(t));
        klass := Some(res.variant);
        printed := if res.warning.Some? then [res.warning.value] else [];
        assert [res][..0] == [] && [res][0] == res;
        assert Messages([res]) == Messages([]) + printed;
      case Some(AsClass(v)) =>
        klass, printed := Some(v), [];
    }
  }

  /** `fields.find { |field| field.field_name == key }`, walking the list in order. */
  method FindNamed(fs: seq<Field>, name: string) returns (o: Option<nat>)
    ensures o == FirstNamed(fs, name)
  {
    var i := 0;
    while i < |fs| && Name(fs[i]) != Some(name)
      invariant 0 <= i <= |fs|
      invariant forall k :: 0 <= k < i ==> Name(fs[k]) != Some(name)
    {
      i := i + 1;
    }
    o := if i < |fs| then Some(i) else None;
    FirstNamedIs(fs, name, o);
  }

  /** `find_field` followed by `value`: the first field of that name, replaced by a fresh
      one of the `as:` class if there is one, gets the options and decodes the responses.
      Returns the fields as they are afterwards and the answer. */
  method FindField(fs: seq<Field>, name: string, klass: Option<Variant>, options: Options,
                   responses: Option<Responses>) returns (after: seq<Field>, r: Result<Value>)
    requires WellWired(fs) && Kindred(fs)
    ensures after == AfterFind(fs, name, klass, options)
    ensures r == Answer(fs, name, klass, options, responses)
  {
    after := fs;
    var found := FindNamed(fs, name);
    if found.None? {
      return fs, Err(FieldNotFound(name));
    }
    var i := found.value;
    var f := fs[i];
    assert InPool(fs, f);
    if klass.Some? {
      f := Field(f.attributes, klass.value, Some(options), None);
    } else {
      f := f.(options := Some(options));
      after := fs[i := f];
    }
    assert after == AfterFind(fs, name, klass, options);
    assert f == Found(fs[i], klass, options);
    r := DecodeFound(after, f, responses);
  }

  /** A lookup keeps the memoised fields what they were built as, up to their options. */
  lemma AfterFindKeeps(fs: seq<Field>, name: string, klass: Option<Variant>, options: Options, base: seq<Field>)
    requires SameButOptions(fs, base) && WellWired(fs) && Kindred(fs)
    ensures var gs := AfterFind(fs, name, klass, options);
            SameButOptions(gs, base) && WellWired(gs) && Kindred(gs)
  {
    SameButOptionsTrans(AfterFind(fs, name, klass, options), fs, base);
  }

  /** `FirstNamed` is the one position that is named `name` with no earlier one named so. */
  lemma FirstNamedIs(fs: seq<Field>, name: string, o: Option<nat>)
    requires o.Some? ==> o.value < |fs| && Name(fs[o.value]) == Some(name)
    requires o.Some? ==> forall k :: 0 <= k < o.value ==> Name(fs[k]) != Some(name)
    requires o.None? ==> forall k :: 0 <= k < |fs| ==> Name(fs[k]) != Some(name)
    ensures o == FirstNamed(fs, name)
  {
  }

  // ---------------------------------------------------------------------------------------
  // The Form object

  class Form {
    /** `data_dictionary`, read and written through its accessor. */
    var dictionary: Dictionary
    /** `responses`, nil until assigned. */
    var responses: Option<Responses>
    /** `@fields`, nil until first built. */
    var memo: Option<seq<Field>>
    /** The lines printed to standard output so far. */
    var output: seq<string>
    /** The dictionary the memoised fields were built from. */
    ghost var builtFrom: Dictionary

    ghost predicate Valid()
      reads this
    {
      memo.Some? ==> SameButOptions(memo.value, Build(builtFrom)) && WellWired(memo.value) && Kindred(memo.value)
    }

    constructor(dd: Dictionary)
      ensures Valid()
      ensures dictionary == dd && responses.None? && memo.None? && output == []
    {
      dictionary := dd;
      responses := None;
      memo := None;
      output := [];
      builtFrom := [];
    }

    /** The fields a lookup works on: the memoised ones, or those built now. */
    ghost function Current(): seq<Field>
      reads this
    {
      if memo.Some? then memo.value else Build(dictionary)
    }

    /** What building the fields prints: nothing once they are memoised. */
    ghost function Pending(): seq<string>
      reads this
    {
      if memo.None? then Warnings(dictionary) else []
    }

    /** `responses=`. */
    method SetResponses(r: Option<Responses>)
      requires Valid()
      modifies this
      ensures Valid()
      ensures responses == r
      ensures dictionary == old(dictionary) && memo == old(memo) && output == old(output)
    {
      responses := r;
    }

    /** `data_dictionary=`: fields already built are kept. */
    method SetDictionary(dd: Dictionary)
      requires Valid()
      modifies this
      ensures Valid()
      ensures dictionary == dd
      ensures responses == old(responses) && memo == old(memo) && output == old(output)
    {
      dictionary := dd;
    }

    /** `fields`: built once, by looking up each entry's class and then wiring every field
      to its associates, and returned as they are on every later call. */
    method Fields() returns (fs: seq<Field>)
      requires Valid()
      modifies this
      ensures Valid()
      ensures memo == Some(fs)
      ensures dictionary == old(dictionary) && responses == old(responses)
      ensures old(memo).Some? ==> fs == old(memo).value && output == old(output)
      ensures old(memo).None? ==> fs == Build(dictionary) && output == old(output) + Warnings(dictionary)
      ensures fs == old(Current()) && output == old(output) + old(Pending())
    {
      if memo.Some? {
        return memo.value;
      }
      var dd := dictionary;
      var built, printed := DeclareAll(dd);
      fs := WireAll(built);
      output := output + printed;
      memo := Some(fs);
      builtFrom := dd;
    }

    /** A field accessor (`form.<name>(as: ..., **options)`): the value of the named field
      for the current responses. An `as:` Symbol is looked up first, then the field is
      looked up with the class it names. */
    method Access(name: string, as_: Option<As>, options: Options) returns (r: Result<Value>)
      requires Valid()
      modifies this
      ensures Valid()
      ensures dictionary == old(dictionary) && responses == old(responses)
      ensures var fs := if old(memo).Some? then old(memo).value else Build(dictionary);
              && output == old(output) + AsWarnings(as_) + (if old(memo).None? then Warnings(dictionary) else [])
              && memo == Some(AfterFind(fs, name, AsVariant(as_), options))
              && r == Answer(fs, name, AsVariant(as_), options, responses)
    {
      var klass, printed := ClassFor(as_);
      output := output + printed;
      r := Lookup(name, klass, options);
    }

    /** `find_field` and `value` with the class already looked up: the fields are built if
      need be, then the first field of that name is found, given the options and decoded. */
    method Lookup(name: string, klass: Option<Variant>, options: Options) returns (r: Result<Value>)
      requires Valid()
      modifies this
      ensures Valid()
      ensures dictionary == old(dictionary) && responses == old(responses)
      ensures var fs := old(Current());
              && output == old(output) + old(Pending())
              && memo == Some(AfterFind(fs, name, klass, options))
              && r == Answer(fs, name, klass, options, responses)
    {
      var fs := Fields();
      var after;
      after, r := FindField(fs, name, klass, options, responses);
      AfterFindKeeps(fs, name, klass, options, Build(builtFrom));
      memo := Some(after);
    }
  }
}
