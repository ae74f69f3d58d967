/** The field types of a data dictionary and how each one decodes a response record.
    A Field is a value here; the fields it is associated with are named by their positions
    in a pool, the Form's list of fields, so that shared and self-referencing associations
    keep their identity. */
module Fields {
  import opened Values
  import opened Choices

  /** One data-dictionary entry: attribute name to raw string. A missing key is nil. */
  type Attributes = map<string, string>

  /** One response record: response key to raw string. */
  type Responses = map<string, string>

  /** The keyword options of one lookup, without `as:`. */
  type Options = map<string, Value>

  /** The field classes of the engine. `Generic` is the base class `Field` itself; the
      aliases `Radio` and `Checkbox` name `RadioButtons` and `CheckboxesWithOther`. */
  datatype Variant =
    | Generic | Text | Notes | Descriptive | Dropdown | Sql | File | Yesno
    | RadioButtons | Checkboxes | CheckboxesWithOther
    | CheckboxesWithRadioButtonsOrOther | CheckboxesWithCheckboxesOrOther

  /** A field object: its attributes, its class, the options of the last lookup (nil until a
      lookup assigns them) and its associated fields (nil until the Form wires them). */
  datatype Field = Field(attributes: Attributes, variant: Variant, options: Option<Options>,
                         associated: Option<seq<nat>>)

  /** The attributes a field has readers for. */
  const AttributeKeys: seq<string> := [
    "field_name", "form_name", "section_header", "field_type", "field_label",
    "select_choices_or_calculations", "field_note", "text_validation_type_or_show_slider_number",
    "text_validation_min", "text_validation_max", "identifier", "branching_logic",
    "required_field", "custom_alignment", "question_number", "matrix_group_name",
    "matrix_ranking", "field_annotation"]

  /** The reader for one attribute. */
  function Attribute(f: Field, key: string): Option<string>
    requires key in AttributeKeys
  {
    Get(f.attributes, key)
  }

  function Name(f: Field): Option<string> { Attribute(f, "field_name") }
  function FieldType(f: Field): Option<string> { Attribute(f, "field_type") }
  function BranchingLogic(f: Field): Option<string> { Attribute(f, "branching_logic") }
  function ChoiceText(f: Field): Option<string> { Attribute(f, "select_choices_or_calculations") }

  /** The inquiry `field.<t>?`: the declared field type equals `t`; a Notes field also
      answers yes to `text?`. */
  predicate Is(f: Field, t: string)
  {
    (t == "text" && f.variant == Notes) || FieldType(f) == Some(t)
  }

  /** `responses[field_name]`. */
  function Raw(f: Field, resp: Responses): Option<string>
  {
    if Name(f).Some? then Get(resp, Name(f).value) else None
  }

  // ---------------------------------------------------------------------------------------
  // Pools of fields

  /** Every associated position of `f` names a field of the pool. */
  predicate InPool(pool: seq<Field>, f: Field)
  {
    f.associated.Some? ==> forall k :: 0 <= k < |f.associated.value| ==> f.associated.value[k] < |pool|
  }

  predicate WellWired(pool: seq<Field>)
  {
    forall i :: 0 <= i < |pool| ==> InPool(pool, pool[i])
  }

  /** The fields a composite decoder consults have the class their declared type names:
      a `text` field is a Text, a `radio` field a RadioButtons, a `checkbox` field a
      CheckboxesWithOther. Every field a Form builds satisfies this. */
  predicate Kindred(pool: seq<Field>)
  {
    forall i :: 0 <= i < |pool| ==>
      && (FieldType(pool[i]) == Some("text") ==> pool[i].variant == Text)
      && (FieldType(pool[i]) == Some("radio") ==> pool[i].variant == RadioButtons)
      && (FieldType(pool[i]) == Some("checkbox") ==> pool[i].variant == CheckboxesWithOther)
  }

  predicate Decodable(pool: seq<Field>, f: Field)
  {
    WellWired(pool) && InPool(pool, f) && Kindred(pool)
  }

  // ---------------------------------------------------------------------------------------
  // Choices and selections

  /** `options` of the choice classes: `split` on nil raises. */
  function ChoicesOf(f: Field): (r: Result<seq<Choice>>)
    ensures r.Err? <==> ChoiceText(f).None?
    ensures r.Ok? ==> r.value == Parse(ChoiceText(f).value) && DistinctKeys(r.value) && Paired(r.value)
  {
    if ChoiceText(f).None? then Err(NoChoices(Interpolate(Name(f))))
    else
      ParseLaterLabelWins(ChoiceText(f).value, None);
      ParsePaired(ChoiceText(f).value);
      Ok(Parse(ChoiceText(f).value))
  }

  /** The response key of one checkbox: `"#{field_name}___#{key}"`. */
  function CheckKey(f: Field, key: Option<string>): string
  {
    Interpolate(Name(f)) + "___" + Interpolate(key)
  }

  predicate IsChecked(f: Field, c: Choice, resp: Responses)
  {
    Get(resp, CheckKey(f, c.key)) == Some("1")
  }

  /** `selected_options`: the choices whose checkbox reads "1", in declared order. */
  function Selected(f: Field, cs: seq<Choice>, resp: Responses): seq<Choice>
  {
    if cs == [] then []
    else (if IsChecked(f, cs[0], resp) then [cs[0]] else []) + Selected(f, cs[1..], resp)
  }

  /** `a` is `b` with some elements left out and the rest kept in order. */
  predicate IsSubsequence<T(==)>(a: seq<T>, b: seq<T>)
    decreases |b|
  {
    if a == [] then true
    else if b == [] then false
    else (a[0] == b[0] && IsSubsequence(a[1..], b[1..])) || IsSubsequence(a, b[1..])
  }

  /** The selection holds exactly the checked choices. */
  lemma {:induction false} SelectedIsChecked(f: Field, cs: seq<Choice>, resp: Responses)
    ensures forall c :: c in Selected(f, cs, resp) <==> c in cs && IsChecked(f, c, resp)
  {
    if cs != [] {
      SelectedIsChecked(f, cs[1..], resp);
      assert cs == [cs[0]] + cs[1..];
    }
  }

  /** The selection keeps the declared order of the choices, whatever order the response
      record lists its keys in. */
  lemma {:induction false} SelectedInDeclaredOrder(f: Field, cs: seq<Choice>, resp: Responses)
    ensures IsSubsequence(Selected(f, cs, resp), cs)
  {
    if cs != [] {
      SelectedInDeclaredOrder(f, cs[1..], resp);
      var rest := Selected(f, cs[1..], resp);
      if IsChecked(f, cs[0], resp) {
        assert Selected(f, cs, resp) == [cs[0]] + rest;
        assert ([cs[0]] + rest)[1..] == rest;
      } else {
        assert Selected(f, cs, resp) == rest;
        SubsequenceSkip(rest, cs);
      }
    }
  }

  /** A subsequence of a subsequence is a subsequence. */
  lemma {:induction false} SubsequenceTrans<T>(a: seq<T>, b: seq<T>, c: seq<T>)
    requires IsSubsequence(a, b) && IsSubsequence(b, c)
    ensures IsSubsequence(a, c)
    decreases |c|
  {
    if a != [] {
      if b[0] == c[0] && IsSubsequence(b[1..], c[1..]) {
        if a[0] == b[0] && IsSubsequence(a[1..], b[1..]) {
          SubsequenceTrans(a[1..], b[1..], c[1..]);
        } else {
          SubsequenceTrans(a, b[1..], c[1..]);
        }
      } else {
        SubsequenceTrans(a, b, c[1..]);
      }
    }
  }

  lemma {:induction false} SubsequenceSkip<T>(a: seq<T>, b: seq<T>)
    requires b != [] && IsSubsequence(a, b[1..])
    ensures IsSubsequence(a, b)
  {
  }

  /** The captions of a selection as decoded values. */
  function Captions(sel: seq<Choice>): (vs: seq<Value>)
    ensures |vs| == |sel|
    ensures forall k :: 0 <= k < |sel| ==> vs[k] == OfRaw(sel[k].caption)
  {
    seq(|sel|, k requires 0 <= k < |sel| => OfRaw(sel[k].caption))
  }

  // ---------------------------------------------------------------------------------------
  // Associated fields

  /** The branching logic that shows a field exactly when choice `key` of `f` is ticked. */
  function Canonical(f: Field, key: Option<string>): string
  {
    "[" + Interpolate(Name(f)) + "(" + Interpolate(key) + ")]=\"1\""
  }

  /** `associated_fields_for_key`: the associated fields whose branching logic is exactly
      the canonical condition on `key`, in wiring order. */
  function ForKey(pool: seq<Field>, f: Field, key: Option<string>): (js: seq<nat>)
    requires f.associated.Some? && InPool(pool, f)
    ensures forall j :: j in js <==> j in f.associated.value && BranchingLogic(pool[j]) == Some(Canonical(f, key))
    ensures forall k :: 0 <= k < |js| ==> js[k] < |pool|
    ensures IsSubsequence(js, f.associated.value)
  {
    FilterLogic(pool, f.associated.value, Canonical(f, key))
  }

  function FilterLogic(pool: seq<Field>, js: seq<nat>, logic: string): (r: seq<nat>)
    requires forall k :: 0 <= k < |js| ==> js[k] < |pool|
    ensures forall j :: j in r <==> j in js && BranchingLogic(pool[j]) == Some(logic)
    ensures forall k :: 0 <= k < |r| ==> r[k] < |pool|
    ensures IsSubsequence(r, js)
  {
    if js == [] then []
    else
      var rest := FilterLogic(pool, js[1..], logic);
      if BranchingLogic(pool[js[0]]) == Some(logic) then
        KeepFirst(js, rest);
        [js[0]] + rest
      else
        SubsequenceSkip(rest, js);
        rest
  }

  lemma KeepFirst<T>(b: seq<T>, a: seq<T>)
    requires b != [] && IsSubsequence(a, b[1..])
    ensures IsSubsequence([b[0]] + a, b)
  {
    assert ([b[0]] + a)[1..] == a;
  }

  /** `find(&:<t>?)`: the first of `js` whose inquiry `t?` holds. */
  function FirstThat(pool: seq<Field>, js: seq<nat>, t: string): (o: Option<nat>)
    requires forall k :: 0 <= k < |js| ==> js[k] < |pool|
    ensures o.Some? ==> o.value in js && Is(pool[o.value], t)
    ensures o.Some? ==> exists i :: 0 <= i < |js| && js[i] == o.value && forall h :: 0 <= h < i ==> !Is(pool[js[h]], t)
    ensures o.None? ==> forall j :: j in js ==> !Is(pool[j], t)
  {
    if js == [] then None
    else if Is(pool[js[0]], t) then
      Some(js[0])
    else
      var o := FirstThat(pool, js[1..], t);
      FirstShift(pool, js, t, o);
      o
  }

  lemma FirstShift(pool: seq<Field>, js: seq<nat>, t: string, o: Option<nat>)
    requires js != [] && forall k :: 0 <= k < |js| ==> js[k] < |pool|
    requires !Is(pool[js[0]], t)
    requires o.Some? ==> exists i :: 0 <= i < |js[1..]| && js[1..][i] == o.value && forall h :: 0 <= h < i ==> !Is(pool[js[1..][h]], t)
    ensures o.Some? ==> exists i :: 0 <= i < |js| && js[i] == o.value && forall h :: 0 <= h < i ==> !Is(pool[js[h]], t)
  {
    if o.Some? {
      var i :| 0 <= i < |js[1..]| && js[1..][i] == o.value && forall h :: 0 <= h < i ==> !Is(pool[js[1..][h]], t);
      forall h | 0 <= h < i + 1 ensures !Is(pool[js[h]], t) {
        if h > 0 { assert js[h] == js[1..][h - 1]; }
      }
      assert js[i + 1] == o.value;
    }
  }

  /** `select(&:<t>?)`: those of `js` whose inquiry `t?` holds, in order. */
  function AllThat(pool: seq<Field>, js: seq<nat>, t: string): (r: seq<nat>)
    requires forall k :: 0 <= k < |js| ==> js[k] < |pool|
    ensures forall j :: j in r <==> j in js && Is(pool[j], t)
    ensures forall k :: 0 <= k < |r| ==> r[k] < |pool|
    ensures IsSubsequence(r, js)
  {
    if js == [] then []
    else
      var rest := AllThat(pool, js[1..], t);
      if Is(pool[js[0]], t) then
        KeepFirst(js, rest);
        [js[0]] + rest
      else
        SubsequenceSkip(rest, js);
        rest
  }

  /** `other_text_field(key)`: the first text-like field associated with choice `key`. */
  function OtherTextField(pool: seq<Field>, f: Field, key: Option<string>): (o: Option<nat>)
    requires f.associated.Some? && InPool(pool, f)
    ensures o.Some? ==> o.value < |pool| && o.value in f.associated.value
                        && BranchingLogic(pool[o.value]) == Some(Canonical(f, key)) && Is(pool[o.value], "text")
    ensures o.None? <==> forall j :: j in f.associated.value && BranchingLogic(pool[j]) == Some(Canonical(f, key)) ==> !Is(pool[j], "text")
    ensures o.Some? ==> exists i :: 0 <= i < |f.associated.value| && f.associated.value[i] == o.value &&
                          forall h :: 0 <= h < i ==> !FollowsUp(pool[f.associated.value[h]], Canonical(f, key), "text")
  {
    FirstOfFilter(pool, f.associated.value, Canonical(f, key), "text");
    FirstThat(pool, ForKey(pool, f, key), "text")
  }

  /** `f` carries branching logic `logic` and answers yes to `t?`. */
  predicate FollowsUp(f: Field, logic: string, t: string)
  {
    BranchingLogic(f) == Some(logic) && Is(f, t)
  }

  /** The first of the fields with logic `logic` that answers `t?` is the first field of
      `js` that does both. */
  lemma {:induction false} FirstOfFilter(pool: seq<Field>, js: seq<nat>, logic: string, t: string)
    requires forall k :: 0 <= k < |js| ==> js[k] < |pool|
    ensures var o := FirstThat(pool, FilterLogic(pool, js, logic), t);
            o.Some? ==> exists i :: 0 <= i < |js| && js[i] == o.value && forall h :: 0 <= h < i ==> !FollowsUp(pool[js[h]], logic, t)
  {
    if js != [] {
      FirstOfFilter(pool, js[1..], logic, t);
      var rest := FilterLogic(pool, js[1..], logic);
      if !FollowsUp(pool[js[0]], logic, t) {
        FirstSkips(pool, js, logic, t);
        ShiftFirst(pool, js, logic, t, FirstThat(pool, rest, t));
      }
    }
  }

  /** A field that does not follow up is skipped by the search. */
  lemma FirstSkips(pool: seq<Field>, js: seq<nat>, logic: string, t: string)
    requires js != [] && forall k :: 0 <= k < |js| ==> js[k] < |pool|
    requires !FollowsUp(pool[js[0]], logic, t)
    ensures FirstThat(pool, FilterLogic(pool, js, logic), t) == FirstThat(pool, FilterLogic(pool, js[1..], logic), t)
  {
    var rest := FilterLogic(pool, js[1..], logic);
    if BranchingLogic(pool[js[0]]) == Some(logic) {
      assert FilterLogic(pool, js, logic) == [js[0]] + rest;
      assert ([js[0]] + rest)[1..] == rest;
    }
  }

  lemma ShiftFirst(pool: seq<Field>, js: seq<nat>, logic: string, t: string, o: Option<nat>)
    requires js != [] && forall k :: 0 <= k < |js| ==> js[k] < |pool|
    requires !FollowsUp(pool[js[0]], logic, t)
    requires o.Some? ==> exists i :: 0 <= i < |js[1..]| && js[1..][i] == o.value && forall h :: 0 <= h < i ==> !FollowsUp(pool[js[1..][h]], logic, t)
    ensures o.Some? ==> exists i :: 0 <= i < |js| && js[i] == o.value && forall h :: 0 <= h < i ==> !FollowsUp(pool[js[h]], logic, t)
  {
    if o.Some? {
      var i :| 0 <= i < |js[1..]| && js[1..][i] == o.value && forall h :: 0 <= h < i ==> !FollowsUp(pool[js[1..][h]], logic, t);
      forall h | 0 <= h < i + 1 ensures !FollowsUp(pool[js[h]], logic, t) {
        if h > 0 { assert js[h] == js[1..][h - 1]; }
      }
      assert js[i + 1] == o.value;
    }
  }

  // ---------------------------------------------------------------------------------------
  // The decoders

  /** Text, Notes, Descriptive, Dropdown, Sql and the base class: the raw response. */
  function IdentityValue(f: Field, resp: Responses): (v: Value)
    ensures v == Absent <==> Name(f).None? || Name(f).value !in resp
    ensures forall s :: v == Str(s) <==> Name(f).Some? && Name(f).value in resp && resp[Name(f).value] == s
  {
    OfRaw(Raw(f, resp))
  }

  /** `[[:space:]]` of a Unicode string: the characters with the White_Space property. */
  predicate IsBlankChar(c: char)
  {
    || c == ' ' || ('\t' <= c <= '\r') || c == '\U{85}' || c == '\U{A0}' || c == '\U{1680}'
    || ('\U{2000}' <= c <= '\U{200A}') || c == '\U{2028}' || c == '\U{2029}'
    || c == '\U{202F}' || c == '\U{205F}' || c == '\U{3000}'
  }

  /** `blank?` of a string: empty or only whitespace. */
  predicate IsBlank(s: string)
  {
    forall k :: 0 <= k < |s| ==> IsBlankChar(s[k])
  }

  /** File: the field's own name stands for an uploaded file. */
  function FileValue(f: Field, resp: Responses): (v: Value)
    ensures v != Absent <==> Raw(f, resp).Some? && !IsBlank(Raw(f, resp).value)
    ensures v != Absent ==> Name(f).Some? && v == Str(Name(f).value)
  {
    var raw := Raw(f, resp);
    if raw.Some? && !IsBlank(raw.value) then Str(Name(f).value) else Absent
  }

  /** Yesno: "1" is yes and anything else no, except that an empty answer gives the
      `default:` option when the lookup supplied one. */
  function YesnoValue(f: Field, resp: Responses): (r: Result<Value>)
    ensures r.Err? <==> f.options.None?
    ensures f.options.Some? && "default" in f.options.value && Raw(f, resp) == Some("") ==>
              r == Ok(f.options.value["default"])
    ensures f.options.Some? && ("default" !in f.options.value || Raw(f, resp) != Some("")) ==>
              (r == Ok(Bool(true)) <==> Raw(f, resp) == Some("1")) && r.value.Bool?
  {
    if f.options.None? then Err(NoOptions(Interpolate(Name(f))))
    else if "default" in f.options.value && Raw(f, resp) == Some("") then Ok(f.options.value["default"])
    else Ok(Bool(Raw(f, resp) == Some("1")))
  }

  /** RadioButtons: the label of the chosen key, nil for a key the choices do not hold. */
  function RadioValue(f: Field, resp: Responses): (r: Result<Value>)
    ensures r.Err? <==> ChoiceText(f).None?
    ensures r.Ok? ==> forall s :: r.value == Str(s) <==> Choice(Raw(f, resp), Some(s)) in Parse(ChoiceText(f).value)
    ensures r.Ok? ==> (r.value == Absent <==> forall s :: Choice(Raw(f, resp), Some(s)) !in Parse(ChoiceText(f).value))
    ensures r.Ok? && Raw(f, resp).None? ==> r.value == Absent
  {
    match ChoicesOf(f)
    case Err(e) => Err(e)
    case Ok(cs) =>
      var v := OfRaw(LabelFor(cs, Raw(f, resp)));
      forall s ensures v == Str(s) <==> Choice(Raw(f, resp), Some(s)) in cs {
        FindDistinct(cs, Raw(f, resp));
      }
      FindDistinct(cs, None);
      Ok(v)
  }

  /** In a hash with distinct keys, the label found for `k` is the label of the one entry
      whose key is `k`; a missing key finds nothing. */
  lemma {:induction false} FindDistinct(cs: seq<Choice>, k: Option<string>)
    requires DistinctKeys(cs)
    ensures Find(cs, k).None? <==> forall c :: c in cs ==> c.key != k
    ensures forall l :: Find(cs, k) == Some(l) <==> Choice(k, l) in cs
  {
    if cs != [] {
      assert DistinctKeys(cs[1..]) by {
        forall i, j | 0 <= i < j < |cs[1..]| ensures cs[1..][i].key != cs[1..][j].key {
          assert cs[1..][i] == cs[i + 1] && cs[1..][j] == cs[j + 1];
        }
      }
      FindDistinct(cs[1..], k);
      if cs[0].key == k {
        forall c | c in cs[1..] ensures c.key != k {
          var i :| 0 <= i < |cs[1..]| && cs[1..][i] == c;
          assert cs[i + 1] == c;
        }
      }
      assert cs == [cs[0]] + cs[1..];
    }
  }

  /** Checkboxes: the labels of the ticked choices. */
  function CheckboxesValue(f: Field, resp: Responses): (r: Result<Value>)
    ensures r.Err? <==> ChoiceText(f).None?
    ensures r.Ok? ==> r.value == List(Captions(Selected(f, Parse(ChoiceText(f).value), resp)))
  {
    match ChoicesOf(f)
    case Err(e) => Err(e)
    case Ok(cs) => Ok(List(Captions(Selected(f, cs, resp))))
  }

  /** One entry of CheckboxesWithOther: `"<label>: <text>"` for a choice that has an
      associated text field, the bare label otherwise. The text field is a Text or a Notes
      (`Kindred`), whose value is its raw response. */
  function WithOtherEntry(pool: seq<Field>, f: Field, c: Choice, resp: Responses): (v: Value)
    requires f.associated.Some? && InPool(pool, f)
    ensures OtherTextField(pool, f, c.key).Some? ==>
              v == Str(Interpolate(c.caption) + ": " + Interpolate(Raw(pool[OtherTextField(pool, f, c.key).value], resp)))
    ensures OtherTextField(pool, f, c.key).None? ==> v == OfRaw(c.caption)
  {
    var o := OtherTextField(pool, f, c.key);
    if o.Some? then Str(Interpolate(c.caption) + ": " + Interpolate(Raw(pool[o.value], resp)))
    else OfRaw(c.caption)
  }

  function WithOtherEntries(pool: seq<Field>, f: Field, sel: seq<Choice>, resp: Responses): (vs: seq<Value>)
    requires f.associated.Some? && InPool(pool, f)
    ensures |vs| == |sel|
    ensures forall k :: 0 <= k < |sel| ==> vs[k] == WithOtherEntry(pool, f, sel[k], resp)
  {
    seq(|sel|, k requires 0 <= k < |sel| => WithOtherEntry(pool, f, sel[k], resp))
  }

  /** CheckboxesWithOther (the class of `checkbox` fields). With no ticked choice no
      associated field is consulted, so unwired fields decode to the empty list. */
  function WithOtherValue(pool: seq<Field>, f: Field, resp: Responses): (r: Result<Value>)
    requires InPool(pool, f) && Kindred(pool)
    ensures ChoiceText(f).None? ==> r == Err(NoChoices(Interpolate(Name(f))))
    ensures ChoiceText(f).Some? ==>
              var sel := Selected(f, Parse(ChoiceText(f).value), resp);
              && (sel != [] && f.associated.None? ==> r == Err(NoAssociates(Interpolate(Name(f)))))
              && (sel == [] ==> r == Ok(List([])))
              && (f.associated.Some? ==> r == Ok(List(WithOtherEntries(pool, f, sel, resp))))
  {
    match ChoicesOf(f)
    case Err(e) => Err(e)
    case Ok(cs) =>
      var sel := Selected(f, cs, resp);
      if sel == [] then Ok(List([]))
      else if f.associated.None? then Err(NoAssociates(Interpolate(Name(f))))
      else Ok(List(WithOtherEntries(pool, f, sel, resp)))
  }

  /** The list of ticked labels as a CheckboxesWithOther field decodes it: each ticked
      choice in declared order, rendered with its associated text exactly when an
      associated text field carries the canonical branching logic for that choice. */
  lemma WithOtherRendersOther(pool: seq<Field>, f: Field, resp: Responses, k: nat)
    requires InPool(pool, f) && Kindred(pool) && f.associated.Some? && ChoiceText(f).Some?
    requires k < |Selected(f, Parse(ChoiceText(f).value), resp)|
    ensures var c := Selected(f, Parse(ChoiceText(f).value), resp)[k];
            var v := WithOtherValue(pool, f, resp);
            && v.Ok? && v.value.List? && |v.value.items| == |Selected(f, Parse(ChoiceText(f).value), resp)|
            && v.value.items[k] == WithOtherEntry(pool, f, c, resp)
            && ((exists j :: j in f.associated.value && BranchingLogic(pool[j]) == Some(Canonical(f, c.key)) && Is(pool[j], "text"))
                  <==> v.value.items[k] != OfRaw(c.caption))
  {
    var c := Selected(f, Parse(ChoiceText(f).value), resp)[k];
    var o := OtherTextField(pool, f, c.key);
    if o.Some? {
      var s := Interpolate(c.caption) + ": " + Interpolate(Raw(pool[o.value], resp));
      if c.caption.Some? {
        assert |s| > |c.caption.value|;
      } else {
        assert |s| > 0;
      }
    }
  }

  /** A text-like field that a composite consults decodes to its raw response, which is
      what the composite decoders read in its place. */
  lemma TextAssociateIsRaw(pool: seq<Field>, j: nat, resp: Responses)
    requires j < |pool| && Decodable(pool, pool[j]) && Is(pool[j], "text")
    ensures Decode(pool, pool[j], resp) == Ok(OfRaw(Raw(pool[j], resp)))
  {
  }

  /** One value of CheckboxesWithRadioButtonsOrOther: the associated text field's value if
      there is one, else the associated radio field's value, else nil. */
  function RadioOrOtherEntry(pool: seq<Field>, f: Field, c: Choice, resp: Responses): Result<Value>
    requires f.associated.Some? && InPool(pool, f) && Kindred(pool)
  {
    var t := OtherTextField(pool, f, c.key);
    if t.Some? then Ok(OfRaw(Raw(pool[t.value], resp)))
    else
      var radio := FirstThat(pool, ForKey(pool, f, c.key), "radio");
      if radio.Some? then RadioValue(pool[radio.value], resp) else Ok(Absent)
  }

  /** The values for the ticked choices, stopping at the first one that raises. */
  function RadioOrOtherEntries(pool: seq<Field>, f: Field, sel: seq<Choice>, resp: Responses): (r: Result<seq<Value>>)
    requires f.associated.Some? && InPool(pool, f) && Kindred(pool)
    ensures r.Ok? <==> forall k :: 0 <= k < |sel| ==> RadioOrOtherEntry(pool, f, sel[k], resp).Ok?
    ensures r.Ok? ==> |r.value| == |sel|
    ensures r.Ok? ==> forall k :: 0 <= k < |sel| ==> RadioOrOtherEntry(pool, f, sel[k], resp) == Ok(r.value[k])
    ensures r.Err? ==> exists k :: 0 <= k < |sel| && RadioOrOtherEntry(pool, f, sel[k], resp) == Err(r.error)
                                 && forall h :: 0 <= h < k ==> RadioOrOtherEntry(pool, f, sel[h], resp).Ok?
  {
    var rs := seq(|sel|, k requires 0 <= k < |sel| => RadioOrOtherEntry(pool, f, sel[k], resp));
    assert forall k :: 0 <= k < |sel| ==> rs[k] == RadioOrOtherEntry(pool, f, sel[k], resp);
    AllOk(rs)
  }

  /** `Hash[labels.zip(values)]`: a later duplicate label overwrites an earlier one. */
  function ZipDict(ls: seq<Option<string>>, vs: seq<Value>): map<Option<string>, Value>
    requires |ls| == |vs|
  {
    if ls == [] then map[]
    else ZipDict(ls[..|ls| - 1], vs[..|vs| - 1])[ls[|ls| - 1] := vs[|vs| - 1]]
  }

  /** The hash holds each label once, with the value paired with the last occurrence of
      that label; with distinct labels every label keeps its own value. */
  lemma {:induction false} ZipDictKeys(ls: seq<Option<string>>, vs: seq<Value>)
    requires |ls| == |vs|
    ensures forall l :: l in ZipDict(ls, vs) <==> l in ls
  {
    if ls != [] {
      var n := |ls| - 1;
      ZipDictKeys(ls[..n], vs[..n]);
      assert ls == ls[..n] + [ls[n]];
    }
  }

  lemma {:induction false} ZipDictDistinct(ls: seq<Option<string>>, vs: seq<Value>)
    requires |ls| == |vs|
    requires forall i, j :: 0 <= i < j < |ls| ==> ls[i] != ls[j]
    ensures forall k :: 0 <= k < |ls| ==> ls[k] in ZipDict(ls, vs) && ZipDict(ls, vs)[ls[k]] == vs[k]
  {
    if ls != [] {
      var n := |ls| - 1;
      ZipDictDistinct(ls[..n], vs[..n]);
      forall k | 0 <= k < |ls| ensures ls[k] in ZipDict(ls, vs) && ZipDict(ls, vs)[ls[k]] == vs[k] {
        if k < n {
          assert ls[..n][k] == ls[k] && vs[..n][k] == vs[k];
          assert ls[k] != ls[n];
        }
      }
    }
  }

  lemma ZipDictLookup(ls: seq<Option<string>>, vs: seq<Value>)
    requires |ls| == |vs|
    ensures ZipDict(ls, vs).Keys == set l | l in ls
    ensures (forall i, j :: 0 <= i < j < |ls| ==> ls[i] != ls[j]) ==>
              forall k :: 0 <= k < |ls| ==> ZipDict(ls, vs)[ls[k]] == vs[k]
  {
    ZipDictKeys(ls, vs);
    if forall i, j :: 0 <= i < j < |ls| ==> ls[i] != ls[j] {
      ZipDictDistinct(ls, vs);
    }
  }

  function Keyed(sel: seq<Choice>): (ls: seq<Option<string>>)
    ensures |ls| == |sel|
    ensures forall k :: 0 <= k < |sel| ==> ls[k] == sel[k].caption
  {
    seq(|sel|, k requires 0 <= k < |sel| => sel[k].caption)
  }

  /** CheckboxesWithRadioButtonsOrOther: a hash from each ticked label to the value of the
      field that follows up on it. */
  function RadioOrOtherValue(pool: seq<Field>, f: Field, resp: Responses): (r: Result<Value>)
    requires InPool(pool, f) && Kindred(pool)
    ensures ChoiceText(f).None? ==> r == Err(NoChoices(Interpolate(Name(f))))
    ensures ChoiceText(f).Some? ==>
              var sel := Selected(f, Parse(ChoiceText(f).value), resp);
              && (sel == [] ==> r == Ok(Dict(map[])))
              && (sel != [] && f.associated.None? ==> r == Err(NoAssociates(Interpolate(Name(f)))))
              && (sel != [] && f.associated.Some? ==>
                    && (r.Ok? <==> forall k :: 0 <= k < |sel| ==> RadioOrOtherEntry(pool, f, sel[k], resp).Ok?)
                    && (r.Err? ==> exists k :: 0 <= k < |sel| && RadioOrOtherEntry(pool, f, sel[k], resp) == Err(r.error)
                                                && forall h :: 0 <= h < k ==> RadioOrOtherEntry(pool, f, sel[h], resp).Ok?)
                    && (r.Ok? ==>
                          && RadioOrOtherEntries(pool, f, sel, resp).Ok?
                          && r == Ok(Dict(ZipDict(Keyed(sel), RadioOrOtherEntries(pool, f, sel, resp).value)))))
  {
    match ChoicesOf(f)
    case Err(e) => Err(e)
    case Ok(cs) =>
      var sel := Selected(f, cs, resp);
      if sel == [] then Ok(Dict(map[]))
      else if f.associated.None? then Err(NoAssociates(Interpolate(Name(f))))
      else
        match RadioOrOtherEntries(pool, f, sel, resp)
        case Err(e) => Err(e)
        case Ok(vs) => Ok(Dict(ZipDict(Keyed(sel), vs)))
  }

  lemma KeyedCaptions(sel: seq<Choice>)
    ensures (set l | l in Keyed(sel)) == (set c | c in sel :: c.caption)
  {
    forall l | l in Keyed(sel) ensures l in (set c | c in sel :: c.caption) {
      var k :| 0 <= k < |sel| && Keyed(sel)[k] == l;
      assert sel[k] in sel;
    }
    forall c | c in sel ensures c.caption in Keyed(sel) {
      var k :| 0 <= k < |sel| && sel[k] == c;
      assert Keyed(sel)[k] == c.caption;
    }
  }

  /** The decoded hash of CheckboxesWithRadioButtonsOrOther has exactly the ticked labels as
      keys, and with distinct labels each maps to the value of its follow-up field. */
  lemma RadioOrOtherKeys(pool: seq<Field>, f: Field, resp: Responses)
    requires InPool(pool, f) && Kindred(pool) && ChoiceText(f).Some?
    requires RadioOrOtherValue(pool, f, resp).Ok?
    ensures var sel := Selected(f, Parse(ChoiceText(f).value), resp);
            var d := RadioOrOtherValue(pool, f, resp).value;
            && d.Dict?
            && d.entries.Keys == (set c | c in sel :: c.caption)
            && ((forall i, j :: 0 <= i < j < |sel| ==> sel[i].caption != sel[j].caption) ==>
                  forall k :: 0 <= k < |sel| ==> RadioOrOtherEntry(pool, f, sel[k], resp) == Ok(d.entries[sel[k].caption]))
  {
    var sel := Selected(f, Parse(ChoiceText(f).value), resp);
    KeyedCaptions(sel);
    if sel != [] {
      var vs := RadioOrOtherEntries(pool, f, sel, resp).value;
      assert RadioOrOtherValue(pool, f, resp).value == Dict(ZipDict(Keyed(sel), vs));
      ZipDictLookup(Keyed(sel), vs);
    }
  }

  /** The decoded sub-checkbox values of one choice: each associated `checkbox` field, a
      CheckboxesWithOther, decoded in turn; the first one that raises ends the walk. */
  function SubValues(pool: seq<Field>, js: seq<nat>, resp: Responses): (r: Result<seq<Value>>)
    requires WellWired(pool) && Kindred(pool)
    requires forall k :: 0 <= k < |js| ==> js[k] < |pool|
    ensures r.Ok? <==> forall k :: 0 <= k < |js| ==> WithOtherValue(pool, pool[js[k]], resp).Ok?
    ensures r.Ok? ==> |r.value| == |js| && forall k :: 0 <= k < |js| ==> WithOtherValue(pool, pool[js[k]], resp) == Ok(r.value[k])
    ensures r.Err? ==> exists k :: 0 <= k < |js| && WithOtherValue(pool, pool[js[k]], resp) == Err(r.error)
                                 && forall h :: 0 <= h < k ==> WithOtherValue(pool, pool[js[h]], resp).Ok?
  {
    var rs := seq(|js|, k requires 0 <= k < |js| => WithOtherValue(pool, pool[js[k]], resp));
    assert forall k :: 0 <= k < |js| ==> rs[k] == WithOtherValue(pool, pool[js[k]], resp);
    AllOk(rs)
  }

  /** The associated `checkbox` fields of one ticked choice: `checkbox_fields_for(key)`. */
  function CheckboxFieldsFor(pool: seq<Field>, f: Field, key: Option<string>): (js: seq<nat>)
    requires f.associated.Some? && InPool(pool, f)
    ensures forall j :: j in js <==> j in f.associated.value && BranchingLogic(pool[j]) == Some(Canonical(f, key)) && Is(pool[j], "checkbox")
    ensures forall k :: 0 <= k < |js| ==> js[k] < |pool|
    ensures IsSubsequence(js, f.associated.value)
  {
    var forKey := ForKey(pool, f, key);
    SubsequenceTrans(AllThat(pool, forKey, "checkbox"), forKey, f.associated.value);
    AllThat(pool, forKey, "checkbox")
  }

  /** The slot of one ticked choice: the list of its sub-checkbox values. */
  function CheckboxSlot(pool: seq<Field>, f: Field, c: Choice, resp: Responses): (r: Result<Value>)
    requires WellWired(pool) && Kindred(pool) && f.associated.Some? && InPool(pool, f)
    ensures r.Ok? <==> SubValues(pool, CheckboxFieldsFor(pool, f, c.key), resp).Ok?
    ensures r.Ok? ==> r.value == List(SubValues(pool, CheckboxFieldsFor(pool, f, c.key), resp).value)
    ensures r.Err? ==> r.error == SubValues(pool, CheckboxFieldsFor(pool, f, c.key), resp).error
  {
    match SubValues(pool, CheckboxFieldsFor(pool, f, c.key), resp)
    case Err(e) => Err(e)
    case Ok(vs) => Ok(List(vs))
  }

  /** `checkbox_fields_for(key).map { |field| field.value(responses) }` for each ticked key. */
  function CheckboxRights(pool: seq<Field>, f: Field, sel: seq<Choice>, resp: Responses): (r: Result<seq<Value>>)
    requires WellWired(pool) && Kindred(pool) && f.associated.Some? && InPool(pool, f)
    ensures r.Ok? <==> forall k :: 0 <= k < |sel| ==> CheckboxSlot(pool, f, sel[k], resp).Ok?
    ensures r.Ok? ==> |r.value| == |sel| && forall k :: 0 <= k < |sel| ==> CheckboxSlot(pool, f, sel[k], resp) == Ok(r.value[k])
    ensures r.Err? ==> exists k :: 0 <= k < |sel| && CheckboxSlot(pool, f, sel[k], resp) == Err(r.error)
                                 && forall h :: 0 <= h < k ==> CheckboxSlot(pool, f, sel[h], resp).Ok?
  {
    var rs := seq(|sel|, k requires 0 <= k < |sel| => CheckboxSlot(pool, f, sel[k], resp));
    assert forall k :: 0 <= k < |sel| ==> rs[k] == CheckboxSlot(pool, f, sel[k], resp);
    AllOk(rs)
  }

  /** An associated `checkbox` field decodes, through the dispatch, as a CheckboxesWithOther:
      the sub-checkbox values above are what `field.value(responses)` yields. */
  lemma CheckboxAssociateDecodes(pool: seq<Field>, j: nat, resp: Responses)
    requires j < |pool| && Decodable(pool, pool[j]) && Is(pool[j], "checkbox")
    ensures Decode(pool, pool[j], resp) == WithOtherValue(pool, pool[j], resp)
  {
  }

  /** The value the `501` special case puts in place: `[other_text_field("501")&.value]`. */
  function OtherFiveHundredOne(pool: seq<Field>, f: Field, resp: Responses): Value
    requires f.associated.Some? && InPool(pool, f)
  {
    var t := OtherTextField(pool, f, Some("501"));
    List([if t.Some? then OfRaw(Raw(pool[t.value], resp)) else Absent])
  }

  /** CheckboxesWithCheckboxesOrOther, with the ticked choices of this response where the
      source calls `selected_options` with no argument. When "501" is ticked the LAST slot
      of the value list is overwritten, which is 501's own slot only when 501 is the last
      ticked choice. */
  function CheckboxesOrOtherValue(pool: seq<Field>, f: Field, resp: Responses): (r: Result<Value>)
    requires InPool(pool, f) && WellWired(pool) && Kindred(pool)
    ensures ChoiceText(f).None? ==> r == Err(NoChoices(Interpolate(Name(f))))
    ensures ChoiceText(f).Some? ==>
              var sel := Selected(f, Parse(ChoiceText(f).value), resp);
              && (sel == [] ==> r == Ok(Dict(map[])))
              && (sel != [] && f.associated.None? ==> r == Err(NoAssociates(Interpolate(Name(f)))))
              && (sel != [] && f.associated.Some? ==>
                    && (r.Ok? <==> forall k :: 0 <= k < |sel| ==> CheckboxSlot(pool, f, sel[k], resp).Ok?)
                    && (r.Err? ==> exists k :: 0 <= k < |sel| && CheckboxSlot(pool, f, sel[k], resp) == Err(r.error)
                                                && forall h :: 0 <= h < k ==> CheckboxSlot(pool, f, sel[h], resp).Ok?)
                    && (r.Ok? ==>
                          && CheckboxRights(pool, f, sel, resp).Ok?
                          && r == Ok(Dict(ZipDict(Keyed(sel), Overwrite501(pool, f, sel, CheckboxRights(pool, f, sel, resp).value, resp))))))
  {
    match ChoicesOf(f)
    case Err(e) => Err(e)
    case Ok(cs) =>
      var sel := Selected(f, cs, resp);
      if sel == [] then Ok(Dict(map[]))
      else if f.associated.None? then Err(NoAssociates(Interpolate(Name(f))))
      else
        var rights := CheckboxRights(pool, f, sel, resp);
        if rights.Err? then Err(rights.error)
        else Ok(Dict(ZipDict(Keyed(sel), Overwrite501(pool, f, sel, rights.value, resp))))
  }

  /** CheckboxesWithCheckboxesOrOther as written: the zero-argument call to
      `selected_options` raises once the sub-checkbox values are computed. */
  function CheckboxesOrOtherAsWritten(pool: seq<Field>, f: Field, resp: Responses): (r: Result<Value>)
    requires InPool(pool, f) && WellWired(pool) && Kindred(pool)
  {
    match ChoicesOf(f)
    case Err(e) => Err(e)
    case Ok(cs) =>
      var sel := Selected(f, cs, resp);
      if sel != [] && f.associated.None? then Err(NoAssociates(Interpolate(Name(f))))
      else if sel != [] && CheckboxRights(pool, f, sel, resp).Err? then Err(CheckboxRights(pool, f, sel, resp).error)
      else Err(ArityError(Interpolate(Name(f))))
  }

  /** As written the decoder never returns a value: every call raises. */
  lemma CheckboxesOrOtherAsWrittenRaises(pool: seq<Field>, f: Field, resp: Responses)
    requires InPool(pool, f) && WellWired(pool) && Kindred(pool)
    ensures CheckboxesOrOtherAsWritten(pool, f, resp).Err?
    ensures CheckboxesOrOtherValue(pool, f, resp).Ok? ==>
              CheckboxesOrOtherAsWritten(pool, f, resp) == Err(ArityError(Interpolate(Name(f))))
  {
  }

  /** The slot values after the `501` special case: the last slot is overwritten. */
  function Overwrite501(pool: seq<Field>, f: Field, sel: seq<Choice>, right: seq<Value>, resp: Responses): (r: seq<Value>)
    requires f.associated.Some? && InPool(pool, f) && |right| == |sel|
    ensures |r| == |sel|
    ensures Some("501") !in Keys(sel) ==> r == right
    ensures Some("501") in Keys(sel) ==>
              && r[|r| - 1] == OtherFiveHundredOne(pool, f, resp)
              && forall k :: 0 <= k < |r| - 1 ==> r[k] == right[k]
  {
    if Some("501") in Keys(sel) then right[|right| - 1 := OtherFiveHundredOne(pool, f, resp)] else right
  }

  /** When "501" is the last ticked choice and the ticked labels are distinct, its label maps
      to the single value of its associated text field and every other ticked label maps to
      the list of its sub-checkbox values. */
  lemma FiveHundredOneLast(pool: seq<Field>, f: Field, resp: Responses, sel: seq<Choice>)
    requires InPool(pool, f) && WellWired(pool) && Kindred(pool) && ChoiceText(f).Some? && f.associated.Some?
    requires sel == Selected(f, Parse(ChoiceText(f).value), resp) && sel != []
    requires sel[|sel| - 1].key == Some("501")
    requires forall i, j :: 0 <= i < j < |sel| ==> sel[i].caption != sel[j].caption
    requires CheckboxRights(pool, f, sel, resp).Ok?
    ensures var right := CheckboxRights(pool, f, sel, resp).value;
            var d := ZipDict(Keyed(sel), Overwrite501(pool, f, sel, right, resp));
            && CheckboxesOrOtherValue(pool, f, resp) == Ok(Dict(d))
            && (forall k :: 0 <= k < |sel| ==> sel[k].caption in d)
            && d[sel[|sel| - 1].caption] == OtherFiveHundredOne(pool, f, resp)
            && forall k :: 0 <= k < |sel| - 1 ==> d[sel[k].caption] == right[k]
  {
    var right := CheckboxRights(pool, f, sel, resp).value;
    FiveHundredOneSlots(pool, f, resp, sel, right, |sel| - 1);
  }

  /** When "501" is not ticked and the ticked labels are distinct, every ticked label maps
      to its own slot: the list of the values of its sub-checkbox fields. */
  lemma NoFiveHundredOne(pool: seq<Field>, f: Field, resp: Responses, sel: seq<Choice>)
    requires InPool(pool, f) && WellWired(pool) && Kindred(pool) && ChoiceText(f).Some? && f.associated.Some?
    requires sel == Selected(f, Parse(ChoiceText(f).value), resp)
    requires forall k :: 0 <= k < |sel| ==> sel[k].key != Some("501")
    requires forall i, j :: 0 <= i < j < |sel| ==> sel[i].caption != sel[j].caption
    requires CheckboxRights(pool, f, sel, resp).Ok?
    ensures var d := ZipDict(Keyed(sel), CheckboxRights(pool, f, sel, resp).value);
            && CheckboxesOrOtherValue(pool, f, resp) == Ok(Dict(d))
            && forall k :: 0 <= k < |sel| ==>
                 && sel[k].caption in d
                 && CheckboxSlot(pool, f, sel[k], resp) == Ok(d[sel[k].caption])
                 && d[sel[k].caption] == List(SubValues(pool, CheckboxFieldsFor(pool, f, sel[k].key), resp).value)
  {
    var right := CheckboxRights(pool, f, sel, resp).value;
    assert Some("501") !in Keys(sel);
    assert Overwrite501(pool, f, sel, right, resp) == right;
    var ls := Keyed(sel);
    ZipDictDistinct(ls, right);
    forall k | 0 <= k < |sel|
      ensures sel[k].caption in ZipDict(ls, right)
      ensures CheckboxSlot(pool, f, sel[k], resp) == Ok(ZipDict(ls, right)[sel[k].caption])
    {
      assert ls[k] == sel[k].caption;
    }
  }

  /** The hash of distinct labels zipped with slots whose last one is overwritten. */
  lemma {:induction false} OverwriteLastLookup(ls: seq<Option<string>>, right: seq<Value>, v: Value)
    requires |ls| == |right| && ls != []
    requires forall i, j :: 0 <= i < j < |ls| ==> ls[i] != ls[j]
    ensures var d := ZipDict(ls, right[|right| - 1 := v]);
            && (forall k :: 0 <= k < |ls| ==> ls[k] in d)
            && d[ls[|ls| - 1]] == v
            && forall k :: 0 <= k < |ls| - 1 ==> d[ls[k]] == right[k]
  {
    var slots := right[|right| - 1 := v];
    ZipDictLookup(ls, slots);
    assert forall k :: 0 <= k < |ls| ==> ls[k] in ls;
  }

  /** With "501" ticked, at position `k`, the hash pairs every ticked label but the last
      with its own slot and the last one with the "other" text. */
  lemma FiveHundredOneSlots(pool: seq<Field>, f: Field, resp: Responses, sel: seq<Choice>, right: seq<Value>, k: nat)
    requires f.associated.Some? && InPool(pool, f) && |right| == |sel|
    requires k < |sel| && sel[k].key == Some("501")
    requires forall i, j :: 0 <= i < j < |sel| ==> sel[i].caption != sel[j].caption
    ensures var d := ZipDict(Keyed(sel), Overwrite501(pool, f, sel, right, resp));
            && (forall i :: 0 <= i < |sel| ==> sel[i].caption in d)
            && d[sel[|sel| - 1].caption] == OtherFiveHundredOne(pool, f, resp)
            && forall i :: 0 <= i < |sel| - 1 ==> d[sel[i].caption] == right[i]
  {
    assert Keys(sel)[k] == Some("501");
    var ls := Keyed(sel);
    assert Overwrite501(pool, f, sel, right, resp) == right[|right| - 1 := OtherFiveHundredOne(pool, f, resp)];
    OverwriteLastLookup(ls, right, OtherFiveHundredOne(pool, f, resp));
  }

  /** When "501" is ticked but another ticked choice follows it, the text value lands on
      that LAST label and 501's own label keeps its sub-checkbox list. */
  lemma FiveHundredOneNotLast(pool: seq<Field>, f: Field, resp: Responses, sel: seq<Choice>, k: nat)
    requires InPool(pool, f) && WellWired(pool) && Kindred(pool) && ChoiceText(f).Some? && f.associated.Some?
    requires sel == Selected(f, Parse(ChoiceText(f).value), resp)
    requires k < |sel| - 1 && sel[k].key == Some("501")
    requires forall i, j :: 0 <= i < j < |sel| ==> sel[i].caption != sel[j].caption
    requires CheckboxRights(pool, f, sel, resp).Ok?
    ensures var right := CheckboxRights(pool, f, sel, resp).value;
            var d := ZipDict(Keyed(sel), Overwrite501(pool, f, sel, right, resp));
            && CheckboxesOrOtherValue(pool, f, resp) == Ok(Dict(d))
            && sel[k].caption in d && sel[|sel| - 1].caption in d
            && d[sel[k].caption] == right[k]
            && d[sel[|sel| - 1].caption] == OtherFiveHundredOne(pool, f, resp)
  {
    var right := CheckboxRights(pool, f, sel, resp).value;
    FiveHundredOneSlots(pool, f, resp, sel, right, k);
  }

  // ---------------------------------------------------------------------------------------
  // Dispatch

  /** `field.value(responses)`: the decoder of the field's class. */
  function Decode(pool: seq<Field>, f: Field, resp: Responses): (r: Result<Value>)
    requires Decodable(pool, f)
    ensures f.variant in {Generic, Text, Notes, Descriptive, Dropdown, Sql} ==> r == Ok(IdentityValue(f, resp))
    ensures f.variant == File ==> r == Ok(FileValue(f, resp))
  {
    match f.variant
    case Generic => Ok(IdentityValue(f, resp))
    case Text => Ok(IdentityValue(f, resp))
    case Notes => Ok(IdentityValue(f, resp))
    case Descriptive => Ok(IdentityValue(f, resp))
    case Dropdown => Ok(IdentityValue(f, resp))
    case Sql => Ok(IdentityValue(f, resp))
    case File => Ok(FileValue(f, resp))
    case Yesno => YesnoValue(f, resp)
    case RadioButtons => RadioValue(f, resp)
    case Checkboxes => CheckboxesValue(f, resp)
    case CheckboxesWithOther => WithOtherValue(pool, f, resp)
    case CheckboxesWithRadioButtonsOrOther => RadioOrOtherValue(pool, f, resp)
    case CheckboxesWithCheckboxesOrOther => CheckboxesOrOtherValue(pool, f, resp)
  }
}
