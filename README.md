# red_cap field decoding, modelled in Dafny

This project models the field-decoding engine of the red_cap Ruby client for REDCap.

A `REDCap::Form` holds a data dictionary: an ordered list of field definitions, each a string-keyed
attribute hash. On first use it turns every entry into a `Field` object. The class of that object
comes from the entry's `field_type`, camelized. An unknown type falls back to `Text` with a printed
warning. The Form then wires each field to its *associated fields*: the fields whose branching
logic reads `[<name>(<something>)]="1"`.

A lookup `form.<name>(as: ..., **options)` works in four steps:
- it finds the first field of that name;
- it optionally replaces that field with one of another class;
- it stores the options on the field;
- it decodes the form's response record.

Each field class has its own decoder:
- raw text;
- a file-present token;
- yes/no with a default;
- a `digits,label | ...` choice list decoded to labels;
- checkbox selections over `<name>___<key>` response keys;
- three composites that pair a selected checkbox with a sub-question.

The top-level `REDCap` object adds three pieces:
- a filter-string builder for record queries;
- a `per_page` default;
- a memoised form.

Modules, one per concern:
- `Values`: `Option`, `Result`, the decoded `Value` (nil, boolean, string, array, hash) and the `Error`s the engine raises.
- `Choices`: the choice-string parser, `split(/\s*\|\s*/)` then a `merge` fold over `\A(\d+),(.+)\z` pairs. It is proved to round-trip with a renderer.
- `Fields`: the field classes, the attribute readers, and every `value` decoder. Associated fields are positions in a pool of fields, the Form's field list.
- `Registry`: `camelize`, the constant table of `REDCap::Form`, and the fallback to `Text`.
- `Forms`: building and wiring the fields, the association test, `find_field`, and the `Form` class with its memo and its lookups.
- `RedCap`: `where`, `per_page` and `form`.

Decoding never crashes in the model. Each place where the Ruby code raises is an `Err`:
- `split` on a nil choice string;
- `has_key?` on nil options;
- `select` on nil associated fields;
- an argument-count error;
- a lookup of a missing name;
- indexing nil responses.

## Model

| member | source | states |
|---|---|---|
| Values.OfRaw | lib/red_cap/form/fields.rb:31-33 | a raw response is nil exactly when the key is missing, and otherwise is the stored string |
| Values.AllOk | lib/red_cap/form/fields.rb:138-144 | a `map` whose block may raise: all values, in order, when no element raises; otherwise the error of the first element that raises |
| Fields.IdentityValue | lib/red_cap/form/fields.rb:31-33 | the base decoder is nil iff the field has no name or the responses lack its key; otherwise it is the stored string |
| Fields.FileValue | lib/red_cap/form/fields.rb:63-69 | a File answer is present iff the raw value is present and not blank, and then it is the field's own name |
| Fields.YesnoValue | lib/red_cap/form/fields.rb:71-79 | nil options raise; with a `default` key and a raw value of exactly "", the default is returned; otherwise the answer is raw == "1" |
| Fields.ChoicesOf | lib/red_cap/form/fields.rb:86-93 | a nil choice string raises; otherwise the parsed choices have distinct keys, and every choice has both key and label or neither |
| Choices.TrimLeft | lib/red_cap/form/fields.rb:88 | strips exactly the leading whitespace: the result is a suffix that is empty or starts with non-space, and every character removed is whitespace |
| Choices.TrimRight | lib/red_cap/form/fields.rb:88 | strips exactly the trailing whitespace: the result is a prefix that is empty or ends with non-space, and every character removed is whitespace |
| Choices.PipeAt | lib/red_cap/form/fields.rb:88 | the position of the first pipe character, or the length when there is none |
| Choices.DropTrailingEmpty | lib/red_cap/form/fields.rb:88 | `split` drops trailing empty pieces and only those |
| Choices.PiecesShape | lib/red_cap/form/fields.rb:88 | the shape of the cut: one piece more than there are pipes, no piece holding a pipe, and the whitespace around every pipe removed from both neighbouring pieces (the text of the pieces is stated by Choices.CutJoins) |
| Choices.CutShape | lib/red_cap/form/fields.rb:88 | the same shape for text whose leading whitespace stays with its first piece |
| Choices.Split | lib/red_cap/form/fields.rb:88 | the shape of `split`: at most one piece more than there are pipes, none holding a pipe or the whitespace next to a pipe, and the last piece never empty (which pieces, in Choices.SplitIsJoin and Choices.SplitOfJoin) |
| Choices.CutJoins | lib/red_cap/form/fields.rb:88 | every text is its cut pieces with one separator match (whitespace, a pipe, whitespace) between each two of them: there is one match fewer than pieces, and every match is whitespace around a single pipe |
| Choices.SplitIsJoin | lib/red_cap/form/fields.rb:88 | every text is some shaped pieces joined by separator matches, and `split` gives those pieces less the empty ones at the end |
| Choices.CutOfJoin | lib/red_cap/form/fields.rb:88 | conversely, pieces with no pipe and no whitespace next to a pipe, joined by any separator matches (any whitespace runs, tabs included), cut back into exactly those pieces |
| Choices.PiecesOfJoin | lib/red_cap/form/fields.rb:88 | the same for pieces after a separator, whose leading whitespace is part of that separator |
| Choices.SplitOfJoin | lib/red_cap/form/fields.rb:88 | `split` of such a join gives the pieces less the empty ones at the end |
| Choices.SplitTight | lib/red_cap/form/fields.rb:88 | `1,A` and `2,B` joined by a bare pipe split into the two pairs |
| Choices.SplitLoose | lib/red_cap/form/fields.rb:88 | the same pairs joined by two spaces, a pipe and a tab split into the same two pairs |
| Choices.DigitRun | lib/red_cap/form/fields.rb:90 | the maximal leading run of digits |
| Choices.ParsePair | lib/red_cap/form/fields.rb:90 | a pair yields a key iff it yields a label; the key is then the whole non-empty leading digit run, the label the non-empty, newline-free rest after the comma, and the pair is `key,label` |
| Choices.ParsePairOf | lib/red_cap/form/fields.rb:90 | conversely, a non-empty digit string, a comma and a non-empty label without newlines always match, giving that key and label |
| Choices.ParseAll | lib/red_cap/form/fields.rb:89-92 | one parsed choice per piece, in order |
| Choices.Merge | lib/red_cap/form/fields.rb:91 | `merge` keeps the first position of a key, gives it the new label, and leaves every other key alone |
| Choices.Parse | lib/red_cap/form/fields.rb:86-93 | the empty string gives no choices |
| Choices.MergeAllKeepsDistinct | lib/red_cap/form/fields.rb:89-92 | the fold keeps keys distinct |
| Choices.MergeAll | lib/red_cap/form/fields.rb:89-92 | after the fold, the label of each key is the label of its last occurrence among the folded pairs, and keys that do not occur keep their earlier label |
| Choices.FirstOccurrencesMembers | lib/red_cap/form/fields.rb:89-92 | the first-occurrence order of a key list has exactly the keys of the list |
| Choices.MergeAllKeys | lib/red_cap/form/fields.rb:89-92 | the keys after the fold are the keys merged so far followed by the folded keys, each at its first occurrence: a repeated key keeps its first position |
| Choices.ParseKeyOrder | lib/red_cap/form/fields.rb:86-93 | the parsed hash lists its keys in the order they first appear in the choice string |
| Choices.ParseLaterLabelWins | lib/red_cap/form/fields.rb:86-93 | parsed keys are distinct, and a duplicate key's later label wins |
| Choices.ParsePaired | lib/red_cap/form/fields.rb:90-91 | every parsed choice has both a key and a label, or is the nil=>nil entry of a malformed pair |
| Choices.PairTextShape | lib/red_cap/form/fields.rb:90 | a rendered `key,label` pair parses back to the same choice |
| Choices.SplitRender | lib/red_cap/form/fields.rb:88 | splitting a rendered list, its pairs joined by a spaced pipe, gives back the rendered pairs |
| Choices.ParseRender | lib/red_cap/form/fields.rb:86-93 | parsing a rendered choice list with distinct keys gives back exactly that list, in declared order |
| Choices.MergeAllDistinct | lib/red_cap/form/fields.rb:89-92 | with no repeated keys, the fold keeps every pair in order |
| Fields.RadioValue | lib/red_cap/form/fields.rb:82-84 | a nil choice string raises; otherwise the answer is label s iff (raw value, s) is a parsed choice, it is nil iff no parsed choice has the raw value as key, and it is nil when the raw value is missing |
| Fields.FindDistinct | lib/red_cap/form/fields.rb:83 | among distinct keys, a lookup finds label l iff the choice (k, l) is declared, and finds nothing iff no choice has key k |
| Fields.SelectedIsChecked | lib/red_cap/form/fields.rb:106-110 | a choice is selected iff it is declared and its `<name>___<key>` response is "1" |
| Fields.SelectedInDeclaredOrder | lib/red_cap/form/fields.rb:106-110 | the selection keeps declared choice order |
| Fields.Captions | lib/red_cap/form/fields.rb:101 | one answer per selected choice: its label |
| Fields.CheckboxesValue | lib/red_cap/form/fields.rb:100-102 | a nil choice string raises; otherwise the answer is the list of labels of the selected choices |
| Fields.ForKey | lib/red_cap/form/fields.rb:46-50 | the associates picked for a key are exactly those whose branching logic equals `[<name>(<key>)]="1"`, kept in their associated order |
| Fields.FilterLogic | lib/red_cap/form/fields.rb:47-49 | keeps exactly the positions whose branching logic equals the given text, as a subsequence in their order |
| Fields.FirstThat | lib/red_cap/form/fields.rb:125 | `find(&:text?)`: a found position is the first associate of that type, no earlier one has it; finding nothing means none has it |
| Fields.AllThat | lib/red_cap/form/fields.rb:176 | `select(&:checkbox?)`: keeps exactly the associates of that type, as a subsequence in their order |
| Fields.OtherTextField | lib/red_cap/form/fields.rb:124-130 | there is an "other" text field for a key iff some associate for that key is text-like, and the one found is the first such associate in associated order |
| Fields.WithOtherEntry | lib/red_cap/form/fields.rb:115-121 | a selected key with an "other" text field renders as `"<label>: <text value>"`, and otherwise as the bare label |
| Fields.WithOtherEntries | lib/red_cap/form/fields.rb:115-121 | one entry per selected choice, in order |
| Fields.WithOtherValue | lib/red_cap/form/fields.rb:113-122 | a nil choice string raises; with nothing ticked the answer is the empty list; with something ticked and no wired associates it raises; otherwise it is one entry per ticked choice, in declared order |
| Fields.WithOtherRendersOther | lib/red_cap/form/fields.rb:113-131 | the k-th element of a CheckboxesWithOther answer is the entry of the k-th ticked choice, and it is the "label: text" rendering iff that choice has a text-like associate, the bare label otherwise |
| Fields.TextAssociateIsRaw | lib/red_cap/form/fields.rb:117 | the text associate's value is its raw response |
| Fields.RadioOrOtherEntries | lib/red_cap/form/fields.rb:138-144 | succeeds iff every selected key's entry does, and then holds one entry per selected key in order; otherwise fails with the error of the first failing entry |
| Fields.RadioOrOtherValue | lib/red_cap/form/fields.rb:136-147 | a nil choice string raises; nothing ticked gives the empty hash; ticked choices without wired associates raise; otherwise it succeeds iff every ticked key's entry does, fails with the error of the first failing entry, and is the hash of ticked labels zipped with the entries |
| Fields.ZipDictKeys | lib/red_cap/form/fields.rb:146 | a label is a key of `Hash[zip]` iff it is one of the given labels |
| Fields.ZipDictDistinct | lib/red_cap/form/fields.rb:146 | with distinct labels each label maps to the value zipped with it |
| Fields.ZipDictLookup | lib/red_cap/form/fields.rb:146 | `Hash[zip]` has exactly the given labels as keys, and with distinct labels maps each label to its own value |
| Fields.Keyed | lib/red_cap/form/fields.rb:146 | the hash keys are the selected labels, in order |
| Fields.KeyedCaptions | lib/red_cap/form/fields.rb:146 | the set of hash keys is the set of selected labels |
| Fields.RadioOrOtherKeys | lib/red_cap/form/fields.rb:136-153 | a CheckboxesWithRadioButtonsOrOther answer is a hash whose keys are exactly the selected labels (duplicates collapse); with distinct labels each label maps to its key's text-or-radio entry |
| Fields.SubValues | lib/red_cap/form/fields.rb:161-163 | succeeds iff every checkbox associate decodes, and then holds each one's decoded value in order; otherwise fails with the error of the first associate that fails |
| Fields.CheckboxFieldsFor | lib/red_cap/form/fields.rb:175-177 | exactly the associates for a key that answer yes to `checkbox?`, kept in their associated order |
| Fields.CheckboxSlot | lib/red_cap/form/fields.rb:161-163 | one ticked key's slot is the list of its sub-checkbox values, and fails exactly when they fail |
| Fields.CheckboxAssociateDecodes | lib/red_cap/form/fields.rb:162 | an associated `checkbox` field decodes through the dispatch exactly as the sub-value walk decodes it |
| Fields.CheckboxRights | lib/red_cap/form/fields.rb:160-164 | succeeds iff every ticked key's slot does, and then holds each key's slot in order; otherwise fails with the error of the first failing slot |
| Fields.Overwrite501 | lib/red_cap/form/fields.rb:166-168 | the "501" rewrite keeps the number of slots; with no "501" ticked it changes nothing; with "501" ticked it replaces only the last slot, by the "other" text value, and keeps every other slot |
| Fields.CheckboxesOrOtherAsWritten | lib/red_cap/form/fields.rb:156-171 | the decoder as written, calling `selected_options` with no argument |
| Fields.CheckboxesOrOtherAsWrittenRaises | lib/red_cap/form/fields.rb:166 | the decoder as written always raises an argument-count error, even where the intended decoder succeeds |
| Fields.CheckboxesOrOtherValue | lib/red_cap/form/fields.rb:156-171 | with `selected_options(responses)`: a nil choice string raises; nothing ticked gives the empty hash; ticked choices without wired associates raise; otherwise it succeeds iff every slot does, fails with the error of the first failing slot, and is the hash of ticked labels zipped with the slots after the "501" rewrite |
| Fields.FiveHundredOneLast | lib/red_cap/form/fields.rb:166-170 | when "501" is the last selected key, its label maps to the one-element list holding its "other" text value |
| Fields.FiveHundredOneNotLast | lib/red_cap/form/fields.rb:166-170 | when "501" is selected but not last, its own label keeps its checkbox sub-answers, and the last selected label is overwritten instead |
| Fields.NoFiveHundredOne | lib/red_cap/form/fields.rb:156-171 | with "501" not ticked and distinct labels, every ticked label maps to the list of its own sub-checkbox values |
| Fields.Decode | lib/red_cap/form/fields.rb:53-61 | Text, Notes, Descriptive, Dropdown, Sql and the base class decode by identity; File uses the file decoder |
| Registry.LowerAll | lib/red_cap/form.rb:52 | downcasing keeps the length and lowers every character in place |
| Registry.Word | lib/red_cap/form.rb:52 | the word after a separator is a prefix of the rest |
| Registry.WordIsLongestRun | lib/red_cap/form.rb:52 | that word is the longest leading run of word characters |
| Registry.Camelize | lib/red_cap/form.rb:52 | a name with no `_` and no `/` camelizes to itself with a lower-case first letter upcased |
| Registry.Resolve | lib/red_cap/form.rb:51-56 | a type resolves without warning iff it is present and its camelized form names a field class, and then to that class; otherwise to Text with the warning for that type |
| Registry.AfterWord | lib/red_cap/form.rb:52 | the text splits into the word and what follows it |
| Registry.JoinWordsPlain | lib/red_cap/form.rb:52 | text with no `_` or `/` is left unchanged |
| Registry.JoinWordsAppend | lib/red_cap/form.rb:52 | camelizing distributes over a split point where no word continues |
| Registry.WordStops | lib/red_cap/form.rb:52 | a word ends at the first non-word character |
| Registry.CamelizeLower | lib/red_cap/form.rb:52 | a lower-case first letter is upcased, and the rest is camelized |
| Registry.CamelizePlain | lib/red_cap/form.rb:52 | a name that already starts in upper case and has no separators camelizes to itself |
| Registry.ConstantResolves | lib/red_cap/form.rb:51-52 | a class name of the registry resolves to that class with no warning |
| Registry.SnakeToCamel | lib/red_cap/form.rb:52 | a snake_case name of lower-case words camelizes to the words capitalized and concatenated |
| Registry.SnakeCamelize | lib/red_cap/form.rb:52 | the same, for a given snake name and camel name |
| Registry.TextResolves | lib/red_cap/form.rb:51-52 | the type `text` resolves to Text with no warning |
| Registry.RadioResolves | lib/red_cap/form.rb:51-52 | the type `radio` resolves through the alias to RadioButtons |
| Registry.CheckboxResolves | lib/red_cap/form.rb:51-52 | the type `checkbox` resolves through the alias to CheckboxesWithOther |
| Registry.ResolveFallback | lib/red_cap/form.rb:51-56 | a type naming no class resolves to Text with the warning "Unimplemented field type: <t>. Falling back to Text." |
| Registry.MissingTypeFallsBack | lib/red_cap/form.rb:51-56 | a missing type also falls back to Text, with an empty name in the warning |
| Forms.LineLength | lib/red_cap/form.rb:42 | a line ends at the first newline |
| Forms.StructuralShape | lib/red_cap/form.rb:42 | a line matches iff it is `[<name>(` + a non-empty middle + `)]="1"` |
| Forms.SingleLineLogic | lib/red_cap/form.rb:42 | logic without newlines is an association iff it has that shape as a whole |
| Forms.LinesMatch | lib/red_cap/form.rb:42 | `^` and `$` are line anchors: multi-line logic matches iff one of its lines has the shape |
| Forms.LineLengthPrefix | lib/red_cap/form.rb:42 | the first line of `a + "\n" + ...` is `a` |
| Forms.CanonicalIsAssociate | lib/red_cap/form.rb:42 | logic that a composite decoder looks for by key (`[<name>(<key>)]="1"`) always makes the field an associate |
| Forms.Resolutions | lib/red_cap/form.rb:37 | one class lookup per dictionary entry, in order |
| Forms.Declared | lib/red_cap/form.rb:36-39 | one field per entry, in order, instantiated on the entry |
| Forms.AssociatesOf | lib/red_cap/form.rb:41-43 | the associates of a name are exactly the fields whose logic matches, in dictionary order |
| Forms.Build | lib/red_cap/form.rb:35-46 | one wired field per entry, in dictionary order; the result is well wired and each field has the class of its type |
| Forms.BuildKindred | lib/red_cap/form.rb:37-38 | every built field of type text, radio or checkbox has the class that type resolves to |
| Forms.BuildEntries | lib/red_cap/form.rb:36-39 | the i-th field has the i-th entry's attributes, name and resolved class, no options, and wired associates |
| Forms.BuildAssociates | lib/red_cap/form.rb:40-44 | G is an associate of F iff G's branching logic has the shape `[<F's name>(…)]="1"`, whatever their order; F itself is not excluded |
| Forms.NoLogicNoAssociate | lib/red_cap/form.rb:42 | a field with no branching logic associates with nothing |
| Forms.NoMessages | lib/red_cap/form.rb:54 | no line is printed iff no class lookup fell back |
| Forms.NoWarnings | lib/red_cap/form.rb:36-54 | building prints nothing iff every declared type names a class |
| Forms.SameButOptionsDecodable | lib/red_cap/form.rb:30 | changing only options keeps the fields decodable |
| Forms.FirstNamed | lib/red_cap/form.rb:28 | `find` returns the first field with the name, and nothing only when no field has it |
| Forms.AfterFind | lib/red_cap/form.rb:27-32 | with an `as:` class or no field of that name the list is unchanged; otherwise the first field of that name gets the lookup's options and every other field is unchanged |
| Forms.DecodeWithoutResponses | lib/red_cap/form.rb:21 | with nil responses the text-like and file decoders raise NoResponses; yes/no raises for nil options, else NoResponses; radio buttons raise for a nil choice string, else NoResponses; a checkbox class raises for a nil choice string, raises NoResponses when it has choices, and with no choices answers what it answers for an empty record, and only then is the answer Ok |
| Forms.WithoutResponsesUnread | lib/red_cap/form.rb:21 | a decoder run on nil responses either raises or gives what it gives for every response record |
| Forms.Answer | lib/red_cap/form.rb:20-24 | a missing name is `FieldNotFound`; otherwise the answer is the found field, after `as:` and the options, decoded among the updated fields: with the responses when there are any, and as a decoder run on nil responses when there are none |
| Forms.UnknownNameRaises | lib/red_cap/form.rb:20-30 | asking for a name the dictionary lacks is an error, never an absent value |
| Forms.FoundField | lib/red_cap/form.rb:27-32 | the found field is the first of that name; with `as:` it is a new field of that class on the same attributes, with no associates; either way its options are the lookup's |
| Forms.LookupRepeats | lib/red_cap/form.rb:13-32 | repeating a lookup changes nothing further and gives the same answer |
| Forms.FirstNamedSameNames | lib/red_cap/form.rb:28 | options do not affect which field a name finds |
| Forms.DeclareAll | lib/red_cap/form.rb:36-39 | the `map` loop builds the declared fields and prints exactly the fallback warnings, in order |
| Forms.WireAll | lib/red_cap/form.rb:40-44 | the `each` loop wires every field to its associates |
| Forms.ClassFor | lib/red_cap/form.rb:16-19 | an `as:` Symbol is resolved through the registry, printing its warning; a class is used as it is |
| Forms.FindNamed | lib/red_cap/form.rb:28 | the search loop finds the first field of that name |
| Forms.FindField | lib/red_cap/form.rb:20-32 | the found field's options are replaced in the list, and the answer is that field's decoded value |
| Forms.Form.constructor | lib/red_cap/form.rb:6-8 | a new form holds the dictionary, with no responses, no fields and nothing printed |
| Forms.Form.SetResponses | lib/red_cap/form.rb:10 | assigns the responses and changes nothing else |
| Forms.Form.SetDictionary | lib/red_cap/form.rb:10 | assigns the dictionary and keeps fields already built |
| Forms.Form.Fields | lib/red_cap/form.rb:34-47 | the first call builds the fields from the dictionary and prints the warnings; later calls return the identical list and print nothing |
| Forms.Form.Access | lib/red_cap/form.rb:13-32 | a lookup prints the `as:` warning and any build warnings, stores the options on the found field, and answers with the decoded value |
| Forms.Form.Lookup | lib/red_cap/form.rb:20-32 | with the class already resolved: the fields are built once if need be (printing the build warnings only then), the found field keeps the options, and the answer is the decoded value of the found field, or FieldNotFound |
| RedCap.RenderAll | lib/red_cap.rb:31-33 | each condition renders as `[field]=value`, in order |
| RedCap.Where | lib/red_cap.rb:30-35 | the `reduce` loop yields the conditions' renderings joined with " AND " |
| RedCap.JoinAppend | lib/red_cap.rb:34 | joining two non-empty lists puts one separator between their joins |
| RedCap.FilterShape | lib/red_cap.rb:30-35 | no conditions give ""; one condition gives `[field]=value`; concatenated conditions give the two filters joined with " AND " |
| RedCap.FilterAt | lib/red_cap.rb:30-35 | the k-th condition's rendering sits in the filter between the filter of the earlier conditions and that of the later ones, with " AND " on each side that has any |
| RedCap.Settings.constructor | lib/red_cap.rb:11 | `per_page` starts unset |
| RedCap.Settings.SetPerPage | lib/red_cap.rb:11 | the assignment stores the value |
| RedCap.Settings.PerPage | lib/red_cap.rb:13-15 | unset gives 100 and stores it; otherwise the stored value is returned |
| RedCap.Project.constructor | lib/red_cap.rb:18-20 | a new client object has no form yet |
| RedCap.Project.GetForm | lib/red_cap.rb:18-20 | the first call makes a new Form on the metadata; later calls return that same Form |

## Left out

- The HTTP client, the cache and the instrument tables (lib/red_cap/client.rb, lib/red_cap/cache.rb, lib/red_cap/instrument_table.rb) are not part of this model. They are network, filesystem and database I/O.
- `find`, `all`, `client`, `configure`, `url` and `token` on `REDCap` are pass-throughs to the client and are not modelled.
- `where` hands its filter to `client.records`. The model returns the filter string, and the conditions are an ordered list of (field, value) strings. Ruby interpolates any object, but the model renders strings only.
- `RedCap.Project.GetForm`: the metadata comes from the client. The model takes it as a parameter.
- The `puts` warning is appended to an `output` field of the Form rather than written to standard output.
- `method_missing` reflection is modelled explicitly:
  - `Forms.Form.Access(name, as_, options)` stands for `form.<name>(...)`.
  - `Fields.Is(f, t)` stands for the `<t>?` inquiry.
  - A method name that is not a field name reaches `super` and raises, as in the source.
- An `as:` value that is neither a Symbol nor a field class (a String, say) is not modelled. The source calls `new` on it and raises.
- Regular-expression semantics are modelled structurally:
  - Choice pairs are a digit run, a comma and a non-empty rest.
  - The association test checks each line (split at `"\n"`) for the `[<name>(…)]="1"` shape. The field name is compared literally, so a name containing regular-expression metacharacters is not modelled.
  - `\s` is the ASCII whitespace set.
- `blank?` is modelled over the Unicode White_Space characters. Object kinds other than strings do not arise.
- Ruby hashes are ordered. They are modelled as sequences where order matters (choices, attributes read by key). A decoded hash is a Dafny `map`, which forgets insertion order.
- Registry.Resolve: a type containing `/` camelizes to a `::` path, which `const_get` follows through nested and top-level constants. For example `/file` camelizes to `::File`, Ruby's own File class, and `File.new` on the attribute hash then raises a TypeError that nothing rescues. The model resolves only the registry's own class names and sends every other name, these included, to the Text fallback.
- Registry.Camelize: `camelize`'s acronym inflections are empty by default and are not modelled. The six-word snake names are covered by `Registry.SnakeToCamel` but not instantiated as concrete lemmas.
- Fields.Decode: the composite decoders require `Fields.Kindred`: every field typed `text`, `radio` or `checkbox` has the class that type resolves to. Every pool a Form builds has it (`Forms.BuildKindred`), and `as:` never changes the pool. A hand-made pool where, say, a `checkbox` sub-field is some other class is outside the model.
- Forms.Form.Access: in Ruby, `method_missing` is reached only for names that are not methods of the Form. A field named `fields`, `responses`, `data_dictionary`, `hash` or `display` is answered by that real method instead. The model looks every name up as a field.
- Forms.Form.Fields: a nil data dictionary makes `fields` raise on `nil.map`. The model's dictionary is always a list.
- Fields.RadioOrOtherKeys: the hash values are stated only for distinct labels. With a duplicate label Ruby keeps the later value, and `Fields.ZipDict` does the same, but no lemma states it.
- `per_page` is an `int`. A `false` assigned to it is reset to 100 by `||=` in Ruby, which the model does not represent.
- `Forms.Form.Access` with no responses assigned: each decoder raises where it first indexes the responses (`Error.NoResponses`). The checkbox classes with no choices never index them, and they answer as for an empty record.
- `Dropdown` decodes by identity, as the class declares (lib/red_cap/form/fields.rb:60). spec/form/fields_spec.rb:184-188 expects it to look up choice labels. The model follows the code.
- spec/form_spec.rb:44 passes two arguments to `Form.new`, but the constructor takes only the dictionary (lib/red_cap/form.rb:6). spec/red_cap_spec.rb uses `update`, `delete`, instance `url`, `cache` and `REDCap.new(url:, token:)`, none of which lib/red_cap.rb defines. The model follows the code.
- Lookup of a missing name: `find_field` raises `NoMethodError` on nil before `super` is reached. The model reports `FieldNotFound` for both.

## Findings

| source | as written | input that shows it | evidently intended | confidence | as-written member | corrected member |
|---|---|---|---|---|---|---|
| lib/red_cap/form/fields.rb:166 | `selected_options.keys` calls `selected_options` with no argument, though it takes one, so every call of `CheckboxesWithCheckboxesOrOther#value` that gets that far raises `ArgumentError` | any CheckboxesWithCheckboxesOrOther field with a choice string, for example choices "1,A", associates [] and responses {} | test the keys selected in this response, `selected_options(responses).keys` | not executed | Fields.CheckboxesOrOtherAsWrittenRaises | Fields.FiveHundredOneLast |
