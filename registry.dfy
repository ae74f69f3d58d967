/** Field type resolution: a declared `field_type` is camelised and looked up among the
    field classes; a name that names none of them falls back to Text with a warning. */
module Registry {
  import opened Values
  import opened Fields

  function Upper(c: char): char
  {
    if 'a' <= c <= 'z' then (c as int - 32) as char else c
  }

  function Lower(c: char): char
  {
    if 'A' <= c <= 'Z' then (c as int + 32) as char else c
  }

  function LowerAll(s: string): (t: string)
    ensures |t| == |s|
    ensures forall k :: 0 <= k < |s| ==> t[k] == Lower(s[k])
  {
    if s == [] then [] else [Lower(s[0])] + LowerAll(s[1..])
  }

  /** Ruby's `capitalize`: the first character upper case, the rest lower case. */
  function Capitalize(w: string): string
  {
    if w == [] then [] else [Upper(w[0])] + LowerAll(w[1..])
  }

  /** `[a-z\d]` matched case-insensitively. */
  predicate IsWordChar(c: char)
  {
    ('a' <= c <= 'z') || ('A' <= c <= 'Z') || ('0' <= c <= '9')
  }

  /** The run of word characters at the start of `s`. */
  function Word(s: string): (w: string)
    ensures w <= s
  {
    if s != [] && IsWordChar(s[0]) then [s[0]] + Word(s[1..]) else []
  }

  /** The word is the longest run of word characters at the start of `s`. */
  lemma {:induction false} WordIsLongestRun(s: string)
    ensures forall k :: 0 <= k < |Word(s)| ==> IsWordChar(s[k])
    ensures |Word(s)| < |s| ==> !IsWordChar(s[|Word(s)|])
  {
    if s != [] && IsWordChar(s[0]) {
      WordIsLongestRun(s[1..]);
      forall k | 0 < k < |Word(s)| ensures IsWordChar(s[k]) {
        assert s[k] == s[1..][k - 1];
      }
    }
  }

  /** What follows the run of word characters at the start of `s`. */
  function AfterWord(s: string): (r: string)
    ensures |r| <= |s|
    ensures s == Word(s) + r
  {
    if s != [] && IsWordChar(s[0]) then AfterWord(s[1..]) else s
  }

  /** The second step of `camelize`: every `_` or `/` together with the word after it
      becomes the capitalised word, with `::` in front of it for a `/`. */
  function JoinWords(s: string): string
    decreases |s|
  {
    if s == [] then []
    else if s[0] == '_' || s[0] == '/' then
      (if s[0] == '/' then "::" else "") + Capitalize(Word(s[1..])) + JoinWords(AfterWord(s[1..]))
    else [s[0]] + JoinWords(s[1..])
  }

  /** ActiveSupport's `camelize` with no acronyms: the leading run of lower-case letters and
      digits is capitalised (which changes only a lower-case first letter), then the words
      after `_` and `/` are joined on. */
  function Camelize(s: string): (c: string)
    ensures '_' !in s && '/' !in s ==> c == if s != [] && 'a' <= s[0] <= 'z' then [Upper(s[0])] + s[1..] else s
  {
    var t := if s != [] && 'a' <= s[0] <= 'z' then [Upper(s[0])] + s[1..] else s;
    if '_' !in s && '/' !in s then
      assert '_' !in t && '/' !in t by {
        if s != [] && 'a' <= s[0] <= 'z' {
          assert t == [Upper(s[0])] + s[1..];
          forall ch | ch in s[1..] ensures ch in s { }
        }
      }
      JoinWordsPlain(t);
      JoinWords(t)
    else
      JoinWords(t)
  }

  /** The constants of the Form class that name field classes, aliases included. A path
      such as `Text::X` names no field class. */
  function Constant(n: string): Option<Variant>
  {
    if n == "Field" then Some(Generic)
    else if n == "Text" then Some(Text)
    else if n == "Notes" then Some(Notes)
    else if n == "Descriptive" then Some(Descriptive)
    else if n == "Dropdown" then Some(Dropdown)
    else if n == "Sql" then Some(Sql)
    else if n == "File" then Some(File)
    else if n == "Yesno" then Some(Yesno)
    else if n == "RadioButtons" then Some(RadioButtons)
    else if n == "Radio" then Some(RadioButtons)
    else if n == "Checkboxes" then Some(Checkboxes)
    else if n == "CheckboxesWithOther" then Some(CheckboxesWithOther)
    else if n == "Checkbox" then Some(CheckboxesWithOther)
    else if n == "CheckboxesWithRadioButtonsOrOther" then Some(CheckboxesWithRadioButtonsOrOther)
    else if n == "CheckboxesWithCheckboxesOrOther" then Some(CheckboxesWithCheckboxesOrOther)
    else None
  }

  /** A resolved class and the warning line printed for a fallback. */
  datatype Resolution = Resolution(variant: Variant, warning: Option<string>)

  function Warning(t: Option<string>): string
  {
    "Unimplemented field type: " + Interpolate(t) + ". Falling back to Text."
  }

  /** `lookup_field_class`. A nil type raises inside `camelize`, and that error is rescued
      like an unknown constant, so nil falls back to Text as well. */
  function Resolve(t: Option<string>): (r: Resolution)
    ensures r.warning.None? <==> t.Some? && Constant(Camelize(t.value)).Some?
    ensures r.warning.None? ==> Constant(Camelize(t.value)) == Some(r.variant)
    ensures r.warning.Some? ==> r.variant == Text && r.warning.value == Warning(t)
  {
    var c := if t.Some? then Constant(Camelize(t.value)) else None;
    if c.Some? then Resolution(c.value, None) else Resolution(Text, Some(Warning(t)))
  }

  /** `JoinWords` leaves a name without `_` and `/` as it is. */
  lemma {:induction false} JoinWordsPlain(s: string)
    requires '_' !in s && '/' !in s
    ensures JoinWords(s) == s
  {
    if s != [] {
      assert '_' !in s[1..] && '/' !in s[1..] by {
        forall c | c in s[1..] ensures c in s { }
      }
      JoinWordsPlain(s[1..]);
      assert s == [s[0]] + s[1..];
    }
  }

  /** Joining works piece by piece when the second piece starts outside a word. */
  lemma {:induction false} JoinWordsAppend(a: string, b: string)
    requires b == [] || !IsWordChar(b[0])
    ensures JoinWords(a + b) == JoinWords(a) + JoinWords(b)
    decreases |a|
  {
    if a == [] {
      assert a + b == b;
    } else {
      assert (a + b)[0] == a[0] && (a + b)[1..] == a[1..] + b;
      if a[0] == '_' || a[0] == '/' {
        WordStops(a[1..], b);
        JoinWordsAppend(AfterWord(a[1..]), b);
      } else {
        JoinWordsAppend(a[1..], b);
      }
    }
  }

  /** A word never reaches past a character that is not part of a word. */
  lemma {:induction false} WordStops(a: string, b: string)
    requires b == [] || !IsWordChar(b[0])
    ensures Word(a + b) == Word(a)
    ensures AfterWord(a + b) == AfterWord(a) + b
    decreases |a|
  {
    if a == [] {
      assert a + b == b;
    } else {
      assert (a + b)[0] == a[0] && (a + b)[1..] == a[1..] + b;
      if IsWordChar(a[0]) {
        WordStops(a[1..], b);
      }
    }
  }

  /** Camelising a name that starts with a lower-case letter upcases that letter and joins
      the rest. */
  lemma CamelizeLower(s: string)
    requires s != [] && 'a' <= s[0] <= 'z'
    ensures Camelize(s) == [Upper(s[0])] + JoinWords(s[1..])
  {
    var t := [Upper(s[0])] + s[1..];
    assert t[0] == Upper(s[0]) && t[1..] == s[1..];
  }

  /** A name that does not start with a lower-case letter and holds no `_` or `/` is a
      fixed point of `camelize`. */
  lemma CamelizePlain(n: string)
    requires n != [] && !('a' <= n[0] <= 'z') && '_' !in n && '/' !in n
    ensures Camelize(n) == n
  {
    JoinWordsPlain(n);
  }

  /** Resolution goes through the camelised name. */
  lemma ResolveAs(t: string, n: string, v: Variant)
    requires Camelize(t) == n && Constant(n) == Some(v)
    ensures Resolve(Some(t)) == Resolution(v, None)
  {
  }

  /** A name that needs no camelising (no lower-case first letter, no `_`, no `/`) and that
      names a field class resolves to that class. */
  lemma ConstantResolves(n: string)
    requires n != [] && !('a' <= n[0] <= 'z') && '_' !in n && '/' !in n
    requires Constant(n).Some?
    ensures Resolve(Some(n)) == Resolution(Constant(n).value, None)
  {
    CamelizePlain(n);
  }

  /** A word of lower-case letters. */
  predicate LowerWord(w: string)
  {
    w != [] && forall i | 0 <= i < |w| :: 'a' <= w[i] <= 'z'
  }

  predicate LowerWords(ws: seq<string>)
  {
    forall i | 0 <= i < |ws| :: LowerWord(ws[i])
  }

  /** Words joined snake_case style. */
  function Snake(ws: seq<string>): string
  {
    if ws == [] then [] else if |ws| == 1 then ws[0] else ws[0] + "_" + Snake(ws[1..])
  }

  /** Words capitalised and run together. */
  function Camel(ws: seq<string>): string
  {
    if ws == [] then [] else Capitalize(ws[0]) + Camel(ws[1..])
  }

  lemma {:induction false} LowerAllLower(s: string)
    requires forall i | 0 <= i < |s| :: 'a' <= s[i] <= 'z'
    ensures LowerAll(s) == s
  {
    if s != [] {
      LowerAllLower(s[1..]);
      assert s == [s[0]] + s[1..];
    }
  }

  lemma {:induction false} WordAll(w: string)
    requires forall i | 0 <= i < |w| :: IsWordChar(w[i])
    ensures Word(w) == w && AfterWord(w) == []
  {
    if w != [] {
      WordAll(w[1..]);
      assert w == [w[0]] + w[1..];
    }
  }

  /** `_word_word...` joins to the capitalised words. */
  lemma {:induction false} JoinSnakeTail(ws: seq<string>)
    requires ws != [] && LowerWords(ws)
    ensures JoinWords("_" + Snake(ws)) == Camel(ws)
  {
    var w := ws[0];
    var rest := if |ws| == 1 then [] else "_" + Snake(ws[1..]);
    assert Snake(ws) == w + rest;
    JoinUnderscore(w, rest);
    if |ws| > 1 {
      JoinSnakeTail(ws[1..]);
    }
  }

  /** `_word` followed by a separator or nothing joins to the capitalised word. */
  lemma JoinUnderscore(w: string, rest: string)
    requires LowerWord(w) && (rest == [] || rest[0] == '_')
    ensures JoinWords("_" + (w + rest)) == Capitalize(w) + JoinWords(rest)
  {
    var s := "_" + (w + rest);
    assert s[0] == '_' && s[1..] == w + rest;
    WordAll(w);
    WordStops(w, rest);
    assert AfterWord(w) + rest == rest;
    calc {
      JoinWords(s);
      "" + Capitalize(Word(s[1..])) + JoinWords(AfterWord(s[1..]));
      Capitalize(w) + JoinWords(rest);
    }
  }

  lemma ConcatAssoc(a: string, b: string, c: string)
    ensures a + (b + c) == (a + b) + c
  {
  }

  /** `camelize` turns a snake_case name into the CamelCase name of its words. */
  lemma {:induction false} SnakeToCamel(ws: seq<string>)
    requires ws != [] && LowerWords(ws)
    ensures Camelize(Snake(ws)) == Camel(ws)
  {
    var w := ws[0];
    var rest := if |ws| == 1 then [] else "_" + Snake(ws[1..]);
    assert LowerWord(w);
    assert Snake(ws) == w + rest;
    if |ws| > 1 {
      JoinSnakeTail(ws[1..]);
    }
    assert JoinWords(rest) == Camel(ws[1..]);
    CamelizeWordThen(w, rest);
  }

  /** A lower-case word followed by nothing or by `_...` camelises to the capitalised word
      followed by the joined rest. */
  lemma CamelizeWordThen(w: string, rest: string)
    requires LowerWord(w) && (rest == [] || rest[0] == '_')
    ensures Camelize(w + rest) == Capitalize(w) + JoinWords(rest)
  {
    var s := w + rest;
    assert s[0] == w[0] && s[1..] == w[1..] + rest;
    CamelizeLower(s);
    JoinWordsAppend(w[1..], rest);
    LowerWordTail(w);
    ConcatAssoc([Upper(w[0])], w[1..], JoinWords(rest));
  }

  /** After its first letter a lower-case word is left alone by joining and by `capitalize`. */
  lemma LowerWordTail(w: string)
    requires LowerWord(w)
    ensures JoinWords(w[1..]) == w[1..]
    ensures Capitalize(w) == [Upper(w[0])] + w[1..]
  {
    assert '_' !in w[1..] && '/' !in w[1..] by {
      forall c | c in w[1..] ensures 'a' <= c <= 'z' {
        var k :| 0 <= k < |w[1..]| && w[1..][k] == c;
        assert c == w[k + 1];
      }
    }
    JoinWordsPlain(w[1..]);
    LowerAllLower(w[1..]);
  }

  /** `camelize` of a name given by its snake_case words. */
  lemma SnakeCamelize(ws: seq<string>, s: string, c: string)
    requires ws != [] && LowerWords(ws) && Snake(ws) == s && Camel(ws) == c
    ensures Camelize(s) == c
  {
    SnakeToCamel(ws);
  }

  /** `text` names Text. */
  lemma TextResolves()
    ensures Resolve(Some("text")) == Resolution(Text, None)
  {
    TextCamel();
    TextConstant();
    ResolveAs("text", "Text", Text);
  }

  lemma TextCamel()
    ensures Camelize("text") == "Text"
  {
    OneWord("text", "Text");
  }

  lemma TextConstant()
    ensures Constant("Text") == Some(Text)
  {
  }

  /** `radio` names RadioButtons, through the alias Radio. */
  lemma RadioResolves()
    ensures Resolve(Some("radio")) == Resolution(RadioButtons, None)
  {
    RadioCamel();
    RadioConstant();
    ResolveAs("radio", "Radio", RadioButtons);
  }

  lemma RadioCamel()
    ensures Camelize("radio") == "Radio"
  {
    OneWord("radio", "Radio");
  }

  lemma RadioConstant()
    ensures Constant("Radio") == Some(RadioButtons)
  {
  }

  /** `checkbox` names CheckboxesWithOther, through the alias Checkbox. */
  lemma CheckboxResolves()
    ensures Resolve(Some("checkbox")) == Resolution(CheckboxesWithOther, None)
  {
    CheckboxCamel();
    CheckboxConstant();
    ResolveAs("checkbox", "Checkbox", CheckboxesWithOther);
  }

  lemma CheckboxCamel()
    ensures Camelize("checkbox") == "Checkbox"
  {
    OneWord("checkbox", "Checkbox");
  }

  lemma CheckboxConstant()
    ensures Constant("Checkbox") == Some(CheckboxesWithOther)
  {
  }

  /** A name that names no class falls back to Text with the warning. */
  lemma ResolveFallback(t: string, n: string)
    requires Camelize(t) == n && Constant(n).None?
    ensures Resolve(Some(t)) == Resolution(Text, Some(Warning(Some(t))))
  {
  }

  /** A single lower-case word camelises to itself with its first letter upcased. */
  lemma OneWord(s: string, c: string)
    requires s != [] && 'a' <= s[0] <= 'z' && '_' !in s && '/' !in s
    requires c == [Upper(s[0])] + s[1..]
    ensures Camelize(s) == c
  {
  }

  /** A missing type falls back to Text; the warning interpolates nil as nothing. */
  lemma MissingTypeFallsBack()
    ensures Resolve(None) == Resolution(Text, Some("Unimplemented field type: . Falling back to Text."))
  {
    assert Warning(None) == "Unimplemented field type: . Falling back to Text.";
  }
}
