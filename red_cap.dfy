/** The top-level REDCap object: the record filter built from conditions, the page size
    setting and the memoised Form. */
module RedCap {
  import opened Values
  import opened Forms
  import Registry

  /** One condition: a field name and the value it must equal, both as interpolated. */
  type Condition = (string, string)

  /** `"[#{field}]=#{value}"`. */
  function Render(c: Condition): string
  {
    "[" + c.0 + "]=" + c.1
  }

  /** The rendered conditions, in the order the conditions are iterated. */
  function RenderAll(cs: seq<Condition>): (rs: seq<string>)
    ensures |rs| == |cs|
    ensures forall k :: 0 <= k < |cs| ==> rs[k] == Render(cs[k])
  {
    seq(|cs|, k requires 0 <= k < |cs| => Render(cs[k]))
  }

  /** `Array#join(sep)`. */
  function Join(parts: seq<string>, sep: string): string
  {
    if parts == [] then ""
    else if |parts| == 1 then parts[0]
    else parts[0] + sep + Join(parts[1..], sep)
  }

  /** The filter string `where` hands to the client. */
  function FilterOf(cs: seq<Condition>): string
  {
    Join(RenderAll(cs), " AND ")
  }

  /** `where`'s reduce: each condition is pushed onto the filter list, which is then joined
      with " AND ". */
  method Where(conditions: seq<Condition>) returns (filter: string)
    ensures filter == FilterOf(conditions)
  {
    var filters: seq<string> := [];
    var i := 0;
    while i < |conditions|
      invariant 0 <= i <= |conditions|
      invariant filters == RenderAll(conditions[..i])
    {
      var (field, value) := conditions[i];
      filters := filters + ["[" + field + "]=" + value];
      i := i + 1;
    }
    assert conditions[..|conditions|] == conditions;
    filter := Join(filters, " AND ");
  }

  /** Joining two non-empty runs of parts is joining each and putting the separator
      between them. */
  lemma {:induction false} JoinAppend(a: seq<string>, b: seq<string>, sep: string)
    requires a != [] && b != []
    ensures Join(a + b, sep) == Join(a, sep) + sep + Join(b, sep)
  {
    assert (a + b)[0] == a[0];
    if |a| == 1 {
      assert (a + b)[1..] == b;
    } else {
      assert (a + b)[1..] == a[1..] + b;
      JoinAppend(a[1..], b, sep);
    }
  }

  /** No conditions give the empty filter, one condition its rendering alone, and a longer
      list is the filter of its first part, " AND ", and the filter of the rest. */
  lemma FilterShape(a: seq<Condition>, b: seq<Condition>)
    ensures FilterOf([]) == ""
    ensures |a| == 1 ==> FilterOf(a) == "[" + a[0].0 + "]=" + a[0].1
    ensures a != [] && b != [] ==> FilterOf(a + b) == FilterOf(a) + " AND " + FilterOf(b)
  {
    if a != [] && b != [] {
      assert RenderAll(a + b) == RenderAll(a) + RenderAll(b);
      JoinAppend(RenderAll(a), RenderAll(b), " AND ");
    }
  }

  /** The filter holds every condition's rendering in its place: the filter of the
      conditions before it and " AND " in front, " AND " and the filter of the conditions
      after it behind. */
  lemma FilterAt(cs: seq<Condition>, k: nat)
    requires k < |cs|
    ensures FilterOf(cs) ==
              (if k == 0 then "" else FilterOf(cs[..k]) + " AND ")
              + Render(cs[k])
              + (if k + 1 == |cs| then "" else " AND " + FilterOf(cs[k + 1..]))
  {
    var a, m, b := cs[..k], [cs[k]], cs[k + 1..];
    assert cs == (a + m) + b;
    FilterShape(m, b);
    var r := Render(cs[k]);
    assert FilterOf(m) == r;
    var left := if k == 0 then "" else FilterOf(a) + " AND ";
    assert FilterOf(a + m) == left + r by {
      if k == 0 {
        assert a + m == m;
      } else {
        FilterShape(a, m);
        Registry.ConcatAssoc(FilterOf(a), " AND ", r);
      }
    }
    if k + 1 < |cs| {
      FilterShape(a + m, b);
      Registry.ConcatAssoc(left + r, " AND ", FilterOf(b));
    } else {
      assert b == [] && cs == a + m;
    }
  }

  /** The class-level settings of REDCap. */
  class Settings {
    /** `@per_page`, nil until set or first read. */
    var perPage: Option<int>

    constructor()
      ensures perPage.None?
    {
      perPage := None;
    }

    /** `per_page=`. */
    method SetPerPage(n: Option<int>)
      modifies this
      ensures perPage == n
    {
      perPage := n;
    }

    /** `per_page`: 100 when unset, which is then stored; otherwise the value set. */
    method PerPage() returns (n: int)
      modifies this
      ensures old(perPage).None? ==> n == 100
      ensures old(perPage).Some? ==> n == old(perPage).value
      ensures perPage == Some(n)
    {
      if perPage.None? {
        perPage := Some(100);
      }
      n := perPage.value;
    }
  }

  /** A REDCap project handle. */
  class Project {
    /** `@form`, nil until first asked for. */
    var form: Form?

    constructor()
      ensures form == null
    {
      form := null;
    }

    /** `form`: built once from the metadata the client returns, and the same object on
      every later call. The client is not part of this model, so the metadata is passed
      in; it is only used the first time. */
    method GetForm(metadata: Dictionary) returns (f: Form)
      modifies this
      ensures old(form) != null ==> f == old(form)
      ensures old(form) == null ==> fresh(f) && f.dictionary == metadata && f.memo.None? && f.responses.None? && f.Valid()
      ensures form == f
    {
      if form == null {
        form := new Form(metadata);
      }
      f := form;
    }
  }
}
