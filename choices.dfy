/** The parser for a choice field's `select_choices_or_calculations` string, such as
    `1,Male | 2,Female | 3,Other`: pieces separated by `|` with optional whitespace around
    it, each read as `digits,label`. The result is an ordered hash from key to label. */
module Choices {
  import opened Values

  /** One entry of the parsed hash. A piece that is not `digits,label` yields the entry
      nil => nil, exactly as Ruby's failed match destructures to nils. */
  datatype Choice = Choice(key: Option<string>, caption: Option<string>)

  /** Ruby's `\s`: space, tab, line feed, vertical tab, form feed, carriage return. */
  predicate IsSpace(c: char)
  {
    c == ' ' || '\t' <= c <= '\r'
  }

  /** Ruby's `\d`, which matches ASCII digits only. */
  predicate IsDigit(c: char)
  {
    '0' <= c <= '9'
  }

  /** The first position at or after `i` that does not hold whitespace. */
  function SpaceRunEnd(s: string, i: nat): (j: nat)
    requires i <= |s|
    ensures i <= j <= |s|
    ensures forall k :: i <= k < j ==> IsSpace(s[k])
    ensures j < |s| ==> !IsSpace(s[j])
    decreases |s| - i
  {
    if i < |s| && IsSpace(s[i]) then SpaceRunEnd(s, i + 1) else i
  }

  /** The start of the whitespace run that ends at position `n`. */
  function SpaceRunStart(s: string, n: nat): (j: nat)
    requires n <= |s|
    ensures j <= n
    ensures forall k :: j <= k < n ==> IsSpace(s[k])
    ensures 0 < j ==> !IsSpace(s[j - 1])
  {
    if 0 < n && IsSpace(s[n - 1]) then SpaceRunStart(s, n - 1) else n
  }

  function TrimLeft(s: string): (t: string)
    ensures |t| <= |s|
    ensures t == s[|s| - |t|..]
    ensures t != [] ==> !IsSpace(t[0])
    ensures forall c :: c in s[..|s| - |t|] ==> IsSpace(c)
  {
    s[SpaceRunEnd(s, 0)..]
  }

  function TrimRight(s: string): (t: string)
    ensures |t| <= |s|
    ensures t == s[..|t|]
    ensures t != [] ==> !IsSpace(t[|t| - 1])
    ensures forall c :: c in s[|t|..] ==> IsSpace(c)
  {
    s[..SpaceRunStart(s, |s|)]
  }

  /** The position of the first `|` at or after `i`, or `|s|` when there is none. */
  function PipeFrom(s: string, i: nat): (j: nat)
    requires i <= |s|
    ensures i <= j <= |s|
    ensures j < |s| ==> s[j] == '|'
    ensures forall k :: i <= k < j ==> s[k] != '|'
    decreases |s| - i
  {
    if i == |s| || s[i] == '|' then i else PipeFrom(s, i + 1)
  }

  /** The position of the first `|` in `s`, or `|s|` when there is none. */
  function PipeAt(s: string): (i: nat)
    ensures i <= |s|
    ensures i < |s| ==> s[i] == '|'
    ensures forall j :: 0 <= j < i ==> s[j] != '|'
  {
    PipeFrom(s, 0)
  }

  /** The pieces of Ruby's `split` on the pattern `\s*\|\s*` before trailing empty pieces are dropped. A match of
      the separator takes the whitespace run that ends at a `|` and the whole whitespace run
      after it, so the piece in front of a `|` loses its trailing whitespace and the piece
      after it loses its leading whitespace; the text before the first `|` keeps its
      leading whitespace and the text after the last `|` keeps its trailing whitespace. */
  function Pieces(s: string, afterPipe: bool): (ps: seq<string>)
    ensures |ps| > 0
    decreases |s|, 1
  {
    Cut(if afterPipe then TrimLeft(s) else s)
  }

  /** The pieces of a text whose leading whitespace, if any, belongs to its first piece. */
  function Cut(t: string): (ps: seq<string>)
    ensures |ps| > 0
    decreases |t|, 0
  {
    var i := PipeAt(t);
    if i == |t| then [t] else [TrimRight(t[..i])] + Pieces(t[i + 1..], true)
  }

  /** No piece holds a `|`, every piece before a `|` ends with a non-space, and every piece
      after one starts with a non-space (the first piece too when `lead` holds). */
  predicate Shaped(ps: seq<string>, lead: bool)
  {
    && (forall k :: 0 <= k < |ps| ==> '|' !in ps[k])
    && (forall k :: 0 <= k < |ps| && (lead || 0 < k) && ps[k] != [] ==> !IsSpace(ps[k][0]))
    && (forall k :: 0 <= k < |ps| - 1 && ps[k] != [] ==> !IsSpace(ps[k][|ps[k]| - 1]))
  }

  /** There is one piece more than there are `|`s, and the separator's whitespace is gone
      from both sides of every `|`. */
  lemma {:induction false} PiecesShape(s: string, afterPipe: bool)
    ensures |Pieces(s, afterPipe)| == multiset(s)['|'] + 1
    ensures Shaped(Pieces(s, afterPipe), afterPipe)
    decreases |s|, 1
  {
    if afterPipe {
      PipesOfTrimmed(s);
      CutShape(TrimLeft(s));
    } else {
      CutShape(s);
      ShapedWithoutLead(Cut(s), s == [] || !IsSpace(s[0]));
    }
  }

  lemma ShapedWithoutLead(ps: seq<string>, lead: bool)
    requires Shaped(ps, lead)
    ensures Shaped(ps, false)
  {
  }

  lemma {:induction false} CutShape(t: string)
    ensures |Cut(t)| == multiset(t)['|'] + 1
    ensures Shaped(Cut(t), t == [] || !IsSpace(t[0]))
    decreases |t|, 0
  {
    var i := PipeAt(t);
    if i == |t| {
      assert '|' !in t;
    } else {
      CutAtPipe(t);
      CutPipes(t, i);
      FirstPiece(t, i);
      PiecesShape(t[i + 1..], true);
      PiecesCons(TrimRight(t[..i]), Pieces(t[i + 1..], true), t == [] || !IsSpace(t[0]));
    }
  }

  /** The piece in front of the first `|` holds no `|` and ends with a non-space. */
  lemma FirstPiece(t: string, i: nat)
    requires i <= |t| && forall j :: 0 <= j < i ==> t[j] != '|'
    ensures '|' !in TrimRight(t[..i])
    ensures TrimRight(t[..i]) != [] ==> !IsSpace(TrimRight(t[..i])[|TrimRight(t[..i])| - 1])
    ensures TrimRight(t[..i]) != [] && !IsSpace(t[0]) ==> !IsSpace(TrimRight(t[..i])[0])
  {
    var first := TrimRight(t[..i]);
    assert first == t[..i][..|first|];
    if first != [] { assert first[0] == t[0]; }
  }

  /** A piece cut off in front keeps the shape of the pieces after it. */
  lemma PiecesCons(first: string, rest: seq<string>, lead: bool)
    requires '|' !in first && (first != [] ==> !IsSpace(first[|first| - 1]))
    requires lead && first != [] ==> !IsSpace(first[0])
    requires Shaped(rest, true)
    ensures Shaped([first] + rest, lead)
  {
    var ps := [first] + rest;
    forall k | 0 < k < |ps| ensures ps[k] == rest[k - 1] { }
  }

  /** Trimming leading whitespace removes no `|`. */
  lemma PipesOfTrimmed(s: string)
    ensures multiset(TrimLeft(s))['|'] == multiset(s)['|']
  {
    var w := s[..|s| - |TrimLeft(s)|];
    TrimLeftParts(s);
    NoPipeInSpace(w);
    assert multiset(s) == multiset(w) + multiset(TrimLeft(s));
  }

  /** Cutting at the first `|` leaves the other `|`s in the rest. */
  lemma CutPipes(t: string, i: nat)
    requires i < |t| && t[i] == '|' && forall j :: 0 <= j < i ==> t[j] != '|'
    ensures multiset(t)['|'] == multiset(t[i + 1..])['|'] + 1
  {
    assert t == t[..i] + [t[i]] + t[i + 1..];
    assert '|' !in t[..i];
    assert multiset(t) == multiset(t[..i]) + multiset([t[i]]) + multiset(t[i + 1..]);
  }

  /** Ruby's `split` with no limit drops the empty pieces at the end. */
  function DropTrailingEmpty(ps: seq<string>): (qs: seq<string>)
    ensures |qs| <= |ps| && qs == ps[..|qs|]
    ensures qs != [] ==> qs[|qs| - 1] != ""
    ensures forall k :: |qs| <= k < |ps| ==> ps[k] == ""
  {
    if ps != [] && ps[|ps| - 1] == "" then DropTrailingEmpty(ps[..|ps| - 1]) else ps
  }

  /** Ruby's `split` on the separator pattern: at most one piece more than there are
      `|`s, none holding a `|` or whitespace next to a `|`, and no empty piece at the end. */
  function Split(s: string): (ps: seq<string>)
    ensures |ps| <= multiset(s)['|'] + 1
    ensures Shaped(ps, false)
    ensures ps != [] ==> ps[|ps| - 1] != ""
  {
    PiecesShape(s, false);
    var ps := DropTrailingEmpty(Pieces(s, false));
    ShapedPrefix(Pieces(s, false), |ps|);
    ps
  }

  lemma ShapedPrefix(ps: seq<string>, n: nat)
    requires Shaped(ps, false) && n <= |ps|
    ensures Shaped(ps[..n], false)
  {
    assert forall k :: 0 <= k < n ==> ps[..n][k] == ps[k];
  }

  // ---------------------------------------------------------------------------------------
  // The split as pieces between separators

  predicate AllSpace(w: string)
  {
    forall c :: c in w ==> IsSpace(c)
  }

  /** One match of `\s*\|\s*`: a whitespace run, a `|`, a whitespace run. */
  datatype Separator = Separator(before: string, after: string)

  predicate IsSeparator(sep: Separator)
  {
    AllSpace(sep.before) && AllSpace(sep.after)
  }

  predicate AllSeparators(seps: seq<Separator>)
  {
    forall k :: 0 <= k < |seps| ==> IsSeparator(seps[k])
  }

  function SeparatorText(sep: Separator): string
  {
    sep.before + "|" + sep.after
  }

  /** The pieces with the separators between them. */
  function Join(ps: seq<string>, seps: seq<Separator>): string
    requires |ps| == |seps| + 1
    decreases |seps|
  {
    if seps == [] then ps[0] else ps[0] + SeparatorText(seps[0]) + Join(ps[1..], seps[1..])
  }

  /** The separator matches of a text, in order. */
  function Separators(t: string): seq<Separator>
    decreases |t|
  {
    if PipeAt(t) == |t| then [] else [FirstSeparator(t)] + Separators(AfterFirstPipe(t))
  }

  /** Every text is its pieces with its separator matches between each two of them. */
  lemma {:induction false} CutJoins(t: string)
    ensures |Separators(t)| + 1 == |Cut(t)|
    ensures AllSeparators(Separators(t))
    ensures Join(Cut(t), Separators(t)) == t
    decreases |t|
  {
    if PipeAt(t) == |t| {
      assert Cut(t) == [t];
    } else {
      CutAtFirstPipe(t);
      FirstPipeParts(t);
      var v := AfterFirstPipe(t);
      CutJoins(v);
      JoinCons(BeforeFirstPipe(t), FirstSeparator(t), Cut(v), Separators(v));
      SeparatorsCons(FirstSeparator(t), Separators(v));
    }
  }

  lemma SeparatorsCons(sep: Separator, seps: seq<Separator>)
    requires IsSeparator(sep) && AllSeparators(seps)
    ensures AllSeparators([sep] + seps)
  {
    var all := [sep] + seps;
    forall k | 0 <= k < |all| ensures IsSeparator(all[k]) {
      if k > 0 { assert all[k] == seps[k - 1]; }
    }
  }

  /** The piece in front of the first `|`. */
  function BeforeFirstPipe(t: string): string
    requires PipeAt(t) < |t|
  {
    TrimRight(t[..PipeAt(t)])
  }

  /** The text after the first separator match. */
  function AfterFirstPipe(t: string): (v: string)
    requires PipeAt(t) < |t|
    ensures |v| < |t|
  {
    TrimLeft(t[PipeAt(t) + 1..])
  }

  /** The first separator match: the whitespace before the first `|` and after it. */
  function FirstSeparator(t: string): Separator
    requires PipeAt(t) < |t|
  {
    var i := PipeAt(t);
    var u := t[i + 1..];
    Separator(t[..i][|BeforeFirstPipe(t)|..], u[..|u| - |AfterFirstPipe(t)|])
  }

  /** A text with a `|` is cut into its first piece and the pieces after the first
      separator match. */
  lemma CutAtFirstPipe(t: string)
    requires PipeAt(t) < |t|
    ensures Cut(t) == [BeforeFirstPipe(t)] + Cut(AfterFirstPipe(t))
  {
    CutAtPipe(t);
    assert Pieces(t[PipeAt(t) + 1..], true) == Cut(AfterFirstPipe(t));
  }

  /** A text with a `|` is its first piece, the first separator match and the rest. */
  lemma FirstPipeParts(t: string)
    requires PipeAt(t) < |t|
    ensures IsSeparator(FirstSeparator(t))
    ensures t == BeforeFirstPipe(t) + SeparatorText(FirstSeparator(t)) + AfterFirstPipe(t)
  {
    var i := PipeAt(t);
    var x, u := t[..i], t[i + 1..];
    assert BeforeFirstPipe(t) == TrimRight(x) && AfterFirstPipe(t) == TrimLeft(u);
    assert FirstSeparator(t) == Separator(x[|TrimRight(x)|..], u[..|u| - |TrimLeft(u)|]);
    AroundPipe(t, i);
    TrimmedAroundPipe(x, u);
  }

  lemma AroundPipe(t: string, i: nat)
    requires i < |t| && t[i] == '|'
    ensures t == t[..i] + "|" + t[i + 1..]
  {
    AroundIndex(t, i);
  }

  /** The same for the text on each side of the `|`. */
  lemma TrimmedAroundPipe(x: string, u: string)
    ensures IsSeparator(Separator(x[|TrimRight(x)|..], u[..|u| - |TrimLeft(u)|]))
    ensures x + "|" + u == TrimRight(x) + SeparatorText(Separator(x[|TrimRight(x)|..], u[..|u| - |TrimLeft(u)|])) + TrimLeft(u)
  {
    var before, after := x[|TrimRight(x)|..], u[..|u| - |TrimLeft(u)|];
    TrimRightParts(x);
    TrimLeftParts(u);
    Reassemble(x, TrimRight(x), before, u, after, TrimLeft(u));
  }

  /** A text is its right-trimmed part followed by whitespace. */
  lemma TrimRightParts(x: string)
    ensures AllSpace(x[|TrimRight(x)|..])
    ensures x == TrimRight(x) + x[|TrimRight(x)|..]
  {
    SplitAt(x, |TrimRight(x)|);
  }

  /** A text is whitespace followed by its left-trimmed part. */
  lemma TrimLeftParts(u: string)
    ensures AllSpace(u[..|u| - |TrimLeft(u)|])
    ensures u == u[..|u| - |TrimLeft(u)|] + TrimLeft(u)
  {
    SplitAt(u, |u| - |TrimLeft(u)|);
  }

  lemma SplitAt(x: string, n: nat)
    requires n <= |x|
    ensures x == x[..n] + x[n..]
  {
  }

  lemma AroundIndex(t: string, i: nat)
    requires i < |t|
    ensures t == t[..i] + [t[i]] + t[i + 1..]
  {
  }

  lemma Reassemble(x: string, head: string, before: string, u: string, after: string, v: string)
    requires x == head + before && u == after + v
    ensures x + "|" + u == head + (before + "|" + after) + v
  {
  }

  lemma JoinCons(p: string, sep: Separator, ps: seq<string>, seps: seq<Separator>)
    requires |ps| == |seps| + 1
    ensures Join([p] + ps, [sep] + seps) == p + SeparatorText(sep) + Join(ps, seps)
  {
    assert ([p] + ps)[1..] == ps && ([sep] + seps)[1..] == seps;
  }

  /** `split` takes the text between the separator matches, then drops the empty pieces at
      the end. */
  lemma SplitIsJoin(s: string)
    ensures exists ps, seps :: && |ps| == |seps| + 1 && AllSeparators(seps) && Shaped(ps, false)
                               && Join(ps, seps) == s && Split(s) == DropTrailingEmpty(ps)
  {
    CutJoins(s);
    PiecesShape(s, false);
    assert Pieces(s, false) == Cut(s);
    var ps, seps := Cut(s), Separators(s);
    assert |ps| == |seps| + 1 && AllSeparators(seps) && Shaped(ps, false)
           && Join(ps, seps) == s && Split(s) == DropTrailingEmpty(ps);
  }

  /** Conversely, pieces that hold no `|` and no whitespace next to a `|`, joined by any
      separator matches, are cut back into exactly those pieces. */
  lemma {:induction false} CutOfJoin(ps: seq<string>, seps: seq<Separator>)
    requires |ps| == |seps| + 1 && AllSeparators(seps) && Shaped(ps, false)
    ensures Cut(Join(ps, seps)) == ps
    decreases |ps|, 0
  {
    if seps == [] {
      assert Join(ps, seps) == ps[0];
      assert '|' !in ps[0];
      CutNoPipe(ps[0]);
      assert ps == [ps[0]];
    } else {
      JoinedTail(ps, seps);
      CutOfJoinHead(ps, seps);
      PiecesOfJoin(seps[0].after, ps[1..], seps[1..]);
    }
  }

  /** A text without a `|` is one piece. */
  lemma CutNoPipe(p: string)
    requires '|' !in p
    ensures Cut(p) == [p]
  {
    assert PipeAt(p) == |p|;
  }

  /** The first piece comes off in front of its separator match. */
  lemma CutOfJoinHead(ps: seq<string>, seps: seq<Separator>)
    requires |ps| == |seps| + 1 && seps != [] && IsSeparator(seps[0])
    requires '|' !in ps[0] && (ps[0] == [] || !IsSpace(ps[0][|ps[0]| - 1]))
    ensures Cut(Join(ps, seps)) == [ps[0]] + Pieces(seps[0].after + Join(ps[1..], seps[1..]), true)
  {
    var sep := seps[0];
    var a, rest := ps[0] + sep.before, sep.after + Join(ps[1..], seps[1..]);
    JoinHead(ps, seps);
    NoPipeInSpace(sep.before);
    NoPipeConcat(ps[0], sep.before);
    CutOfPipe(a, rest);
    TrimRightOf(ps[0], sep.before);
  }

  lemma {:induction false} PiecesOfJoin(w: string, ps: seq<string>, seps: seq<Separator>)
    requires AllSpace(w) && |ps| == |seps| + 1 && AllSeparators(seps) && Shaped(ps, true)
    ensures Pieces(w + Join(ps, seps), true) == ps
    decreases |ps|, 1
  {
    if ps[0] != "" {
      PiecesOfJoinStart(w, ps, seps);
      ShapedWithoutLead(ps, true);
      CutOfJoin(ps, seps);
    } else if seps == [] {
      PiecesOfEmptyJoin(w, ps);
    } else {
      ShapedWithoutLead(ps, true);
      JoinedTail(ps, seps);
      PiecesOfEmptyFirst(w, ps, seps);
      PiecesOfJoin(seps[0].after, ps[1..], seps[1..]);
    }
  }

  /** The first piece, the first separator match and the rest. */
  lemma JoinHead(ps: seq<string>, seps: seq<Separator>)
    requires |ps| == |seps| + 1 && seps != []
    ensures Join(ps, seps) == (ps[0] + seps[0].before) + "|" + (seps[0].after + Join(ps[1..], seps[1..]))
  {
  }

  lemma NoPipeConcat(a: string, b: string)
    requires '|' !in a && '|' !in b
    ensures '|' !in a + b
  {
  }

  /** A text with its first `|` after `a` is cut into `a` trimmed and the pieces after it. */
  lemma CutOfPipe(a: string, rest: string)
    requires '|' !in a
    ensures Cut(a + "|" + rest) == [TrimRight(a)] + Pieces(rest, true)
  {
    PipeAtJoin(a, rest);
  }

  /** Before a non-empty first piece, the whitespace in front goes. */
  lemma PiecesOfJoinStart(w: string, ps: seq<string>, seps: seq<Separator>)
    requires AllSpace(w) && |ps| == |seps| + 1 && Shaped(ps, true) && ps[0] != ""
    ensures Pieces(w + Join(ps, seps), true) == Cut(Join(ps, seps))
  {
    var j := Join(ps, seps);
    assert j[0] == ps[0][0];
    TrimLeftOf(w, j);
  }

  lemma PiecesOfEmptyJoin(w: string, ps: seq<string>)
    requires AllSpace(w) && |ps| == 1 && ps[0] == ""
    ensures Pieces(w + Join(ps, []), true) == ps
  {
    assert w + Join(ps, []) == w + "";
    TrimLeftOf(w, "");
    assert Cut("") == [""];
  }

  /** Before an empty first piece, the whitespace in front and the whitespace of the first
      separator go together, up to its `|`. */
  lemma PiecesOfEmptyFirst(w: string, ps: seq<string>, seps: seq<Separator>)
    requires AllSpace(w) && |ps| == |seps| + 1 && AllSeparators(seps) && ps[0] == "" && seps != []
    ensures Pieces(w + Join(ps, seps), true) == [""] + Pieces(seps[0].after + Join(ps[1..], seps[1..]), true)
  {
    var sep := seps[0];
    var rest := sep.after + Join(ps[1..], seps[1..]);
    EmptyFirstText(w, ps, seps);
    assert IsSeparator(sep);
    SpaceConcat(w, sep.before);
    PiecesAtPipe(w + sep.before, rest);
  }

  lemma EmptyFirstText(w: string, ps: seq<string>, seps: seq<Separator>)
    requires |ps| == |seps| + 1 && ps[0] == "" && seps != []
    ensures w + Join(ps, seps) == (w + seps[0].before) + ("|" + (seps[0].after + Join(ps[1..], seps[1..])))
  {
    JoinHead(ps, seps);
    SpacePipe(w, seps[0].before, seps[0].after + Join(ps[1..], seps[1..]));
  }

  /** Whitespace and then a `|` start with an empty piece. */
  lemma PiecesAtPipe(w: string, rest: string)
    requires AllSpace(w)
    ensures Pieces(w + ("|" + rest), true) == [""] + Pieces(rest, true)
  {
    TrimLeftOf(w, "|" + rest);
    CutOfPipe("", rest);
    assert "" + "|" + rest == "|" + rest;
    assert TrimRight("") == "";
  }

  lemma SpaceConcat(a: string, b: string)
    requires AllSpace(a) && AllSpace(b)
    ensures AllSpace(a + b)
  {
  }

  lemma SpacePipe(w: string, before: string, rest: string)
    ensures w + (("" + before) + "|" + rest) == (w + before) + ("|" + rest)
  {
  }

  lemma NoPipeInSpace(w: string)
    requires AllSpace(w)
    ensures '|' !in w
  {
    assert !IsSpace('|');
  }

  lemma PipeAtJoin(a: string, rest: string)
    requires '|' !in a
    ensures PipeAt(a + "|" + rest) == |a|
    ensures (a + "|" + rest)[..|a|] == a && (a + "|" + rest)[|a| + 1..] == rest
  {
    var t := a + "|" + rest;
    assert t[|a|] == '|';
    forall j | 0 <= j < |a| ensures t[j] != '|' {
      assert t[j] == a[j];
    }
    assert t[..|a|] == a;
    assert t[|a| + 1..] == rest;
  }

  /** Trailing whitespace after a piece that does not end in whitespace is what
      `TrimRight` removes. */
  lemma {:induction false} TrimRightOf(a: string, w: string)
    requires AllSpace(w) && (a == [] || !IsSpace(a[|a| - 1]))
    ensures TrimRight(a + w) == a
    decreases |w|
  {
    if w == [] {
      assert a + w == a;
    } else {
      assert w[|w| - 1] in w;
      assert (a + w)[..|a + w| - 1] == a + w[..|w| - 1];
      assert AllSpace(w[..|w| - 1]) by {
        forall c | c in w[..|w| - 1] ensures c in w { }
      }
      TrimRightOf(a, w[..|w| - 1]);
    }
  }

  /** Leading whitespace in front of a text that does not start with whitespace is what
      `TrimLeft` removes. */
  lemma {:induction false} TrimLeftOf(w: string, x: string)
    requires AllSpace(w) && (x == [] || !IsSpace(x[0]))
    ensures TrimLeft(w + x) == x
    decreases |w|
  {
    if w == [] {
      assert w + x == x;
    } else {
      assert w[0] in w;
      assert (w + x)[1..] == w[1..] + x;
      assert AllSpace(w[1..]) by {
        forall c | c in w[1..] ensures c in w { }
      }
      TrimLeftOf(w[1..], x);
    }
  }

  /** What the pieces and separator matches after the first ones still satisfy. */
  lemma JoinedTail(ps: seq<string>, seps: seq<Separator>)
    requires |ps| == |seps| + 1 && seps != [] && AllSeparators(seps) && Shaped(ps, false)
    ensures IsSeparator(seps[0]) && AllSpace(seps[0].after) && AllSeparators(seps[1..])
    ensures '|' !in ps[0] && (ps[0] == [] || !IsSpace(ps[0][|ps[0]| - 1]))
    ensures |ps[1..]| == |seps[1..]| + 1 && Shaped(ps[1..], true)
    ensures ps == [ps[0]] + ps[1..]
  {
    assert IsSeparator(seps[0]);
    ShapedTail(ps);
    forall k | 0 <= k < |seps[1..]| ensures IsSeparator(seps[1..][k]) {
      assert seps[1..][k] == seps[k + 1];
    }
  }

  lemma ShapedTail(ps: seq<string>)
    requires ps != [] && Shaped(ps, false)
    ensures Shaped(ps[1..], true)
  {
    forall k | 0 <= k < |ps[1..]| ensures ps[1..][k] == ps[k + 1] { }
  }

  /** `split` on any separator matches gives back the pieces, less the empty ones at the
      end. */
  lemma SplitOfJoin(ps: seq<string>, seps: seq<Separator>)
    requires |ps| == |seps| + 1 && AllSeparators(seps) && Shaped(ps, false)
    ensures Split(Join(ps, seps)) == DropTrailingEmpty(ps)
  {
    CutOfJoin(ps, seps);
  }

  /** Two pairs split alike whether their `|` has no whitespace around it or several
      whitespace characters. */
  lemma SplitTight()
    ensures Split("1,A|2,B") == ["1,A", "2,B"]
  {
    var ps := ["1,A", "2,B"];
    ExamplePiecesShaped();
    TightSeparator();
    TightJoin();
    SplitOfJoin(ps, [Separator("", "")]);
    assert DropTrailingEmpty(ps) == ps;
  }

  lemma TightSeparator()
    ensures AllSeparators([Separator("", "")])
  {
    assert IsSeparator(Separator("", ""));
  }

  lemma TightJoin()
    ensures Join(["1,A", "2,B"], [Separator("", "")]) == "1,A|2,B"
  {
    JoinTwo("1,A", Separator("", ""), "2,B");
    assert "1,A" + ("" + "|" + "") + "2,B" == "1,A|2,B";
  }

  lemma SplitLoose()
    ensures Split("1,A  |\t2,B") == ["1,A", "2,B"]
  {
    var ps := ["1,A", "2,B"];
    var sep := Separator("  ", "\t");
    ExamplePiecesShaped();
    LooseSeparator();
    LooseJoin();
    SplitOfJoin(ps, [sep]);
    assert DropTrailingEmpty(ps) == ps;
  }

  lemma LooseSeparator()
    ensures AllSeparators([Separator("  ", "\t")])
  {
    assert forall c :: c in "  " ==> c == ' ';
    assert forall c :: c in "\t" ==> c == '\t';
  }

  lemma LooseJoin()
    ensures Join(["1,A", "2,B"], [Separator("  ", "\t")]) == "1,A  |\t2,B"
  {
    JoinTwo("1,A", Separator("  ", "\t"), "2,B");
    assert "1,A" + ("  " + "|" + "\t") + "2,B" == "1,A  |\t2,B";
  }

  lemma ExamplePiecesShaped()
    ensures Shaped(["1,A", "2,B"], false)
  {
    var ps := ["1,A", "2,B"];
    assert forall c :: c in "1,A" ==> c != '|';
    assert forall c :: c in "2,B" ==> c != '|';
  }

  lemma JoinTwo(a: string, sep: Separator, b: string)
    ensures Join([a, b], [sep]) == a + SeparatorText(sep) + b
  {
    assert [a, b][1..] == [b];
    assert [sep][1..] == [];
  }

  /** The length of the run of digits at the start of `s`. */
  function DigitRun(s: string): (n: nat)
    ensures n <= |s|
    ensures forall k :: 0 <= k < n ==> IsDigit(s[k])
    ensures n < |s| ==> !IsDigit(s[n])
  {
    if s != [] && IsDigit(s[0]) then 1 + DigitRun(s[1..]) else 0
  }

  /** `pair.match(/\A(\d+),(.+)\z/)`: the digits up to the first comma, then a label of at
      least one character with no line feed (Ruby's `.` does not match one). */
  function ParsePair(p: string): (c: Choice)
    ensures c.key.Some? <==> c.caption.Some?
    ensures c.key.Some? ==> p == c.key.value + "," + c.caption.value
    ensures c.key.Some? ==> c.key.value == p[..DigitRun(p)] && |c.key.value| > 0
    ensures c.key.Some? ==> |c.caption.value| > 0 && '\n' !in c.caption.value
  {
    var n := DigitRun(p);
    if 0 < n && n + 1 < |p| && p[n] == ',' && '\n' !in p[n + 1..] then
      assert p == p[..n] + "," + p[n + 1..];
      Choice(Some(p[..n]), Some(p[n + 1..]))
    else
      Choice(None, None)
  }

  /** Conversely, every `digits,label` with a non-empty label free of line feeds is read
      as that key and that label. */
  lemma ParsePairOf(d: string, l: string)
    requires |d| > 0 && forall k :: 0 <= k < |d| ==> IsDigit(d[k])
    requires |l| > 0 && '\n' !in l
    ensures ParsePair(d + "," + l) == Choice(Some(d), Some(l))
  {
    var p := d + "," + l;
    var n := DigitRun(p);
    assert p[|d|] == ',';
    forall k | 0 <= k < |d| ensures IsDigit(p[k]) {
      assert p[k] == d[k];
    }
    assert n == |d|;
    assert p[..n] == d && p[n + 1..] == l;
  }

  function Keys(cs: seq<Choice>): (ks: seq<Option<string>>)
    ensures |ks| == |cs|
    ensures forall k :: 0 <= k < |cs| ==> ks[k] == cs[k].key
  {
    seq(|cs|, k requires 0 <= k < |cs| => cs[k].key)
  }

  predicate DistinctKeys(cs: seq<Choice>)
  {
    forall i, j :: 0 <= i < j < |cs| ==> cs[i].key != cs[j].key
  }

  /** The label stored under `k`, if the hash holds `k`. */
  function Find(cs: seq<Choice>, k: Option<string>): Option<Option<string>>
  {
    if cs == [] then None
    else if cs[0].key == k then Some(cs[0].caption)
    else Find(cs[1..], k)
  }

  /** `options[k]` on the parsed hash: the label, or nil for a missing key. */
  function LabelFor(cs: seq<Choice>, k: Option<string>): Option<string>
  {
    var f := Find(cs, k);
    if f.Some? then f.value else None
  }

  /** `options.merge key => value`: an existing key keeps its position and takes the new
      label; a new key is appended. */
  function Merge(cs: seq<Choice>, c: Choice): (m: seq<Choice>)
    ensures Keys(m) == if c.key in Keys(cs) then Keys(cs) else Keys(cs) + [c.key]
    ensures Find(m, c.key) == Some(c.caption)
    ensures forall k :: k != c.key ==> Find(m, k) == Find(cs, k)
    ensures c.key !in Keys(cs) ==> m == cs + [c]
  {
    if cs == [] then [c]
    else if cs[0].key == c.key then
      var m := [c] + cs[1..];
      assert m[1..] == cs[1..];
      assert Keys(m) == Keys(cs);
      m
    else
      var rest := Merge(cs[1..], c);
      MergeCons(cs, c, rest);
      [cs[0]] + rest
  }

  /** Merging into a hash whose first key differs keeps that first entry in front. */
  lemma MergeCons(cs: seq<Choice>, c: Choice, rest: seq<Choice>)
    requires cs != [] && cs[0].key != c.key
    requires Keys(rest) == if c.key in Keys(cs[1..]) then Keys(cs[1..]) else Keys(cs[1..]) + [c.key]
    requires Find(rest, c.key) == Some(c.caption)
    requires forall k :: k != c.key ==> Find(rest, k) == Find(cs[1..], k)
    requires c.key !in Keys(cs[1..]) ==> rest == cs[1..] + [c]
    ensures Keys([cs[0]] + rest) == if c.key in Keys(cs) then Keys(cs) else Keys(cs) + [c.key]
    ensures Find([cs[0]] + rest, c.key) == Some(c.caption)
    ensures forall k :: k != c.key ==> Find([cs[0]] + rest, k) == Find(cs, k)
    ensures c.key !in Keys(cs) ==> [cs[0]] + rest == cs + [c]
  {
    MergeConsKeys(cs, c, rest);
    MergeConsFind(cs, c, rest);
    if c.key !in Keys(cs) {
      assert cs == [cs[0]] + cs[1..];
    }
  }

  lemma MergeConsFind(cs: seq<Choice>, c: Choice, rest: seq<Choice>)
    requires cs != [] && cs[0].key != c.key
    requires Find(rest, c.key) == Some(c.caption)
    requires forall k :: k != c.key ==> Find(rest, k) == Find(cs[1..], k)
    ensures Find([cs[0]] + rest, c.key) == Some(c.caption)
    ensures forall k :: k != c.key ==> Find([cs[0]] + rest, k) == Find(cs, k)
  {
    assert ([cs[0]] + rest)[1..] == rest;
  }

  lemma MergeConsKeys(cs: seq<Choice>, c: Choice, rest: seq<Choice>)
    requires cs != [] && cs[0].key != c.key
    requires Keys(rest) == if c.key in Keys(cs[1..]) then Keys(cs[1..]) else Keys(cs[1..]) + [c.key]
    ensures Keys([cs[0]] + rest) == if c.key in Keys(cs) then Keys(cs) else Keys(cs) + [c.key]
    ensures c.key in Keys(cs) <==> c.key in Keys(cs[1..])
  {
    KeysAppend([cs[0]], rest);
    KeysAppend([cs[0]], cs[1..]);
    assert cs == [cs[0]] + cs[1..];
    var k0 := Keys([cs[0]]);
    assert k0 == [cs[0].key];
    assert c.key in Keys(cs) <==> c.key in Keys(cs[1..]);
    if c.key !in Keys(cs[1..]) {
      assert k0 + (Keys(cs[1..]) + [c.key]) == (k0 + Keys(cs[1..])) + [c.key];
    }
  }

  lemma KeysAppend(a: seq<Choice>, b: seq<Choice>)
    ensures Keys(a + b) == Keys(a) + Keys(b)
  {
    forall i | 0 <= i < |a + b| ensures Keys(a + b)[i] == (Keys(a) + Keys(b))[i] {
      if i < |a| { assert (a + b)[i] == a[i]; } else { assert (a + b)[i] == b[i - |a|]; }
    }
  }

  /** The `reduce` over the pieces, starting from the hash `acc`. */
  function MergeAll(acc: seq<Choice>, ps: seq<Choice>): (m: seq<Choice>)
    ensures forall k :: Find(m, k) == if LastLabel(ps, k).Some? then LastLabel(ps, k) else Find(acc, k)
    decreases |ps|
  {
    if ps == [] then acc
    else
      LastLabelsSplit(ps);
      MergeAll(Merge(acc, ps[0]), ps[1..])
  }

  function ParseAll(ps: seq<string>): (cs: seq<Choice>)
    ensures |cs| == |ps|
    ensures forall k :: 0 <= k < |ps| ==> cs[k] == ParsePair(ps[k])
  {
    seq(|ps|, k requires 0 <= k < |ps| => ParsePair(ps[k]))
  }

  /** `RadioButtons#options`: the choice string as an ordered hash from key to label. */
  function Parse(s: string): (cs: seq<Choice>)
    ensures s == "" ==> cs == []
  {
    MergeAll([], ParseAll(Split(s)))
  }

  // ---------------------------------------------------------------------------------------
  // What the parsed hash holds

  /** The label of the LAST entry of `ps` whose key is `k`: the reference for "a later pair
      with the same key wins". */
  function LastLabel(ps: seq<Choice>, k: Option<string>): Option<Option<string>>
  {
    if ps == [] then None
    else if ps[|ps| - 1].key == k then Some(ps[|ps| - 1].caption)
    else LastLabel(ps[..|ps| - 1], k)
  }

  lemma {:induction false} MergeAllKeepsDistinct(acc: seq<Choice>, ps: seq<Choice>)
    requires DistinctKeys(acc)
    ensures DistinctKeys(MergeAll(acc, ps))
    decreases |ps|
  {
    if ps != [] {
      var m := Merge(acc, ps[0]);
      assert Keys(m) == if ps[0].key in Keys(acc) then Keys(acc) else Keys(acc) + [ps[0].key];
      forall i, j | 0 <= i < j < |m| ensures m[i].key != m[j].key {
        assert Keys(m)[i] == m[i].key && Keys(m)[j] == m[j].key;
        if j < |acc| {
          assert Keys(acc)[i] == acc[i].key && Keys(acc)[j] == acc[j].key;
        } else {
          assert Keys(acc)[i] == acc[i].key;
        }
      }
      MergeAllKeepsDistinct(m, ps[1..]);
    }
  }

  /** Each element of `ks` at the place of its first occurrence, later repeats left out:
      the reference for the key order of a hash built by successive merges. */
  function FirstOccurrences<T(==)>(ks: seq<T>): seq<T>
    decreases |ks|
  {
    if ks == [] then []
    else
      var pre := ks[..|ks| - 1];
      if ks[|ks| - 1] in pre then FirstOccurrences(pre) else FirstOccurrences(pre) + [ks[|ks| - 1]]
  }

  lemma {:induction false} FirstOccurrencesMembers<T>(ks: seq<T>)
    ensures forall x :: x in FirstOccurrences(ks) <==> x in ks
    decreases |ks|
  {
    if ks != [] {
      var pre := ks[..|ks| - 1];
      FirstOccurrencesMembers(pre);
      assert ks == pre + [ks[|ks| - 1]];
    }
  }

  /** Appending one key to the merged sequence of keys. */
  lemma FirstOccurrencesSnoc<T>(ks: seq<T>, x: T)
    ensures FirstOccurrences(ks + [x]) == if x in ks then FirstOccurrences(ks) else FirstOccurrences(ks) + [x]
  {
    assert (ks + [x])[..|ks|] == ks;
  }

  /** The keys of the hash after the fold are the keys merged so far followed by the keys of
      the pieces, each kept at its first occurrence: a repeated key stays where it first
      appeared. */
  lemma {:induction false} MergeAllKeys(acc: seq<Choice>, ps: seq<Choice>, pre: seq<Option<string>>)
    requires Keys(acc) == FirstOccurrences(pre)
    ensures Keys(MergeAll(acc, ps)) == FirstOccurrences(pre + Keys(ps))
    decreases |ps|
  {
    if ps == [] {
      assert pre + Keys(ps) == pre;
    } else {
      var m := Merge(acc, ps[0]);
      MergeKeysStep(acc, ps[0], pre);
      MergeAllKeys(m, ps[1..], pre + [ps[0].key]);
      KeysAfterFirst(pre, ps);
      assert MergeAll(acc, ps) == MergeAll(m, ps[1..]);
    }
  }

  lemma MergeKeysStep(acc: seq<Choice>, c: Choice, pre: seq<Option<string>>)
    requires Keys(acc) == FirstOccurrences(pre)
    ensures Keys(Merge(acc, c)) == FirstOccurrences(pre + [c.key])
  {
    FirstOccurrencesMembers(pre);
    FirstOccurrencesSnoc(pre, c.key);
  }

  lemma KeysAfterFirst(pre: seq<Option<string>>, ps: seq<Choice>)
    requires ps != []
    ensures pre + [ps[0].key] + Keys(ps[1..]) == pre + Keys(ps)
  {
    KeysAppend([ps[0]], ps[1..]);
    assert ps == [ps[0]] + ps[1..];
  }

  /** The parsed hash lists its keys in the order of their first appearance in the choice
      string. */
  lemma ParseKeyOrder(s: string)
    ensures Keys(Parse(s)) == FirstOccurrences(Keys(ParseAll(Split(s))))
  {
    var ps := ParseAll(Split(s));
    MergeAllKeys([], ps, []);
    assert [] + Keys(ps) == Keys(ps);
  }

  lemma LastLabelsSplit(ps: seq<Choice>)
    requires ps != []
    ensures forall k :: LastLabel(ps, k) == if LastLabel(ps[1..], k).Some? then LastLabel(ps[1..], k)
                                            else if ps[0].key == k then Some(ps[0].caption) else None
  {
    forall k {
      LastLabelSplit(ps, k);
    }
  }

  lemma {:induction false} LastLabelSplit(ps: seq<Choice>, k: Option<string>)
    requires ps != []
    ensures LastLabel(ps, k) == if LastLabel(ps[1..], k).Some? then LastLabel(ps[1..], k)
                                else if ps[0].key == k then Some(ps[0].caption) else None
    decreases |ps|
  {
    if |ps| > 1 && ps[|ps| - 1].key != k {
      assert ps[..|ps| - 1][1..] == ps[1..][..|ps[1..]| - 1];
      LastLabelSplit(ps[..|ps| - 1], k);
    }
  }

  /** The parsed hash has each key once, and each key's label is the label of the last
      well-formed or malformed pair carrying that key. */
  lemma ParseLaterLabelWins(s: string, k: Option<string>)
    ensures DistinctKeys(Parse(s))
    ensures Find(Parse(s), k) == LastLabel(ParseAll(Split(s)), k)
  {
    MergeAllKeepsDistinct([], ParseAll(Split(s)));
  }

  /** Every entry is a key with its label, or the nil => nil entry of a rejected pair. */
  predicate Paired(cs: seq<Choice>)
  {
    forall c :: c in cs ==> (c.key.Some? <==> c.caption.Some?)
  }

  lemma {:induction false} MergeAllPaired(acc: seq<Choice>, ps: seq<Choice>)
    requires Paired(acc) && Paired(ps)
    ensures Paired(MergeAll(acc, ps))
    decreases |ps|
  {
    if ps != [] {
      var m := Merge(acc, ps[0]);
      assert Paired(m) by {
        MergeMembers(acc, ps[0]);
      }
      assert Paired(ps[1..]) by {
        forall c | c in ps[1..] ensures c in ps { }
      }
      MergeAllPaired(m, ps[1..]);
    }
  }

  lemma {:induction false} MergeMembers(cs: seq<Choice>, c: Choice)
    ensures forall d :: d in Merge(cs, c) ==> d == c || d in cs
  {
    if cs != [] && cs[0].key != c.key {
      MergeMembers(cs[1..], c);
    }
  }

  /** A parsed hash holds only key-with-label entries and possibly the entry nil => nil. */
  lemma ParsePaired(s: string)
    ensures Paired(Parse(s))
  {
    MergeAllPaired([], ParseAll(Split(s)));
  }

  // ---------------------------------------------------------------------------------------
  // Rendering a choice list and parsing it back

  /** A choice the data dictionary can declare unambiguously: a digit key and a label that
      is non-empty, holds no `|` and no line feed, and does not end in whitespace. */
  predicate Declarable(c: Choice)
  {
    && c.key.Some? && c.caption.Some?
    && |c.key.value| > 0 && (forall k :: 0 <= k < |c.key.value| ==> IsDigit(c.key.value[k]))
    && |c.caption.value| > 0 && '|' !in c.caption.value && '\n' !in c.caption.value
    && !IsSpace(c.caption.value[|c.caption.value| - 1])
  }

  function PairText(c: Choice): string
    requires Declarable(c)
  {
    c.key.value + "," + c.caption.value
  }

  /** The choice string for a list of choices, pairs joined by ` | `. */
  function Render(cs: seq<Choice>): string
    requires forall k :: 0 <= k < |cs| ==> Declarable(cs[k])
  {
    if cs == [] then ""
    else if |cs| == 1 then PairText(cs[0])
    else PairText(cs[0]) + " | " + Render(cs[1..])
  }

  lemma {:induction false} PairTextShape(c: Choice)
    requires Declarable(c)
    ensures '|' !in PairText(c)
    ensures |PairText(c)| > 0 && IsDigit(PairText(c)[0])
    ensures !IsSpace(PairText(c)[|PairText(c)| - 1])
    ensures ParsePair(PairText(c)) == c
  {
    var key, cap := c.key.value, c.caption.value;
    var p := PairText(c);
    assert p[..|key|] == key && p[|key|] == ',' && p[|key| + 1..] == cap;
    assert p[|p| - 1] == cap[|cap| - 1];
    assert forall k :: 0 <= k < |p| ==> p[k] == (if k < |key| then key[k] else if k == |key| then ',' else cap[k - |key| - 1]);
    assert DigitRun(p) == |key|;
  }

  /** The rendered texts of a list of choices. */
  function Texts(cs: seq<Choice>): (ts: seq<string>)
    requires forall k :: 0 <= k < |cs| ==> Declarable(cs[k])
    ensures |ts| == |cs|
    ensures forall k :: 0 <= k < |cs| ==> ts[k] == PairText(cs[k])
  {
    seq(|cs|, k requires 0 <= k < |cs| => PairText(cs[k]))
  }

  /** A text without `|` whose ends are not whitespace is a single piece. */
  lemma PiecesSingle(p: string, afterPipe: bool)
    requires '|' !in p && p != [] && !IsSpace(p[0])
    ensures Pieces(p, afterPipe) == [p]
  {
    assert TrimLeft(p) == p;
    assert PipeAt(p) == |p|;
  }

  /** Pieces after a `|` depend only on the text once its leading whitespace is gone. */
  lemma PiecesAfterPipe(x: string, y: string)
    requires TrimLeft(x) == TrimLeft(y)
    ensures Pieces(x, true) == Pieces(y, true)
  {
    assert Pieces(x, true) == Cut(TrimLeft(x));
    assert Pieces(y, true) == Cut(TrimLeft(y));
  }

  /** `p | r` with the separator's own spaces splits into `p` and the pieces of `r`. */
  lemma PiecesStep(p: string, r: string, afterPipe: bool)
    requires '|' !in p && p != [] && !IsSpace(p[0]) && !IsSpace(p[|p| - 1])
    requires r != [] && !IsSpace(r[0])
    ensures Pieces(p + " | " + r, afterPipe) == [p] + Pieces(r, true)
  {
    var s := p + " | " + r;
    StartsUntrimmed(p, " | " + r);
    PipeAfter(p, r);
    CutAtPipe(s);
    TrimOneSpace(p, r);
    PiecesAfterPipe(" " + r, r);
  }

  lemma StartsUntrimmed(p: string, q: string)
    requires p != [] && !IsSpace(p[0])
    ensures TrimLeft(p + q) == p + q
  {
    assert (p + q)[0] == p[0];
  }

  /** A text with a `|` is cut at its first one. */
  lemma CutAtPipe(t: string)
    requires PipeAt(t) < |t|
    ensures Cut(t) == [TrimRight(t[..PipeAt(t)])] + Pieces(t[PipeAt(t) + 1..], true)
  {
  }

  lemma PipeAfter(p: string, r: string)
    requires '|' !in p
    ensures PipeAt(p + " | " + r) == |p| + 1
    ensures (p + " | " + r)[..|p| + 1] == p + " " && (p + " | " + r)[|p| + 2..] == " " + r
  {
    var s := p + " | " + r;
    assert s[|p| + 1] == '|';
    forall j | 0 <= j < |p| + 1 ensures s[j] != '|' {
      if j < |p| { assert s[j] == p[j]; }
    }
    assert s[..|p| + 1] == p + " ";
    assert s[|p| + 2..] == " " + r;
  }

  lemma TrimOneSpace(p: string, r: string)
    requires p != [] && !IsSpace(p[|p| - 1]) && r != [] && !IsSpace(r[0])
    ensures TrimRight(p + " ") == p && TrimLeft(" " + r) == r
  {
    assert (p + " ")[..|p|] == p;
    assert (" " + r)[1..] == r;
  }

  /** A rendered non-empty list starts with the first choice's key digit. */
  lemma RenderStart(cs: seq<Choice>)
    requires cs != [] && forall k :: 0 <= k < |cs| ==> Declarable(cs[k])
    ensures |Render(cs)| > 0 && !IsSpace(Render(cs)[0])
  {
    PairTextShape(cs[0]);
    if |cs| > 1 {
      assert Render(cs) == PairText(cs[0]) + " | " + Render(cs[1..]);
      assert Render(cs)[0] == PairText(cs[0])[0];
    }
  }

  lemma {:induction false} PiecesOfRender(cs: seq<Choice>, afterPipe: bool)
    requires cs != [] && forall k :: 0 <= k < |cs| ==> Declarable(cs[k])
    ensures Pieces(Render(cs), afterPipe) == Texts(cs)
    decreases |cs|
  {
    if |cs| == 1 {
      PairTextShape(cs[0]);
      PiecesSingle(PairText(cs[0]), afterPipe);
    } else {
      PiecesOfRender(cs[1..], true);
      PiecesOfRenderStep(cs, afterPipe);
    }
  }

  lemma PiecesOfRenderStep(cs: seq<Choice>, afterPipe: bool)
    requires |cs| > 1 && forall k :: 0 <= k < |cs| ==> Declarable(cs[k])
    requires Pieces(Render(cs[1..]), true) == Texts(cs[1..])
    ensures Pieces(Render(cs), afterPipe) == Texts(cs)
  {
    PairTextShape(cs[0]);
    RenderStart(cs[1..]);
    RenderCons(cs);
    PiecesStep(PairText(cs[0]), Render(cs[1..]), afterPipe);
    TextsCons(cs);
  }

  lemma RenderCons(cs: seq<Choice>)
    requires |cs| > 1 && forall k :: 0 <= k < |cs| ==> Declarable(cs[k])
    ensures Render(cs) == PairText(cs[0]) + " | " + Render(cs[1..])
  {
  }

  lemma TextsCons(cs: seq<Choice>)
    requires cs != [] && forall k :: 0 <= k < |cs| ==> Declarable(cs[k])
    ensures Texts(cs) == [PairText(cs[0])] + Texts(cs[1..])
  {
    assert Texts(cs)[1..] == Texts(cs[1..]);
  }

  lemma SplitRender(cs: seq<Choice>)
    requires cs != [] && forall k :: 0 <= k < |cs| ==> Declarable(cs[k])
    ensures Split(Render(cs)) == Texts(cs)
  {
    var texts := Texts(cs);
    PiecesOfRender(cs, false);
    PairTextShape(cs[|cs| - 1]);
    assert texts[|texts| - 1] != "";
    assert DropTrailingEmpty(texts) == texts;
  }

  lemma ParseAllTexts(cs: seq<Choice>)
    requires forall k :: 0 <= k < |cs| ==> Declarable(cs[k])
    ensures ParseAll(Texts(cs)) == cs
  {
    var parsed := ParseAll(Texts(cs));
    forall k | 0 <= k < |cs| ensures parsed[k] == cs[k] {
      PairTextShape(cs[k]);
    }
  }

  /** Parsing a rendered list of declarable choices with distinct keys gives the list back:
      the parser keeps declared order and loses nothing. */
  lemma ParseRender(cs: seq<Choice>)
    requires forall k :: 0 <= k < |cs| ==> Declarable(cs[k])
    requires DistinctKeys(cs)
    ensures Parse(Render(cs)) == cs
  {
    if cs != [] {
      SplitRender(cs);
      ParseAllTexts(cs);
      MergeAllDistinct([], cs);
      assert [] + cs == cs;
    }
  }

  lemma {:induction false} MergeAllDistinct(acc: seq<Choice>, ps: seq<Choice>)
    requires DistinctKeys(acc + ps)
    ensures MergeAll(acc, ps) == acc + ps
    decreases |ps|
  {
    if ps != [] {
      var all := acc + ps;
      assert ps[0].key !in Keys(acc) by {
        forall i | 0 <= i < |acc| ensures acc[i].key != ps[0].key {
          assert all[i] == acc[i] && all[|acc|] == ps[0];
        }
      }
      assert acc + [ps[0]] + ps[1..] == all;
      MergeAllDistinct(acc + [ps[0]], ps[1..]);
    }
  }
}
