/** What the chain `Formula(t).parse().define(defs).replace().result()` yields,
    and what that means for a few kinds of templates. */
module Usage {
  import opened Messages
  import opened Scanner
  import opened Parsing
  import opened Substitution
  import opened Engine

  /** What `result()` shows: the text built by `replace()`, or a status message. */
  datatype Shown = Output(text: string) | Failure(status: Status)

  /** The string `result()` returns for it. */
  function Display(s: Shown): string {
    match s
    case Output(text) => text
    case Failure(st) => st.Text()
  }

  /** `result()` after parse, a bulk define and replace on a new Formula: an empty
      working copy is taken for "not parsed"; otherwise a parse error shows;
      otherwise each placeholder's value is put in at its position. */
  function Rendered(t: string, defs: map<string, string>): Shown {
    var P := Parsed(t);
    ScanOrdered(t, 0);
    if P.working == [] then Failure(Status.NotParsed)
    else if P.failure.Some? then Failure(P.failure.value)
    else Output(Interleave(P.working, P.positions, Values(defs, P.names), 0))
  }

  /** `Formula(t).parse().define(defs)`: a new Formula holding one parse of `t`
      and the definitions `defs`, ready for `replace()`. */
  method Prepare(t: string, defs: map<string, string>) returns (f: Formula)
    ensures fresh(f)
    ensures var P := Parsed(t);
      f.templateParsed == P.working && f.names == P.names && f.indices == P.positions
      && f.status == (if P.failure.Some? then P.failure.value else Ok)
      && f.result == [] && f.definitions == defs
    ensures |f.names| == |f.indices| && InBounds(f.templateParsed, f.indices, 0)
    ensures f.template == t && f.Valid()
  {
    ghost var P := Parsed(t);
    ScanOrdered(t, 0);
    OrderedInBounds(P.working, P.positions, 0);
    f := new Formula(t);
    f.Parse();
    f.DefineAll(defs);
  }

  /** Runs the chain on a new Formula. */
  method Render(t: string, defs: map<string, string>) returns (out: string)
    ensures out == Display(Rendered(t, defs))
  {
    var f := Prepare(t, defs);
    f.Replace();
    out := f.ResultText();
    Outcome(t, defs, f, out);
  }

  /** What `result()` shows once `replace()` has run on the prepared Formula `f`:
      its fields as the parse, the define and the replace left them, and `out`
      as `result()` returned it. */
  lemma Outcome(t: string, defs: map<string, string>, f: Formula, out: string)
    requires var P := Parsed(t);
      f.templateParsed == P.working && f.names == P.names && f.indices == P.positions
    requires |f.names| == |f.indices| && InBounds(f.templateParsed, f.indices, 0)
    requires f.templateParsed == [] ==> f.status == Status.NotParsed
    requires f.templateParsed != [] && |f.names| == |f.indices| ==>
      var P := Parsed(t);
      var R := Splice(f.templateParsed, f.names, f.indices, defs, 0, 0);
      f.result == [] + R.text
      && f.status == (if R.negative.Some? then NegativeIndex(R.negative.value)
                      else if P.failure.Some? then P.failure.value else Ok)
    requires f.status.Ok? ==> out == f.result
    requires !f.status.Ok? ==> out == f.status.Text()
    ensures out == Display(Rendered(t, defs))
  {
    RenderedFromFields(t, defs, f.templateParsed, f.names, f.indices, f.status, f.result);
    ShownText(f.status, f.result, out);
  }

  /** The same, on the values of the fields. */
  lemma RenderedFromFields(t: string, defs: map<string, string>, parsed: string, names: seq<string>,
                           indices: seq<int>, status: Status, result: string)
    requires var P := Parsed(t);
      parsed == P.working && names == P.names && indices == P.positions
    requires |names| == |indices| && InBounds(parsed, indices, 0)
    requires parsed == [] ==> status == Status.NotParsed
    requires parsed != [] && |names| == |indices| ==>
      var P := Parsed(t);
      var R := Splice(parsed, names, indices, defs, 0, 0);
      result == [] + R.text
      && status == (if R.negative.Some? then NegativeIndex(R.negative.value)
                    else if P.failure.Some? then P.failure.value else Ok)
    ensures Rendered(t, defs) == if status.Ok? then Output(result) else Failure(status)
  {
    if parsed != [] {
      ScanOrdered(t, 0);
      var R := Splice(parsed, names, indices, defs, 0, 0);
      SpliceText(parsed, names, indices, defs);
      assert [] + R.text == R.text;
    }
  }

  /** `result()`'s text for what it shows. */
  lemma ShownText(status: Status, result: string, out: string)
    requires status.Ok? ==> out == result
    requires !status.Ok? ==> out == status.Text()
    ensures out == Display(if status.Ok? then Output(result) else Failure(status))
  {
  }

  /** A template without any `${` comes back unchanged, unless it is empty. */
  lemma NoPlaceholderRendered(t: string, defs: map<string, string>)
    requires t != [] && forall k :: !OpensAt(t, k)
    ensures Rendered(t, defs) == Output(t)
  {
    NoPlaceholderUnchanged(t);
  }

  /** Replacing each name by its own placeholder text gives the template back,
      with the `}` that the end of the text closed added: replace undoes parse. */
  lemma SelfDefinedRendered(t: string, defs: map<string, string>)
    requires Parsed(t).failure.None? && Parsed(t).working != []
    requires forall n :: n in Parsed(t).names ==> n in defs && defs[n] == Raw(n)
    ensures Rendered(t, defs) == Output(t + (if UnclosedFrom(t, 0) then "}" else ""))
  {
    var P := Parsed(t);
    ScanRestores(t, 0);
    assert Values(defs, P.names) == Raws(P.names) by {
      forall k | 0 <= k < |P.names| ensures Values(defs, P.names)[k] == Raws(P.names)[k] {
        assert P.names[k] in P.names;
      }
    }
    assert t[0..] == t;
  }
}
