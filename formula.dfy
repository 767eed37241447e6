/** The class `Formula`: a `${name}` template, parsed in place, then filled in. */
module Engine {
  import opened Messages
  import opened Scanner
  import opened Parsing
  import opened Substitution

  /** `next_$`'s answer: a position (the `$` of the placeholder found) or an
      error code, and the number of characters to erase. */
  datatype SearchResult = SearchResult(errorPos: int, len: int)

  const ENone: int := -1    // no `${` found
  const EInvalid: int := -2 // invalid variable name
  const EIdxOvf: int := -3  // name too long for an int index

  class Formula {
    const template: string        // with ${vars}
    var templateParsed: string    // the working copy, placeholders erased
    var result: string            // placeholders replaced with values
    var names: seq<string>        // vars_.names
    var indices: seq<int>         // vars_.indices
    var definitions: map<string, string>
    var status: Status

    /** The object invariant: `Consistent` on the fields. */
    ghost predicate Valid()
      reads this
    {
      Consistent(template, templateParsed, names, indices)
    }

    constructor (t: string)
      ensures template == t && templateParsed == [] && result == []
      ensures names == [] && indices == [] && definitions == map[] && status == Ok
      ensures Valid()
    {
      template := t;
      templateParsed := [];
      result := [];
      names, indices := [], [];
      definitions := map[];
      status := Ok;
    }

    /** `status()`. */
    function StatusText(): (m: string)
      reads this
      ensures m == "OK" <==> status.Ok?
    {
      TextIsOk(status);
      status.Text()
    }

    /** `result()`: the status message stands in for the result whenever it is not "OK". */
    function ResultText(): (r: string)
      reads this
      ensures status.Ok? ==> r == result
      ensures !status.Ok? ==> r == status.Text() && r != "OK"
    {
      TextIsOk(status);
      if status.Text() != "OK" then status.Text() else result
    }

    /** `next_$(start_at)`: the first `${` whose `$` is at or after `startAt`, read
        up to its `}` or the end of the text. A found name is recorded with the
        position of its `$` before its length is checked. */
    method NextPlaceholder(startAt: nat) returns (r: SearchResult)
      modifies this`status, this`names, this`indices
      ensures var loc := Locate(templateParsed, startAt);
        match loc
        case NoPlaceholder =>
          r == SearchResult(ENone, -1)
          && names == old(names) && indices == old(indices) && status == old(status)
        case InvalidAt(j) =>
          r == SearchResult(EInvalid, -1)
          && names == old(names) && indices == old(indices) && status == InvalidName(j)
        case Found(n, p) =>
          names == old(names) + [n] && indices == old(indices) + [p]
          && if |n| + 3 > IntMax then r == SearchResult(EIdxOvf, -1) && status == IndexOverflow
             else r == SearchResult(p, |n| + 3) && status == old(status)
    {
      ghost var s := templateParsed;
      var i := startAt + 1;
      while i < |templateParsed|
        invariant startAt + 1 <= i
        invariant names == old(names) && indices == old(indices) && status == old(status)
        invariant FindOpening(s, startAt) == FindOpening(s, i - 1)
        decreases |templateParsed| - i
      {
        if templateParsed[i - 1] == '$' && templateParsed[i] == '{' {
          FindHere(s, i - 1);
          var varName := "";
          var j := i + 1;
          while j < |templateParsed| && templateParsed[j] != '}'
            invariant i + 1 <= j <= |templateParsed|
            invariant names == old(names) && indices == old(indices) && status == old(status)
            invariant ReadName(s, i + 1) == Prefixed(varName, ReadName(s, j))
          {
            if IsNameChar(templateParsed[j]) {
              ReadGood(s, j);
              PrefixedAppend(varName, templateParsed[j], ReadName(s, j + 1));
              varName := varName + [templateParsed[j]];
            } else {
              ReadBad(s, j);
              LocateBad(s, startAt, i - 1, j);
              status := InvalidName(j);
              return SearchResult(EInvalid, -1);
            }
            j := j + 1;
          }
          ReadEnd(s, j);
          assert varName + [] == varName;
          LocateFound(s, startAt, i - 1, varName);
          names := names + [varName];
          indices := indices + [i - 1];
          var sz := |varName| + 3;
          if sz > IntMax {
            status := IndexOverflow;
            return SearchResult(EIdxOvf, -1);
          }
          return SearchResult(i - 1, sz);
        }
        FindStep(s, i - 1);
        i := i + 1;
      }
      FindNone(s, i - 1);
      LocateNone(s, startAt);
      return SearchResult(ENone, -1);
    }

    /** `parse()`: copies the template and erases each placeholder the scanner finds,
        resuming at the erasure point; an error stops it with what was recorded kept.
        Recorded names and positions are appended; nothing is cleared. */
    method Parse()
      requires Valid()
      modifies this`templateParsed, this`status, this`names, this`indices
      ensures Valid()
      ensures var P := Parsed(template);
        templateParsed == P.working
        && names == old(names) + P.names && indices == old(indices) + P.positions
        && status == (if P.failure.Some? then P.failure.value else old(status))
    {
      templateParsed := template;
      ghost var P := Parsed(template);
      ghost var doneNames: seq<string> := [];
      ghost var donePositions: seq<int> := [];
      var i: nat := 0;
      assert [] + P.names == P.names && [] + P.positions == P.positions;
      while i < |templateParsed|
        invariant Resumes(P, templateParsed, i, doneNames, donePositions)
        invariant names == old(names) + doneNames && indices == old(indices) + donePositions
        invariant status == old(status)
        decreases |templateParsed| - i
      {
        ghost var loc := Locate(templateParsed, i);
        var next := NextPlaceholder(i);
        if next.errorPos == ENone || next.errorPos == EInvalid || next.errorPos == EIdxOvf {
          ResumeStops(P, templateParsed, i, doneNames, donePositions);
          if loc.Found? {
            Assoc(old(names), doneNames, [loc.name]);
            Assoc(old(indices), donePositions, [loc.at]);
          }
          ParseConsistent(template, old(templateParsed), old(names), old(indices));
          return;
        }
        ResumeFound(P, templateParsed, i, doneNames, donePositions);
        Assoc(old(names), doneNames, [loc.name]);
        Assoc(old(indices), donePositions, [loc.at]);
        doneNames, donePositions := doneNames + [loc.name], donePositions + [loc.at];
        i := next.errorPos;
        templateParsed := Erase(templateParsed, next.errorPos, next.len);
      }
      ResumeEnd(P, templateParsed, i, doneNames, donePositions);
      ParseConsistent(template, old(templateParsed), old(names), old(indices));
    }

    /** `define(var, value)`: sets one definition, overwriting an earlier one. */
    method Define(name: string, value: string)
      modifies this`definitions
      ensures definitions == old(definitions)[name := value]
      ensures old(Valid()) ==> Valid()
    {
      definitions := definitions[name := value];
    }

    /** `define(vars)`: replaces all definitions. */
    method DefineAll(vars: map<string, string>)
      modifies this`definitions
      ensures definitions == vars
      ensures old(Valid()) ==> Valid()
    {
      definitions := vars;
    }

    /** `not_parsed()`: "parsed" means the working copy is not empty. */
    method NotParsed() returns (b: bool)
      modifies this`status
      ensures b <==> templateParsed == []
      ensures status == if b then Status.NotParsed else old(status)
    {
      if templateParsed == [] {
        status := Status.NotParsed;
        return true;
      }
      return false;
    }

    /** `no_substitutes_defined()`: the same emptiness test as `not_parsed()`; the
        definitions are not consulted. */
    method NoSubstitutesDefined() returns (b: bool)
      modifies this`status
      ensures b <==> templateParsed == []
      ensures status == if b then NoDefinitions else old(status)
    {
      if templateParsed == [] {
        status := NoDefinitions;
        return true;
      }
      return false;
    }

    /** `replace()`: after its guards, appends to `result` (never cleared) the
        literal slices of the working copy interleaved with the looked-up values;
        a lookup of a missing name inserts it with "". */
    method Replace()
      requires InBounds(templateParsed, indices, 0)
      modifies this`status, this`result, this`definitions
      ensures old(Valid()) ==> Valid()
      ensures old(templateParsed) == [] ==>
        status == Status.NotParsed && result == old(result) && definitions == old(definitions)
      ensures templateParsed != [] && |names| != |indices| ==>
        status == InternalError && result == old(result) && definitions == old(definitions)
      ensures templateParsed != [] && |names| == |indices| ==>
        var R := Splice(templateParsed, names, indices, old(definitions), 0, 0);
        result == old(result) + R.text && definitions == R.definitions
        && status == (if R.negative.Some? then NegativeIndex(R.negative.value) else old(status))
    {
      var notParsed := NotParsed();
      if notParsed {
        return;
      }
      var noDefinitions := NoSubstitutesDefined();
      if noDefinitions {
        return;
      }
      if |names| != |indices| {
        status := InternalError;
        return;
      }
      ghost var R := Splice(templateParsed, names, indices, definitions, 0, 0);
      ghost var appended := "";
      var lastPos: nat := 0;
      var i := 0;
      while i < |names|
        invariant Appending(R, templateParsed, names, indices, definitions, i, lastPos, appended)
        invariant result == old(result) + appended
        invariant status == old(status)
      {
        if indices[i] < 0 {
          AppendNegative(R, templateParsed, names, indices, definitions, i, lastPos, appended);
          status := NegativeIndex(indices[i]);
          return;
        }
        AppendStep(R, templateParsed, names, indices, definitions, i, lastPos, appended);
        var piece := Substr(templateParsed, lastPos, indices[i] - lastPos);
        result := result + piece;
        lastPos := indices[i];
        var value := Value(definitions, names[i]);
        definitions := Touch(definitions, names[i]);
        result := result + value;
        Assoc(old(result), appended, piece + value);
        Assoc(old(result) + appended, piece, value);
        appended := appended + (piece + value);
        i := i + 1;
      }
      AppendEnd(R, templateParsed, names, indices, definitions, i, lastPos, appended);
      result := result + templateParsed[lastPos..];
      Assoc(old(result), appended, templateParsed[lastPos..]);
    }
  }

  /** What `replace()` has done by occurrence `i` with cursor `last`: the text
      appended so far, followed by what the loop appends from there on, is the
      whole loop's text `R`, and the rest of the loop ends as `R` does. */
  ghost predicate Appending(R: Rendering, w: string, names: seq<string>, indices: seq<int>,
                            defs: map<string, string>, i: nat, last: nat, appended: string) {
    |names| == |indices| && i <= |names| && last <= |w| && InBounds(w, indices, i)
    && var rest := Splice(w, names, indices, defs, i, last);
    R.text == appended + rest.text && R.definitions == rest.definitions && R.negative == rest.negative
  }

  /** One occurrence put in: its slice and its value are appended, and the lookup
      may add the name. */
  lemma AppendStep(R: Rendering, w: string, names: seq<string>, indices: seq<int>,
                   defs: map<string, string>, i: nat, last: nat, appended: string)
    requires Appending(R, w, names, indices, defs, i, last, appended) && i < |names| && indices[i] >= 0
    ensures var piece := Substr(w, last, indices[i] - last) + Value(defs, names[i]);
      Appending(R, w, names, indices, Touch(defs, names[i]), i + 1, indices[i], appended + piece)
  {
    SpliceStep(w, names, indices, defs, i, last);
    var piece := Substr(w, last, indices[i] - last) + Value(defs, names[i]);
    Assoc(appended, piece, Splice(w, names, indices, Touch(defs, names[i]), i + 1, indices[i]).text);
  }

  /** A negative index stops the loop with what was appended before it. */
  lemma AppendNegative(R: Rendering, w: string, names: seq<string>, indices: seq<int>,
                       defs: map<string, string>, i: nat, last: nat, appended: string)
    requires Appending(R, w, names, indices, defs, i, last, appended) && i < |names| && indices[i] < 0
    ensures R == Rendering(appended, defs, Some(indices[i]))
  {
    SpliceStep(w, names, indices, defs, i, last);
    assert appended + [] == appended;
  }

  /** After the last occurrence only the tail of the working text is left. */
  lemma AppendEnd(R: Rendering, w: string, names: seq<string>, indices: seq<int>,
                  defs: map<string, string>, i: nat, last: nat, appended: string)
    requires Appending(R, w, names, indices, defs, i, last, appended) && i >= |names|
    ensures last <= |w| && R == Rendering(appended + w[last..], defs, None)
  {
    SpliceEnd(w, names, indices, defs, last);
  }

  /** The name read so far, put in front of what the rest of the read finds. */
  function Prefixed(prefix: string, r: NameScan): NameScan {
    match r
    case Name(n) => Name(prefix + n)
    case BadChar(j) => BadChar(j)
  }

  lemma PrefixedAppend(prefix: string, c: char, r: NameScan)
    ensures Prefixed(prefix, Prefixed([c], r)) == Prefixed(prefix + [c], r)
  {
    if r.Name? {
      assert prefix + ([c] + r.name) == (prefix + [c]) + r.name;
    }
  }

  lemma Assoc<T>(a: seq<T>, b: seq<T>, c: seq<T>)
    ensures a + (b + c) == (a + b) + c
  {
  }

  /** What `parse()` has done by cursor `i` on working copy `w`: the names and
      positions recorded so far, followed by what scanning on from `i` records,
      make up the whole parse `P`. */
  ghost predicate Resumes(P: ParseState, w: string, i: nat, doneNames: seq<string>, donePositions: seq<int>) {
    i <= |w|
    && var rest := Scan(w, i);
    P.working == rest.working && P.failure == rest.failure
    && P.names == doneNames + rest.names && P.positions == donePositions + rest.positions
  }

  /** A placeholder found and erased: the loop resumes at its position. */
  lemma ResumeFound(P: ParseState, w: string, i: nat, doneNames: seq<string>, donePositions: seq<int>)
    requires Resumes(P, w, i, doneNames, donePositions) && i < |w|
    requires Locate(w, i).Found? && |Locate(w, i).name| + 3 <= IntMax
    ensures var loc := Locate(w, i);
      loc.at <= |Erase(w, loc.at, |loc.name| + 3)|
      && Resumes(P, Erase(w, loc.at, |loc.name| + 3), loc.at,
                 doneNames + [loc.name], donePositions + [loc.at])
  {
    var loc := Locate(w, i);
    ScanContinues(w, i);
    var rest := Scan(Erase(w, loc.at, |loc.name| + 3), loc.at);
    Assoc(doneNames, [loc.name], rest.names);
    Assoc(donePositions, [loc.at], rest.positions);
  }

  /** The loop stops: nothing found, an invalid name, or a name too long. */
  lemma ResumeStops(P: ParseState, w: string, i: nat, doneNames: seq<string>, donePositions: seq<int>)
    requires Resumes(P, w, i, doneNames, donePositions) && i < |w|
    requires !Locate(w, i).Found? || |Locate(w, i).name| + 3 > IntMax
    ensures P.working == w
    ensures var loc := Locate(w, i);
      match loc
      case NoPlaceholder =>
        P.names == doneNames && P.positions == donePositions && P.failure == None
      case InvalidAt(j) =>
        P.names == doneNames && P.positions == donePositions && P.failure == Some(InvalidName(j))
      case Found(n, p) =>
        P.names == doneNames + [n] && P.positions == donePositions + [p]
        && P.failure == Some(IndexOverflow)
  {
    ScanStops(w, i);
    assert doneNames + [] == doneNames && donePositions + [] == donePositions;
  }

  /** The loop ran to the end of the working copy. */
  lemma ResumeEnd(P: ParseState, w: string, i: nat, doneNames: seq<string>, donePositions: seq<int>)
    requires Resumes(P, w, i, doneNames, donePositions) && i >= |w|
    ensures P == ParseState(w, doneNames, donePositions, None)
  {
    assert doneNames + [] == doneNames && donePositions + [] == donePositions;
  }

  /** The object invariant of a Formula: the two lists of `vars_` are the same
      length, the working copy is either untouched or what parsing the template
      leaves, and every recorded index is a position inside that parsed text. */
  ghost predicate Consistent(template: string, parsed: string, names: seq<string>, indices: seq<int>) {
    |names| == |indices|
    && (parsed == [] || parsed == Parsed(template).working)
    && (indices != [] ==> parsed == Parsed(template).working)
    && forall k :: 0 <= k < |indices| ==> 0 <= indices[k] <= |Parsed(template).working|
  }

  /** Parsing again appends a new batch of occurrences, all inside the same parsed text. */
  lemma ParseConsistent(t: string, parsed: string, names: seq<string>, indices: seq<int>)
    requires Consistent(t, parsed, names, indices)
    ensures var P := Parsed(t);
      Consistent(t, P.working, names + P.names, indices + P.positions)
  {
    var P := Parsed(t);
    ScanOrdered(t, 0);
    BoundsAppend(indices, P.positions, |P.working|);
  }

  /** In a consistent Formula `replace()` never reports a BUG: the lists have the
      same length, every index lies inside the working copy, and none is negative. */
  lemma ConsistentNoBug(template: string, parsed: string, names: seq<string>, indices: seq<int>,
                        defs: map<string, string>)
    requires Consistent(template, parsed, names, indices)
    ensures |names| == |indices| && InBounds(parsed, indices, 0)
    ensures Splice(parsed, names, indices, defs, 0, 0).negative.None?
  {
    SpliceNeverNegative(parsed, names, indices, defs, 0, 0);
  }

  /** Indices recorded by an earlier parse and those of a new one all lie in [0, hi]. */
  lemma BoundsAppend(earlier: seq<int>, later: seq<int>, hi: int)
    requires forall k :: 0 <= k < |earlier| ==> 0 <= earlier[k] <= hi
    requires forall k :: 0 <= k < |later| ==> 0 <= later[k] <= hi
    ensures forall k :: 0 <= k < |earlier + later| ==> 0 <= (earlier + later)[k] <= hi
  {
    forall k | 0 <= k < |earlier + later| ensures 0 <= (earlier + later)[k] <= hi {
      if k >= |earlier| { assert (earlier + later)[k] == later[k - |earlier|]; }
    }
  }
}
