/** What the loop of `Formula::replace` appends: literal slices of the working text
    interleaved with the values looked up for the recorded names. */
module Substitution {
  import opened Messages
  import opened Parsing

  /** std::string::substr(pos, count). A negative `count` is an int converted to
      size_t, a huge count, so it takes the rest of the text like an over-long one. */
  function Substr(s: string, pos: nat, count: int): string
    requires pos <= |s|
  {
    if count < 0 || pos + count > |s| then s[pos..] else s[pos..pos + count]
  }

  /** The value `definitions_[name]` yields: the stored one, or the empty string. */
  function Value(defs: map<string, string>, name: string): string {
    if name in defs then defs[name] else ""
  }

  /** The map after `definitions_[name]`: a missing name is inserted with "". */
  function Touch(defs: map<string, string>, name: string): (r: map<string, string>)
    ensures name in r && r[name] == Value(defs, name)
    ensures forall n :: n in defs ==> n in r && r[n] == defs[n]
    ensures forall n :: n in r ==> n in defs || n == name
  {
    if name in defs then defs else defs[name := ""]
  }

  /** What the loop leaves: the text it appended, the definitions after its lookups,
      and the negative index that stopped it, if any. */
  datatype Rendering = Rendering(text: string, definitions: map<string, string>, negative: Option<int>)

  /** All recorded indices from `i` on are at most the working text's length, so
      every slice starts inside it. */
  predicate InBounds(w: string, indices: seq<int>, i: nat) {
    forall k :: i <= k < |indices| ==> indices[k] <= |w|
  }

  /** Positions in order inside the text are in bounds. */
  lemma OrderedInBounds(w: string, indices: seq<int>, last: int)
    requires Ordered(indices, last, |w|)
    ensures InBounds(w, indices, 0)
  {
  }

  /** The replace loop from occurrence `i` with cursor `last`. */
  function Splice(w: string, names: seq<string>, indices: seq<int>, defs: map<string, string>,
                  i: nat, last: nat): Rendering
    requires |names| == |indices| && i <= |names| && last <= |w|
    requires InBounds(w, indices, i)
    decreases |names| - i
  {
    if i == |names| then Rendering(w[last..], defs, None)
    else if indices[i] < 0 then Rendering([], defs, Some(indices[i]))
    else
      var piece := Substr(w, last, indices[i] - last) + Value(defs, names[i]);
      var rest := Splice(w, names, indices, Touch(defs, names[i]), i + 1, indices[i]);
      Rendering(piece + rest.text, rest.definitions, rest.negative)
  }

  /** One turn of the replace loop, and its end. */
  lemma SpliceStep(w: string, names: seq<string>, indices: seq<int>, defs: map<string, string>,
                   i: nat, last: nat)
    requires |names| == |indices| && i < |names| && last <= |w|
    requires InBounds(w, indices, i)
    ensures indices[i] < 0 ==> Splice(w, names, indices, defs, i, last) == Rendering([], defs, Some(indices[i]))
    ensures indices[i] >= 0 ==>
      var rest := Splice(w, names, indices, Touch(defs, names[i]), i + 1, indices[i]);
      Splice(w, names, indices, defs, i, last)
      == Rendering(Substr(w, last, indices[i] - last) + Value(defs, names[i]) + rest.text,
                   rest.definitions, rest.negative)
  {
  }

  lemma SpliceEnd(w: string, names: seq<string>, indices: seq<int>, defs: map<string, string>, last: nat)
    requires |names| == |indices| && last <= |w|
    ensures Splice(w, names, indices, defs, |names|, last) == Rendering(w[last..], defs, None)
  {
  }

  /** A position before the cursor, as a second parse appends them: the count
      `indices[i] - last` is negative, so the slice takes the whole rest of the
      working text before the value goes in, and the loop goes on from that
      earlier position. */
  lemma SpliceRewinds(w: string, names: seq<string>, indices: seq<int>, defs: map<string, string>,
                      i: nat, last: nat)
    requires |names| == |indices| && i < |names| && last <= |w|
    requires InBounds(w, indices, i)
    requires 0 <= indices[i] < last
    ensures var rest := Splice(w, names, indices, Touch(defs, names[i]), i + 1, indices[i]);
      Splice(w, names, indices, defs, i, last).text == w[last..] + Value(defs, names[i]) + rest.text
  {
  }

  /** The values substituted for `names`, in order. */
  function Values(defs: map<string, string>, names: seq<string>): (r: seq<string>)
    ensures |r| == |names|
  {
    seq(|names|, k requires 0 <= k < |names| => Value(defs, names[k]))
  }

  /** `defs` with every name of `names` it lacks mapped to "". */
  function Filled(defs: map<string, string>, names: seq<string>): map<string, string> {
    map n | n in defs.Keys + (set m | m in names) :: Value(defs, n)
  }

  /** The lookups only ever add names that were recorded, each with the empty
      string; the definitions already there keep their values. */
  lemma {:induction false} SpliceDefinitions(w: string, names: seq<string>, indices: seq<int>,
                                             defs: map<string, string>, i: nat, last: nat)
    requires |names| == |indices| && i <= |names| && last <= |w|
    requires InBounds(w, indices, i)
    ensures var r := Splice(w, names, indices, defs, i, last);
      (forall n :: n in defs ==> n in r.definitions && r.definitions[n] == defs[n])
      && (forall n :: n in r.definitions ==> n in defs || (n in names[i..] && r.definitions[n] == ""))
    decreases |names| - i
  {
    if i < |names| && indices[i] >= 0 {
      var defs' := Touch(defs, names[i]);
      SpliceDefinitions(w, names, indices, defs', i + 1, indices[i]);
      var r := Splice(w, names, indices, defs', i + 1, indices[i]);
      forall n | n in r.definitions
        ensures n in defs || (n in names[i..] && r.definitions[n] == "")
      {
        if n !in defs {
          if n == names[i] {
            assert names[i] == names[i..][0];
          } else {
            assert n in names[i + 1..];
            assert names[i + 1..] == names[i..][1..];
          }
        }
      }
    }
  }

  /** Non-negative indices never trip the "index can not be negative" guard. */
  lemma {:induction false} SpliceNeverNegative(w: string, names: seq<string>, indices: seq<int>,
                                               defs: map<string, string>, i: nat, last: nat)
    requires |names| == |indices| && i <= |names| && last <= |w|
    requires InBounds(w, indices, i)
    requires forall k :: i <= k < |indices| ==> indices[k] >= 0
    ensures Splice(w, names, indices, defs, i, last).negative.None?
    decreases |names| - i
  {
    if i < |names| {
      SpliceNeverNegative(w, names, indices, Touch(defs, names[i]), i + 1, indices[i]);
    }
  }

  /** For positions in order, as one parse records them, the loop appends exactly
      the working text with each name's value put in at its position, and leaves
      the definitions filled with "" for the names they lacked. */
  lemma {:induction false} SpliceInterleaves(w: string, names: seq<string>, indices: seq<int>,
                                             defs: map<string, string>, last: nat)
    requires |names| == |indices| && last <= |w|
    requires Ordered(indices, last, |w|)
    ensures InBounds(w, indices, 0)
    ensures Splice(w, names, indices, defs, 0, last)
      == Rendering(Interleave(w, indices, Values(defs, names), last), Filled(defs, names), None)
    decreases |names|
  {
    if names != [] {
      var p := indices[0];
      var defs' := Touch(defs, names[0]);
      InterleaveCons(w, Value(defs, names[0]), Values(defs, names[1..]), p, indices[1..], last);
      assert [p] + indices[1..] == indices;
      SpliceInterleaves(w, names[1..], indices[1..], defs', p);
      SpliceShift(w, names, indices, defs', p);
      ValuesCons(defs, names);
      ValuesTouch(defs, names[0], names[1..]);
      FilledCons(defs, names);
    }
  }

  /** The text part of `SpliceInterleaves`, for callers that need only that. */
  lemma SpliceText(w: string, names: seq<string>, indices: seq<int>, defs: map<string, string>)
    requires |names| == |indices| && Ordered(indices, 0, |w|)
    ensures InBounds(w, indices, 0)
    ensures var r := Splice(w, names, indices, defs, 0, 0);
      r.text == Interleave(w, indices, Values(defs, names), 0) && r.negative.None?
  {
    SpliceInterleaves(w, names, indices, defs, 0);
  }

  /** Dropping the first occurrence is the same as starting the loop one further on. */
  lemma {:induction false} SpliceShift(w: string, names: seq<string>, indices: seq<int>,
                                       defs: map<string, string>, last: nat)
    requires |names| == |indices| && 0 < |names| && last <= |w|
    requires InBounds(w, indices, 1)
    ensures InBounds(w, indices[1..], 0)
    ensures Splice(w, names, indices, defs, 1, last) == Splice(w, names[1..], indices[1..], defs, 0, last)
  {
    SpliceFrom(w, names, indices, defs, 1, last);
  }

  lemma {:induction false} SpliceFrom(w: string, names: seq<string>, indices: seq<int>,
                                      defs: map<string, string>, i: nat, last: nat)
    requires |names| == |indices| && 1 <= i <= |names| && last <= |w|
    requires InBounds(w, indices, i)
    ensures InBounds(w, indices[1..], i - 1)
    ensures Splice(w, names, indices, defs, i, last) == Splice(w, names[1..], indices[1..], defs, i - 1, last)
    decreases |names| - i
  {
    if i < |names| && indices[i] >= 0 {
      SpliceFrom(w, names, indices, Touch(defs, names[i]), i + 1, indices[i]);
    }
  }

  lemma ValuesCons(defs: map<string, string>, names: seq<string>)
    requires names != []
    ensures Values(defs, names) == [Value(defs, names[0])] + Values(defs, names[1..])
  {
    var a, b := Values(defs, names), [Value(defs, names[0])] + Values(defs, names[1..]);
    forall k | 0 <= k < |a| ensures a[k] == b[k] {
      if k > 0 { assert names[k] == names[1..][k - 1]; }
    }
  }

  /** Inserting a name with "" changes no value the later lookups see. */
  lemma ValuesTouch(defs: map<string, string>, name: string, names: seq<string>)
    ensures Values(Touch(defs, name), names) == Values(defs, names)
  {
    var a, b := Values(Touch(defs, name), names), Values(defs, names);
    forall k | 0 <= k < |a| ensures a[k] == b[k] { }
  }

  lemma FilledCons(defs: map<string, string>, names: seq<string>)
    requires names != []
    ensures Filled(Touch(defs, names[0]), names[1..]) == Filled(defs, names)
  {
    var a, b := Filled(Touch(defs, names[0]), names[1..]), Filled(defs, names);
    forall n | n in names[1..] ensures n in names { }
    forall n | n in names ensures n in names[1..] || n == names[0] {
      var k :| 0 <= k < |names| && names[k] == n;
      if k > 0 { assert names[1..][k - 1] == n; }
    }
    assert a.Keys == b.Keys;
    forall n | n in a ensures a[n] == b[n] { }
  }
}
