/** The placeholder scanner behind `next_$`: where the next `${` is, and the name after it. */
module Scanner {
  import opened Messages

  /** The characters a placeholder name may use: [a-z], [A-Z], [0-9] and '_'. */
  predicate IsNameChar(c: char) {
    ('a' <= c <= 'z') || ('A' <= c <= 'Z') || ('0' <= c <= '9') || c == '_'
  }

  /** A `$` at k immediately followed by a `{`. */
  predicate OpensAt(s: string, k: int) {
    0 <= k && k + 1 < |s| && s[k] == '$' && s[k + 1] == '{'
  }

  /** The first `${` that starts at or after `from`. */
  function FindOpening(s: string, from: nat): (r: Option<nat>)
    decreases |s| - from
    ensures r.Some? ==> from <= r.value && OpensAt(s, r.value)
    ensures r.Some? ==> forall k :: from <= k < r.value ==> !OpensAt(s, k)
    ensures r.None? ==> forall k :: from <= k ==> !OpensAt(s, k)
  {
    if from + 1 >= |s| then None
    else if OpensAt(s, from) then Some(from)
    else FindOpening(s, from + 1)
  }

  /** What reading a name from some index up to `}` or the end of the text finds. */
  datatype NameScan = Name(name: string) | BadChar(at: nat)

  /** Reads name characters from `from` until a `}` or the end of the text;
      any other character stops the read with its index. */
  function ReadName(s: string, from: nat): NameScan
    requires from <= |s|
    decreases |s| - from
  {
    if from == |s| || s[from] == '}' then Name([])
    else if IsNameChar(s[from]) then
      match ReadName(s, from + 1)
      case Name(n) => Name([s[from]] + n)
      case BadChar(j) => BadChar(j)
    else BadChar(from)
  }

  /** A name read is the run of name characters at `from`, ended by `}` or the end
      of the text; a failed read points at the first character that is neither. */
  lemma {:induction false} ReadNameFacts(s: string, from: nat)
    requires from <= |s|
    decreases |s| - from
    ensures var r := ReadName(s, from);
      (r.Name? ==> from + |r.name| <= |s| && s[from..from + |r.name|] == r.name)
      && (r.Name? ==> forall k :: from <= k < from + |r.name| ==> IsNameChar(s[k]))
      && (r.Name? ==> from + |r.name| == |s| || s[from + |r.name|] == '}')
      && (r.BadChar? ==> from <= r.at < |s| && !IsNameChar(s[r.at]) && s[r.at] != '}')
      && (r.BadChar? ==> forall k :: from <= k < r.at ==> IsNameChar(s[k]))
  {
    if from < |s| && s[from] != '}' && IsNameChar(s[from]) {
      ReadNameFacts(s, from + 1);
      var r := ReadName(s, from + 1);
      if r.Name? {
        assert s[from..from + 1 + |r.name|] == [s[from]] + s[from + 1..from + 1 + |r.name|];
      }
    }
  }

  /** One call of the scanner, as seen from its result. */
  datatype Located = NoPlaceholder | InvalidAt(pos: nat) | Found(name: string, at: nat)

  /** The next placeholder whose `$` is at or after `cursor`. */
  function Locate(s: string, cursor: nat): (r: Located)
    ensures r.NoPlaceholder? ==> forall k :: cursor <= k ==> !OpensAt(s, k)
    ensures r.Found? ==> cursor <= r.at && OpensAt(s, r.at)
    ensures r.Found? ==> forall k :: cursor <= k < r.at ==> !OpensAt(s, k)
  {
    match FindOpening(s, cursor)
    case None => NoPlaceholder
    case Some(p) =>
      match ReadName(s, p + 2)
      case BadChar(j) => InvalidAt(j)
      case Name(n) => Found(n, p)
  }

  /** A found placeholder is `${`, then its name, then `}` or the end of the text;
      an invalid one points at the first character after the first `${` from the
      cursor that is neither a name character nor `}`. */
  lemma LocateFacts(s: string, cursor: nat)
    ensures var r := Locate(s, cursor);
      (r.Found? ==> r.at + 2 + |r.name| <= |s| && s[r.at + 2..r.at + 2 + |r.name|] == r.name)
      && (r.Found? ==> forall k :: r.at + 2 <= k < r.at + 2 + |r.name| ==> IsNameChar(s[k]))
      && (r.Found? ==> r.at + 2 + |r.name| == |s| || s[r.at + 2 + |r.name|] == '}')
      && (r.InvalidAt? ==> cursor + 2 <= r.pos < |s| && !IsNameChar(s[r.pos]) && s[r.pos] != '}')
      && (r.InvalidAt? ==>
            exists p :: cursor <= p && OpensAt(s, p) && (forall k :: cursor <= k < p ==> !OpensAt(s, k))
              && p + 2 <= r.pos && forall k :: p + 2 <= k < r.pos ==> IsNameChar(s[k]))
  {
    var f := FindOpening(s, cursor);
    if f.Some? {
      ReadNameFacts(s, f.value + 2);
    }
  }

  /** The converse of `LocateFacts`: a `${` at p with none before it from `cursor`,
      followed by a run of name characters up to `}` or the end of the text, is
      the placeholder found, with that run as its name. */
  lemma LocateExact(s: string, cursor: nat, p: nat, e: nat)
    requires cursor <= p && OpensAt(s, p) && forall k :: cursor <= k < p ==> !OpensAt(s, k)
    requires p + 2 <= e <= |s| && (e == |s| || s[e] == '}')
    requires forall k :: p + 2 <= k < e ==> IsNameChar(s[k])
    ensures Locate(s, cursor) == Found(s[p + 2..e], p)
  {
    FindExact(s, cursor, p);
    ReadExact(s, p + 2, e);
  }

  lemma {:induction false} FindExact(s: string, from: nat, p: nat)
    requires from <= p && OpensAt(s, p) && forall k :: from <= k < p ==> !OpensAt(s, k)
    ensures FindOpening(s, from) == Some(p)
    decreases p - from
  {
    if from < p {
      FindExact(s, from + 1, p);
    }
  }

  lemma {:induction false} ReadExact(s: string, from: nat, e: nat)
    requires from <= e <= |s| && (e == |s| || s[e] == '}')
    requires forall k :: from <= k < e ==> IsNameChar(s[k])
    ensures ReadName(s, from) == Name(s[from..e])
    decreases e - from
  {
    if from < e {
      ReadExact(s, from + 1, e);
      assert s[from..e] == [s[from]] + s[from + 1..e];
    }
  }

  /** Steps of a left-to-right search, as a loop takes them. */
  lemma FindStep(s: string, k: nat)
    requires k + 1 < |s| && !OpensAt(s, k)
    ensures FindOpening(s, k) == FindOpening(s, k + 1)
  {
  }

  lemma FindHere(s: string, k: nat)
    requires OpensAt(s, k)
    ensures FindOpening(s, k) == Some(k)
  {
  }

  lemma FindNone(s: string, k: nat)
    requires k + 1 >= |s|
    ensures FindOpening(s, k) == None
  {
  }

  /** The three ways a read of a name ends, as a loop meets them. */
  lemma ReadEnd(s: string, j: nat)
    requires j <= |s| && (j == |s| || s[j] == '}')
    ensures ReadName(s, j) == Name([])
  {
  }

  lemma ReadBad(s: string, j: nat)
    requires j < |s| && s[j] != '}' && !IsNameChar(s[j])
    ensures ReadName(s, j) == BadChar(j)
  {
  }

  lemma ReadGood(s: string, j: nat)
    requires j < |s| && s[j] != '}' && IsNameChar(s[j])
    ensures ReadName(s, j) == match ReadName(s, j + 1)
                              case Name(n) => Name([s[j]] + n)
                              case BadChar(b) => BadChar(b)
  {
  }

  /** The scanner's result from what the search and the read found. */
  lemma LocateNone(s: string, cursor: nat)
    requires FindOpening(s, cursor) == None
    ensures Locate(s, cursor) == NoPlaceholder
  {
  }

  lemma LocateBad(s: string, cursor: nat, p: nat, j: nat)
    requires FindOpening(s, cursor) == Some(p) && p + 2 <= |s| && ReadName(s, p + 2) == BadChar(j)
    ensures Locate(s, cursor) == InvalidAt(j)
  {
  }

  lemma LocateFound(s: string, cursor: nat, p: nat, n: string)
    requires FindOpening(s, cursor) == Some(p) && p + 2 <= |s| && ReadName(s, p + 2) == Name(n)
    ensures Locate(s, cursor) == Found(n, p)
  {
  }

  /** std::string::erase(pos, count): removes `count` characters at `pos`, or all up to the end. */
  function Erase(s: string, pos: nat, count: nat): (r: string)
    requires pos <= |s|
    ensures |r| == |s| - (if pos + count <= |s| then count else |s| - pos)
    ensures r[..pos] == s[..pos]
  {
    s[..pos] + s[if pos + count <= |s| then pos + count else |s|..]
  }
}
