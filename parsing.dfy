/** What `Formula::parse` computes: the loop that calls the scanner and erases each
    placeholder in place, resuming at the erasure point. */
module Parsing {
  import opened Messages
  import opened Scanner

  /** The state the parse loop leaves: the working text, the names and positions it
      recorded (the two lists of `vars_`, in order), and the error that stopped it. */
  datatype ParseState = ParseState(working: string, names: seq<string>, positions: seq<int>, failure: Option<Status>)

  /** Positions that never decrease and lie in [lo, hi]. */
  predicate Ordered(ps: seq<int>, lo: int, hi: int) {
    (forall k :: 0 <= k < |ps| ==> lo <= ps[k] <= hi)
    && (forall k, l :: 0 <= k <= l < |ps| ==> ps[k] <= ps[l])
  }

  /** The parse loop from cursor `cursor` on the working text `s`. Each match records
      (name, position of `$`); an invalid name or an over-long name stops the loop;
      otherwise `name.size() + 3` characters are erased at the `$` and the scan
      resumes there. */
  function Scan(s: string, cursor: nat): (r: ParseState)
    requires cursor <= |s|
    decreases |s| - cursor
    ensures |r.names| == |r.positions|
    ensures r.failure.Some? ==> r.failure.value.InvalidName? || r.failure.value.IndexOverflow?
  {
    if cursor == |s| then ParseState(s, [], [], None)
    else
      match Locate(s, cursor)
      case NoPlaceholder => ParseState(s, [], [], None)
      case InvalidAt(j) => ParseState(s, [], [], Some(InvalidName(j)))
      case Found(n, p) =>
        if |n| + 3 > IntMax then ParseState(s, [n], [p], Some(IndexOverflow))
        else
          var rest := Scan(Erase(s, p, |n| + 3), p);
          ParseState(rest.working, [n] + rest.names, [p] + rest.positions, rest.failure)
  }

  /** Erasures only happen at or after the cursor, so the text before it stays, and
      the positions recorded never decrease and stay within the final working text. */
  lemma {:induction false} ScanOrdered(s: string, cursor: nat)
    requires cursor <= |s|
    decreases |s| - cursor
    ensures var r := Scan(s, cursor);
      cursor <= |r.working| && r.working[..cursor] == s[..cursor]
      && Ordered(r.positions, cursor, |r.working|)
  {
    if cursor < |s| {
      var loc := Locate(s, cursor);
      if !loc.Found? || |loc.name| + 3 > IntMax {
        ScanStops(s, cursor);
      } else {
        ScanOrdered(Erase(s, loc.at, |loc.name| + 3), loc.at);
        OrderedStep(s, cursor);
      }
    }
  }

  /** The ordering step: a placeholder at p, then positions from p on. */
  lemma OrderedStep(s: string, cursor: nat)
    requires cursor < |s| && Locate(s, cursor).Found?
    requires |Locate(s, cursor).name| + 3 <= IntMax
    requires var loc := Locate(s, cursor);
      var s' := Erase(s, loc.at, |loc.name| + 3);
      var rest := Scan(s', loc.at);
      loc.at <= |rest.working| && rest.working[..loc.at] == s'[..loc.at]
      && Ordered(rest.positions, loc.at, |rest.working|)
    ensures var r := Scan(s, cursor);
      cursor <= |r.working| && r.working[..cursor] == s[..cursor]
      && Ordered(r.positions, cursor, |r.working|)
  {
    var p := Locate(s, cursor).at;
    var s' := Erase(s, p, |Locate(s, cursor).name| + 3);
    ScanContinues(s, cursor);
    var rest := Scan(s', p);
    assert rest.working[..cursor] == s[..cursor] by {
      assert rest.working[..p][..cursor] == rest.working[..cursor];
      assert s'[..p] == s[..p];
      assert s[..p][..cursor] == s[..cursor];
    }
    OrderedCons(p, rest.positions, cursor, |rest.working|);
  }

  lemma OrderedCons(p: int, ps: seq<int>, lo: int, hi: int)
    requires lo <= p <= hi && Ordered(ps, p, hi)
    ensures Ordered([p] + ps, lo, hi)
  {
    var qs := [p] + ps;
    forall k, l | 0 <= k <= l < |qs| ensures qs[k] <= qs[l] {
      if k > 0 {
        assert qs[k] == ps[k - 1] && qs[l] == ps[l - 1];
      } else if l > 0 {
        assert qs[l] == ps[l - 1];
      }
    }
    forall k | 0 <= k < |qs| ensures lo <= qs[k] <= hi {
      if k > 0 { assert qs[k] == ps[k - 1]; }
    }
  }

  /** One turn of the parse loop, by what the scanner reports. */
  lemma ScanStops(s: string, cursor: nat)
    requires cursor < |s|
    requires !Locate(s, cursor).Found? || |Locate(s, cursor).name| + 3 > IntMax
    ensures var loc := Locate(s, cursor);
      Scan(s, cursor) == match loc
        case NoPlaceholder => ParseState(s, [], [], None)
        case InvalidAt(j) => ParseState(s, [], [], Some(InvalidName(j)))
        case Found(n, p) => ParseState(s, [n], [p], Some(IndexOverflow))
  {
  }

  lemma ScanContinues(s: string, cursor: nat)
    requires cursor < |s| && Locate(s, cursor).Found?
    requires |Locate(s, cursor).name| + 3 <= IntMax
    ensures var n, p := Locate(s, cursor).name, Locate(s, cursor).at;
      var rest := Scan(Erase(s, p, |n| + 3), p);
      Scan(s, cursor) == ParseState(rest.working, [n] + rest.names, [p] + rest.positions, rest.failure)
  {
  }

  /** The index in an invalid-name status points into the working text the whole
      parse leaves, at a character past a `${` that is neither a name character nor
      `}`: earlier erasures have shortened the text it indexes. */
  lemma {:induction false} ScanInvalid(s: string, cursor: nat)
    requires cursor <= |s|
    decreases |s| - cursor
    ensures var r := Scan(s, cursor);
      r.failure.Some? && r.failure.value.InvalidName? ==>
        var j := r.failure.value.at;
        cursor + 2 <= j < |r.working| && !IsNameChar(r.working[j]) && r.working[j] != '}'
  {
    if cursor < |s| {
      var loc := Locate(s, cursor);
      if !loc.Found? || |loc.name| + 3 > IntMax {
        ScanStops(s, cursor);
        LocateFacts(s, cursor);
      } else {
        ScanInvalid(Erase(s, loc.at, |loc.name| + 3), loc.at);
        ScanContinues(s, cursor);
      }
    }
  }

  /** `parse()` on a template: the loop from cursor 0 on a copy of it. */
  function Parsed(t: string): ParseState {
    Scan(t, 0)
  }

  /** A `${` at p with no `}` anywhere after it: a placeholder the end of the text closes. */
  predicate Unclosed(s: string, p: int) {
    OpensAt(s, p) && forall k :: p + 2 <= k < |s| ==> s[k] != '}'
  }

  ghost predicate UnclosedFrom(s: string, cursor: int) {
    exists p :: cursor <= p && Unclosed(s, p)
  }

  /** Text without any `${` parses to itself: nothing recorded, no error. */
  lemma NoPlaceholderUnchanged(t: string)
    requires forall k :: !OpensAt(t, k)
    ensures Parsed(t) == ParseState(t, [], [], None)
  {
  }

  /** The literal text is what a placeholder-free template is made of, and every
      recognised placeholder is reinserted by putting its own `${name}` back at
      its recorded position: the round trip of parsing. The final `}` is the one
      an unterminated placeholder at the end of the text never had. */
  lemma {:induction false} ScanRestores(s: string, cursor: nat)
    requires cursor <= |s|
    requires Scan(s, cursor).failure.None?
    ensures var r := Scan(s, cursor);
      Ordered(r.positions, cursor, |r.working|) && cursor <= |r.working|
      && Restore(r.working, r.names, r.positions, cursor)
         == s[cursor..] + (if UnclosedFrom(s, cursor) then "}" else "")
    decreases |s| - cursor
  {
    ScanOrdered(s, cursor);
    var loc := if cursor == |s| then NoPlaceholder else Locate(s, cursor);
    if loc.Found? {
      var n, p := loc.name, loc.at;
      ScanContinues(s, cursor);
      ScanRestores(Erase(s, p, |n| + 3), p);
      FoundRestores(s, cursor, n, p);
    } else if loc.NoPlaceholder? {
      NothingToScan(s, cursor);
    }
  }

  /** One recognised placeholder: the round trip from the cursor follows from the
      round trip after its erasure. */
  lemma FoundRestores(s: string, cursor: nat, n: string, p: nat)
    requires cursor < |s| && Locate(s, cursor) == Found(n, p) && |n| + 3 <= IntMax
    requires var s' := Erase(s, p, |n| + 3);
      var rest := Scan(s', p);
      Ordered(rest.positions, p, |rest.working|) && p <= |rest.working| &&
      Restore(rest.working, rest.names, rest.positions, p)
      == s'[p..] + (if UnclosedFrom(s', p) then "}" else "")
    ensures var r := Scan(s, cursor);
      Ordered(r.positions, cursor, |r.working|) && cursor <= |r.working|
      && Restore(r.working, r.names, r.positions, cursor)
         == s[cursor..] + (if UnclosedFrom(s, cursor) then "}" else "")
  {
    LocateFacts(s, cursor);
    if p + 2 + |n| == |s| {
      UnclosedRestores(s, cursor, n, p);
    } else {
      ClosedRestores(s, cursor, n, p);
    }
  }

  /** The found placeholder runs to the end of the text: restoring adds its `}`. */
  lemma UnclosedRestores(s: string, cursor: nat, n: string, p: nat)
    requires p + 2 + |n| == |s|
    requires cursor < |s| && Locate(s, cursor) == Found(n, p) && |n| + 3 <= IntMax
    requires var s' := Erase(s, p, |n| + 3);
      var rest := Scan(s', p);
      Ordered(rest.positions, p, |rest.working|) && p <= |rest.working| &&
      Restore(rest.working, rest.names, rest.positions, p)
      == s'[p..] + (if UnclosedFrom(s', p) then "}" else "")
    ensures var r := Scan(s, cursor);
      Ordered(r.positions, cursor, |r.working|) && cursor <= |r.working|
      && Restore(r.working, r.names, r.positions, cursor)
         == s[cursor..] + (if UnclosedFrom(s, cursor) then "}" else "")
  {
    var s' := Erase(s, p, |n| + 3);
    RestoreFound(s, cursor, n, p);
    UnclosedStep(s, cursor, n, p);
    assert s'[p..] + (if UnclosedFrom(s', p) then "}" else "") == [];
  }

  /** The found placeholder is closed: restoring gives it back as it was. */
  lemma ClosedRestores(s: string, cursor: nat, n: string, p: nat)
    requires p + 2 + |n| < |s|
    requires cursor < |s| && Locate(s, cursor) == Found(n, p) && |n| + 3 <= IntMax
    requires var s' := Erase(s, p, |n| + 3);
      var rest := Scan(s', p);
      Ordered(rest.positions, p, |rest.working|) && p <= |rest.working| &&
      Restore(rest.working, rest.names, rest.positions, p)
      == s'[p..] + (if UnclosedFrom(s', p) then "}" else "")
    ensures var r := Scan(s, cursor);
      Ordered(r.positions, cursor, |r.working|) && cursor <= |r.working|
      && Restore(r.working, r.names, r.positions, cursor)
         == s[cursor..] + (if UnclosedFrom(s, cursor) then "}" else "")
  {
    var s' := Erase(s, p, |n| + 3);
    var rest, r := Scan(s', p), Scan(s, cursor);
    RestoreFound(s, cursor, n, p);
    ClosedStep(s, cursor, n, p);
    Glue(s[cursor..p] + Raw(n), s'[p..], if UnclosedFrom(s', p) then "}" else "",
         Restore(rest.working, rest.names, rest.positions, p), Restore(r.working, r.names, r.positions, cursor));
  }

  /** Text restored after a head: the head, then what the rest restores. */
  lemma Glue(head: string, rest: string, tail: string, restored: string, total: string)
    requires restored == rest + tail && total == head + restored
    ensures total == (head + rest) + tail
  {
  }


  /** Restoring the text after a found placeholder: the literal text before it,
      the placeholder itself, and what the rest of the scan restores. */
  lemma RestoreFound(s: string, cursor: nat, n: string, p: nat)
    requires cursor < |s| && Locate(s, cursor) == Found(n, p) && |n| + 3 <= IntMax
    ensures var rest := Scan(Erase(s, p, |n| + 3), p);
      var r := Scan(s, cursor);
      p <= |rest.working| && Ordered(rest.positions, p, |rest.working|)
      && Ordered(r.positions, cursor, |r.working|) && cursor <= |r.working|
      && Restore(r.working, r.names, r.positions, cursor)
         == s[cursor..p] + Raw(n) + Restore(rest.working, rest.names, rest.positions, p)
  {
    ScanOrdered(s, cursor);
    LocateFacts(s, cursor);
    var s' := Erase(s, p, |n| + 3);
    var rest := Scan(s', p);
    ScanOrdered(s', p);
    ScanContinues(s, cursor);
    var r := Scan(s, cursor);
    assert r.working[cursor..p] == s[cursor..p] by {
      assert rest.working[..p] == s'[..p] == s[..p];
    }
    RawsCons(n, rest.names);
    InterleaveCons(r.working, Raw(n), Raws(rest.names), p, rest.positions, cursor);
  }


  /** With no `${` at or after the cursor the scan ends at once. */
  lemma NothingToScan(s: string, cursor: nat)
    requires cursor <= |s|
    requires cursor == |s| || Locate(s, cursor).NoPlaceholder?
    ensures Scan(s, cursor) == ParseState(s, [], [], None) && !UnclosedFrom(s, cursor)
  {
  }

  lemma InterleaveCons(w: string, v: string, values: seq<string>, p: int, positions: seq<int>, last: int)
    requires |values| == |positions|
    requires 0 <= last <= p && Ordered([p] + positions, last, |w|)
    ensures p <= |w| && Ordered(positions, p, |w|)
    ensures Interleave(w, [p] + positions, [v] + values, last)
      == w[last..p] + v + Interleave(w, positions, values, p)
  {
    assert ([p] + positions)[0] == p;
    assert ([v] + values)[1..] == values;
    assert ([p] + positions)[1..] == positions;
    forall k | 0 <= k < |positions| ensures p <= positions[k] <= |w| {
      assert ([p] + positions)[0] <= ([p] + positions)[k + 1];
      assert positions[k] == ([p] + positions)[k + 1];
    }
    forall k, l | 0 <= k <= l < |positions| ensures positions[k] <= positions[l] {
      assert positions[k] == ([p] + positions)[k + 1];
      assert positions[l] == ([p] + positions)[l + 1];
    }
  }

  /** The last placeholder runs to the end of the text: erasing it leaves the text
      before it, and restoring adds the `}` it never had. */
  lemma UnclosedStep(s: string, cursor: nat, n: string, p: nat)
    requires cursor < |s| && Locate(s, cursor) == Found(n, p) && p + 2 + |n| == |s|
    ensures var s' := Erase(s, p, |n| + 3);
      s' == s[..p] && UnclosedFrom(s, cursor) && !UnclosedFrom(s', p) && s'[p..] == []
      && s[cursor..p] + Raw(n) == s[cursor..] + "}"
  {
    LocateFacts(s, cursor);
    assert Unclosed(s, p);
    assert s[p..] == "${" + n by {
      assert s[p..p + 2] == "${";
      assert s[p..] == s[p..p + 2] + s[p + 2..];
    }
    assert s[cursor..] == s[cursor..p] + s[p..];
    assert Erase(s, p, |n| + 3) == s[..p];
  }

  /** A closed placeholder: erasing `${name}` and putting it back restores the text,
      and whether an unterminated placeholder follows is unchanged. */
  lemma ClosedStep(s: string, cursor: nat, n: string, p: nat)
    requires cursor < |s| && Locate(s, cursor) == Found(n, p) && p + 2 + |n| < |s|
    ensures var s' := Erase(s, p, |n| + 3);
      (UnclosedFrom(s, cursor) <==> UnclosedFrom(s', p))
      && s[cursor..p] + Raw(n) + s'[p..] == s[cursor..]
  {
    LocateFacts(s, cursor);
    var e := p + 3 + |n|;
    ClosedSlices(s, cursor, n, p);
    assert Erase(s, p, |n| + 3) == s[..p] + s[e..];
    ClosedShift(s, cursor, p, e);
  }

  /** The text from the cursor, cut around a closed placeholder at p. */
  lemma ClosedSlices(s: string, cursor: nat, n: string, p: nat)
    requires cursor <= p && p + 3 + |n| <= |s|
    requires s[p] == '$' && s[p + 1] == '{' && s[p + 2..p + 2 + |n|] == n && s[p + 2 + |n|] == '}'
    ensures var e := p + 3 + |n|;
      s[cursor..p] + Raw(n) + (s[..p] + s[e..])[p..] == s[cursor..]
  {
    var e := p + 3 + |n|;
    assert s[p..e] == Raw(n) by {
      assert s[p..p + 2] == "${";
      assert s[p..e] == s[p..p + 2] + s[p + 2..e - 1] + s[e - 1..e];
    }
    assert s[cursor..] == s[cursor..p] + s[p..e] + s[e..];
    assert (s[..p] + s[e..])[p..] == s[e..];
  }

  /** Removing a closed placeholder `s[p..e]` that is the first `${` at or after
      `cursor` neither creates nor hides an unterminated one after it. */
  lemma ClosedShift(s: string, cursor: nat, p: nat, e: nat)
    requires cursor <= p && p + 3 <= e <= |s| && s[e - 1] == '}'
    requires forall k :: cursor <= k < p ==> !OpensAt(s, k)
    requires forall k :: p + 2 <= k < e - 1 ==> IsNameChar(s[k])
    requires s[p] == '$' && s[p + 1] == '{'
    ensures UnclosedFrom(s, cursor) <==> UnclosedFrom(s[..p] + s[e..], p)
  {
    var s' := s[..p] + s[e..];
    var d := e - p;
    forall k | p < k < e ensures s[k] != '$' {
      if p + 1 < k < e - 1 { assert IsNameChar(s[k]); }
    }
    if UnclosedFrom(s, cursor) {
      var q :| cursor <= q && Unclosed(s, q);
      assert q != p by { assert p + 2 <= e - 1 < |s|; }
      assert q >= e;
      assert Unclosed(s', q - d) by {
        assert s'[q - d] == s[q] && s'[q - d + 1] == s[q + 1];
        forall k | q - d + 2 <= k < |s'| ensures s'[k] != '}' {
          assert s'[k] == s[k + d];
        }
      }
    }
    if UnclosedFrom(s', p) {
      var q :| p <= q && Unclosed(s', q);
      assert Unclosed(s, q + d) by {
        assert s[q + d] == s'[q] && s[q + d + 1] == s'[q + 1];
        forall k | q + d + 2 <= k < |s| ensures s[k] != '}' {
          assert s[k] == s'[k - d];
        }
      }
    }
  }

  /** The text of a placeholder named `n`. */
  function Raw(n: string): string {
    "${" + n + "}"
  }

  function Raws(names: seq<string>): (r: seq<string>)
    ensures |r| == |names|
  {
    seq(|names|, k requires 0 <= k < |names| => Raw(names[k]))
  }

  lemma RawsCons(n: string, names: seq<string>)
    ensures Raws([n] + names) == [Raw(n)] + Raws(names)
  {
    var a, b := Raws([n] + names), [Raw(n)] + Raws(names);
    forall k | 0 <= k < |a| ensures a[k] == b[k] {
      if k > 0 { assert ([n] + names)[k] == names[k - 1]; }
    }
  }

  /** The working text `w` read from `last` on, with `values[k]` put in at `positions[k]`:
      what the recorded occurrences mean. */
  function Interleave(w: string, positions: seq<int>, values: seq<string>, last: int): string
    requires |values| == |positions|
    requires 0 <= last <= |w| && Ordered(positions, last, |w|)
    decreases |positions|
  {
    if positions == [] then w[last..]
    else w[last..positions[0]] + values[0] + Interleave(w, positions[1..], values[1..], positions[0])
  }

  /** The working text with each recorded name's `${name}` put back at its position. */
  function Restore(w: string, names: seq<string>, positions: seq<int>, last: int): string
    requires |names| == |positions|
    requires 0 <= last <= |w| && Ordered(positions, last, |w|)
  {
    Interleave(w, positions, Raws(names), last)
  }
}
