/** Concrete templates run through the model, one behaviour each. */
module Scenarios {
  import opened Messages
  import opened Scanner
  import opened Parsing
  import opened Substitution
  import opened Usage

  lemma HelloParsed(t: string)
    requires t == "Hello, ${name}!"
    ensures Parsed(t) == ParseState("Hello, !", ["name"], [7], None)
  {
    LocateExact(t, 0, 7, 13);
    assert t[9..13] == "name";
    assert Erase(t, 7, 7) == "Hello, !";
    assert Locate("Hello, !", 7) == NoPlaceholder;
    ScanContinues(t, 0);
  }

  lemma HelloWorld(t: string, defs: map<string, string>)
    requires t == "Hello, ${name}!" && defs == map["name" := "World"]
    ensures Rendered(t, defs) == Output("Hello, World!")
  {
    HelloParsed(t);
    HelloFilled(defs);
  }

  lemma HelloFilled(defs: map<string, string>)
    requires defs == map["name" := "World"]
    ensures Interleave("Hello, !", [7], Values(defs, ["name"]), 0) == "Hello, World!"
  {
    assert Values(defs, ["name"]) == ["World"];
  }

  lemma EmptyName()
    ensures Parsed("a${}b") == ParseState("ab", [""], [1], None)
  {
    var t := "a${}b";
    LocateExact(t, 0, 1, 3);
    assert Erase(t, 1, 3) == "ab";
    ScanContinues(t, 0);
  }

  lemma Unterminated()
    ensures Parsed("x${abc") == ParseState("x", ["abc"], [1], None)
  {
    var t := "x${abc";
    LocateExact(t, 0, 1, 6);
    assert t[3..6] == "abc";
    assert Erase(t, 1, 6) == "x";
    ScanContinues(t, 0);
  }

  lemma Seam()
    ensures Parsed("$${a}{") == ParseState("${", ["a"], [1], None)
  {
    var t := "$${a}{";
    LocateExact(t, 0, 1, 4);
    assert t[3..4] == "a";
    assert Erase(t, 1, 4) == "${";
    assert Locate("${", 1) == NoPlaceholder;
    ScanContinues(t, 0);
  }

  lemma InvalidKeepsEarlier(t: string)
    requires t == "${x}-${a!}"
    ensures Parsed(t) == ParseState("-${a!}", ["x"], [0], Some(InvalidName(4)))
  {
    LocateExact(t, 0, 0, 3);
    assert t[2..3] == "x";
    var w := Erase(t, 0, 4);
    assert w == "-${a!}";
    InvalidTail(w);
    ScanContinues(t, 0);
  }

  /** The rest of that template: the bad name stops the scan, nothing recorded. */
  lemma InvalidTail(w: string)
    requires w == "-${a!}"
    ensures Scan(w, 0) == ParseState(w, [], [], Some(InvalidName(4)))
  {
    assert FindOpening(w, 0) == Some(1);
    assert ReadName(w, 3) == BadChar(4);
    ScanStops(w, 0);
  }

  lemma OnlyPlaceholdersParsed(t: string)
    requires t == "${a}"
    ensures Parsed(t) == ParseState("", ["a"], [0], None)
  {
    LocateExact(t, 0, 0, 3);
    assert t[2..3] == "a";
    assert Erase(t, 0, 4) == "";
    ScanContinues(t, 0);
  }

  lemma OnlyPlaceholders(t: string, defs: map<string, string>)
    requires t == "${a}"
    ensures Rendered(t, defs) == Failure(Status.NotParsed)
  {
    OnlyPlaceholdersParsed(t);
  }

  lemma InvalidShown(t: string, defs: map<string, string>)
    requires t == "${x}-${a!}"
    ensures Rendered(t, defs) == Failure(InvalidName(4))
  {
    InvalidKeepsEarlier(t);
  }

  lemma MissingParsed(t: string)
    requires t == "${a}b"
    ensures Parsed(t) == ParseState("b", ["a"], [0], None)
  {
    LocateExact(t, 0, 0, 3);
    assert t[2..3] == "a";
    assert Erase(t, 0, 4) == "b";
    assert Locate("b", 0) == NoPlaceholder;
    ScanContinues(t, 0);
  }

  lemma MissingIsEmpty(t: string, defs: map<string, string>)
    requires t == "${a}b" && defs == map[]
    ensures Rendered(t, defs) == Output("b")
  {
    MissingParsed(t);
    MissingFilled(defs);
  }

  lemma MissingFilled(defs: map<string, string>)
    requires defs == map[]
    ensures Interleave("b", [0], Values(defs, ["a"]), 0) == "b"
  {
    assert Values(defs, ["a"]) == [""];
  }

  /** "a${x}b${y}c" parses to "abc", with `x` at 1 and `y` at 2. */
  lemma TwoParsed(t: string)
    requires t == "a${x}b${y}c"
    ensures Parsed(t) == ParseState("abc", ["x", "y"], [1, 2], None)
  {
    TwoHead(t);
    TwoTail("ab${y}c");
    ScanContinues(t, 0);
  }

  /** The scan from 0 finds `x` at 1, and erasing `${x}` leaves "ab${y}c". */
  lemma TwoHead(t: string)
    requires t == "a${x}b${y}c"
    ensures Locate(t, 0) == Found("x", 1) && Erase(t, 1, 4) == "ab${y}c"
  {
    LocateExact(t, 0, 1, 4);
    assert t[3..4] == "x";
  }

  /** After `${x}` is erased, the scan resumes at 1 and finds `y` at 2. */
  lemma TwoTail(w: string)
    requires w == "ab${y}c"
    ensures Scan(w, 1) == ParseState("abc", ["y"], [2], None)
  {
    LocateExact(w, 1, 2, 5);
    assert w[4..5] == "y";
    assert Erase(w, 2, 4) == "abc";
    assert Locate("abc", 2) == NoPlaceholder;
    ScanContinues(w, 1);
  }

  /** Parsing "a${x}b${y}c" twice records its names and positions twice. The
      third position lies before the cursor, so that slice takes the rest of the
      text, and the text comes out twice. */
  lemma ParsedTwiceSpliced(t: string, w: string, names: seq<string>, indices: seq<int>, defs: map<string, string>)
    requires t == "a${x}b${y}c"
    requires var P := Parsed(t);
      w == P.working && names == P.names + P.names && indices == P.positions + P.positions
    requires "x" in defs && "y" in defs && defs["x"] == "X" && defs["y"] == "Y"
    ensures InBounds(w, indices, 0) && Splice(w, names, indices, defs, 0, 0).text == "aXbYcXbYc"
  {
    TwoParsed(t);
    assert w == "abc" && names == ["x", "y", "x", "y"] && indices == [1, 2, 1, 2];
    SpliceStep(w, names, indices, defs, 0, 0);
    FromSecond(w, names, indices, defs);
  }

  /** From the second occurrence on, with the cursor at 1. */
  lemma FromSecond(w: string, names: seq<string>, indices: seq<int>, defs: map<string, string>)
    requires w == "abc" && names == ["x", "y", "x", "y"] && indices == [1, 2, 1, 2]
    requires "x" in defs && "y" in defs && defs["x"] == "X" && defs["y"] == "Y"
    ensures Splice(w, names, indices, defs, 1, 1).text == "bYcXbYc"
  {
    SpliceStep(w, names, indices, defs, 1, 1);
    SecondBatch(w, names, indices, defs);
  }

  /** The second batch, entered with the cursor at 2. */
  lemma SecondBatch(w: string, names: seq<string>, indices: seq<int>, defs: map<string, string>)
    requires w == "abc" && names == ["x", "y", "x", "y"] && indices == [1, 2, 1, 2]
    requires "x" in defs && "y" in defs && defs["x"] == "X" && defs["y"] == "Y"
    ensures Splice(w, names, indices, defs, 2, 2).text == "cXbYc"
  {
    SpliceRewinds(w, names, indices, defs, 2, 2);
    SpliceStep(w, names, indices, defs, 3, 1);
    SpliceEnd(w, names, indices, defs, 2);
  }
}
