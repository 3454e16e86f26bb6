/** How each revision names its output file when none is given on the command line. */
module Paths {
  import opened Text
  import opened Wrappers

  /** src/index.js and dist/entry.js: split the input path on '.', insert
      "happy" before the last piece (`splice(-1, 0, 'happy')`) and join again. */
  function HappyPath(input: string): (r: string)
    ensures '.' !in input ==> r == "happy." + input
    ensures '.' in input ==> exists k :: 0 <= k < |input| && input[k] == '.' && '.' !in input[k + 1..]
                                       && r == input[..k] + ".happy" + input[k..]
  {
    var parts := Split(input, '.');
    var n := |parts|;
    var r := Join(parts[..n - 1] + ["happy"] + [parts[n - 1]], '.');
    HappyPathShape(input, parts, r);
    r
  }

  lemma {:induction false} HappyPathShape(input: string, parts: seq<string>, r: string)
    requires parts == Split(input, '.')
    requires r == Join(parts[..|parts| - 1] + ["happy"] + [parts[|parts| - 1]], '.')
    ensures '.' !in input ==> r == "happy." + input
    ensures '.' in input ==> exists k :: 0 <= k < |input| && input[k] == '.' && '.' !in input[k + 1..]
                                       && r == input[..k] + ".happy" + input[k..]
  {
    var n := |parts|;
    if '.' !in input {
      assert parts == [input];
      assert parts[..0] + ["happy"] + [parts[0]] == ["happy", input];
    } else {
      var init, last := parts[..n - 1], parts[n - 1];
      LastPiece(input, parts);
      var stem := Join(init, '.');
      InsertHappy(init, last, r);
      StemIndex(input, stem, last, r);
    }
  }

  /** With a '.' there are at least two pieces, and the input is the join of
      all but the last, a '.', and the last. */
  lemma {:induction false} LastPiece(input: string, parts: seq<string>)
    requires parts == Split(input, '.') && '.' in input
    ensures |parts| >= 2
    ensures input == Join(parts[..|parts| - 1], '.') + "." + parts[|parts| - 1]
  {
    var n := |parts|;
    JoinSplit(input, '.');
    assert n >= 2;
    assert parts == parts[..n - 1] + [parts[n - 1]];
    JoinAppend(parts[..n - 1], [parts[n - 1]], '.');
  }

  lemma {:induction false} InsertHappy(init: seq<string>, last: string, r: string)
    requires init != []
    requires r == Join(init + ["happy"] + [last], '.')
    ensures r == Join(init, '.') + ".happy." + last
  {
    assert init + ["happy"] + [last] == init + (["happy"] + [last]);
    JoinAppend(init, ["happy"] + [last], '.');
    JoinAppend(["happy"], [last], '.');
  }

  lemma StemIndex(input: string, stem: string, last: string, r: string)
    requires input == stem + "." + last && '.' !in last
    requires r == stem + ".happy." + last
    ensures exists k :: 0 <= k < |input| && input[k] == '.' && '.' !in input[k + 1..]
                        && r == input[..k] + ".happy" + input[k..]
  {
    var k := |stem|;
    assert input[k] == '.';
    assert input[k + 1..] == last;
    assert input[..k] == stem;
    assert input[k..] == "." + last;
  }

  /** The last '.' is the one "happy" goes in front of. */
  lemma HappyPathOf(stem: string, last: string)
    requires '.' !in last
    ensures HappyPath(stem + ("." + last)) == stem + ".happy" + ("." + last)
  {
    var tail := "." + last;
    var input := stem + tail;
    assert input == stem + "." + last;
    assert input[|stem|] == '.';
    var r := HappyPath(input);
    var k :| 0 <= k < |input| && input[k] == '.' && '.' !in input[k + 1..]
             && r == input[..k] + ".happy" + input[k..];
    if k != |stem| {
      assert false;
    }
    assert input[..k] == stem;
    assert input[k..] == tail;
  }

  lemma HappyPathExampleSimple()
    ensures HappyPath("t.csv") == "t.happy.csv"
  {
    OneDotPieces();
    HappyPathOf("t", "csv");
  }

  lemma OneDotPieces()
    ensures "t" + ("." + "csv") == "t.csv"
    ensures "t" + ".happy" + ("." + "csv") == "t.happy.csv"
  {
  }

  lemma HappyPathExampleTwoDots()
    ensures HappyPath("a.b.csv") == "a.b.happy.csv"
  {
    TwoDotsPieces();
    HappyPathOf("a.b", "csv");
  }

  lemma TwoDotsPieces()
    ensures "a.b" + ("." + "csv") == "a.b.csv"
    ensures "a.b" + ".happy" + ("." + "csv") == "a.b.happy.csv"
  {
  }

  lemma HappyPathExampleNoDot()
    ensures HappyPath("f") == "happy.f"
  {
  }

  /** The output file of src/index.js and dist/entry.js: the second command-line
      argument when it is given and non-empty, the derived path otherwise. */
  function OutputFile(input: string, given: Option<string>): (r: string)
    ensures given.Some? && given.value != [] ==> r == given.value
    ensures given.None? || given.value == [] ==> r == HappyPath(input)
  {
    if given.Some? && given.value != [] then given.value else HappyPath(input)
  }

  /** index.js: the second argument, or "happy-" in front of the input path. */
  function EarlyOutputFile(input: string, given: Option<string>): (r: string)
    ensures given.Some? && given.value != [] ==> r == given.value
    ensures given.None? || given.value == [] ==> |r| == |input| + 6 && r[..6] == "happy-" && r[6..] == input
  {
    if given.Some? && given.value != [] then given.value else "happy-" + input
  }
}
