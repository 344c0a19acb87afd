/** Worked examples of the segmenter on small scripts. */
module SegmenterExamples {
  import opened Types
  import opened JsStrings
  import opened Segmenter

  lemma ScanTwoLines()
    ensures Scan("Hello.\nWorld", 0) == ["Hello.\n", "World"]
  {
    var s := "Hello.\nWorld";
    assert RunEnd(s, 0) == 5;
    assert MatchAt(s, 0) == Some(7);
    assert RunEnd(s, 7) == 12;
    assert MatchAt(s, 7) == Some(12);
    assert s[7..12] == "World";
    assert s[0..7] == "Hello.\n";
    assert Scan(s, 7) == ["World"];
  }

  /** Two lines, two sentences. */
  lemma ExampleTwoLines()
    ensures SplitScriptToSentences("Hello.\nWorld") == ["Hello.", "World"]
  {
    ScanTwoLines();
    var ms := ["Hello.\n", "World"];
    TrimDetermined(ms[0], 0, 6);
    assert ms[0][0..6] == "Hello.";
    TrimDetermined(ms[1], 0, 5);
    assert ms[1][0..5] == "World";
    var r := TrimAll(ms);
    assert r[0] == "Hello." && r[1] == "World";
    assert r == ["Hello.", "World"];
  }

  lemma ScanOneLine()
    ensures Scan("A. B! C?", 0) == [" C?"]
  {
    var s := "A. B! C?";
    assert RunEnd(s, 5) == 7 && MatchAt(s, 5) == Some(8);
    assert s[5..8] == " C?";
    assert Scan(s, 5) == [" C?"];
    assert RunEnd(s, 4) == 4 && MatchAt(s, 4) == None;
    assert RunEnd(s, 3) == 4 && MatchAt(s, 3) == None;
    assert RunEnd(s, 2) == 4 && MatchAt(s, 2) == None;
    assert RunEnd(s, 1) == 1 && MatchAt(s, 1) == None;
    assert RunEnd(s, 0) == 1 && MatchAt(s, 0) == None;
  }

  /** Only the final fragment of a line is kept. */
  lemma ExampleOneLine()
    ensures SplitScriptToSentences("A. B! C?") == ["C?"]
  {
    ScanOneLine();
    var m := " C?";
    TrimDetermined(m, 1, 3);
    assert m[1..3] == "C?";
    var r := TrimAll([m]);
    assert r[0] == "C?";
    assert r == ["C?"];
  }

  /** A script that is not blank can still have no sentences. */
  lemma ExampleMarksOnly()
    ensures !AllWhiteSpace("...") && SplitScriptToSentences("...") == []
  {
    var s := "...";
    assert !IsWhiteSpace(s[0]);
    assert RunEnd(s, 2) == 2 && MatchAt(s, 2) == None;
    assert RunEnd(s, 1) == 1 && MatchAt(s, 1) == None;
    assert RunEnd(s, 0) == 0 && MatchAt(s, 0) == None;
    assert Scan(s, 0) == [];
  }

  /** A line ending in two marks gives nothing. */
  lemma ExampleDoubleMark()
    ensures SplitScriptToSentences("Hi..") == []
  {
    var s := "Hi..";
    assert RunEnd(s, 3) == 3 && MatchAt(s, 3) == None;
    assert RunEnd(s, 2) == 2 && MatchAt(s, 2) == None;
    assert RunEnd(s, 1) == 2 && MatchAt(s, 1) == None;
    assert RunEnd(s, 0) == 2 && MatchAt(s, 0) == None;
    assert Scan(s, 0) == [];
  }

  /** A trailing space after the mark leaves only the space to match, and it
      trims away. */
  lemma ExampleTrailingSpace()
    ensures SplitScriptToSentences("Hi. ") == []
  {
    var s := "Hi. ";
    assert RunEnd(s, 3) == 4 && MatchAt(s, 3) == Some(4);
    assert s[3..4] == " ";
    assert Scan(s, 3) == [" "];
    assert RunEnd(s, 2) == 2 && MatchAt(s, 2) == None;
    assert RunEnd(s, 1) == 2 && MatchAt(s, 1) == None;
    assert RunEnd(s, 0) == 2 && MatchAt(s, 0) == None;
    assert Scan(s, 0) == [" "];
    assert AllWhiteSpace(" ");
    assert TrimAll([" "]) == [""];
  }

  lemma ScanCrLf()
    ensures Scan("Hi.\r\nYo", 0) == ["\r\n", "Yo"]
  {
    var s := "Hi.\r\nYo";
    assert RunEnd(s, 5) == 7 && MatchAt(s, 5) == Some(7);
    assert s[5..7] == "Yo";
    assert Scan(s, 5) == ["Yo"];
    assert RunEnd(s, 3) == 4 && MatchAt(s, 3) == Some(5);
    assert s[3..5] == "\r\n";
    assert Scan(s, 3) == ["\r\n", "Yo"];
    assert RunEnd(s, 2) == 2 && MatchAt(s, 2) == None;
    assert RunEnd(s, 1) == 2 && MatchAt(s, 1) == None;
    assert RunEnd(s, 0) == 2 && MatchAt(s, 0) == None;
  }

  /** With CRLF line endings a punctuated line matches only its `\r\n`,
      which trims away. */
  lemma ExampleCrLf()
    ensures SplitScriptToSentences("Hi.\r\nYo") == ["Yo"]
  {
    ScanCrLf();
    var ms := ["\r\n", "Yo"];
    assert AllWhiteSpace(ms[0]);
    TrimDetermined(ms[1], 0, 2);
    assert ms[1][0..2] == "Yo";
    var r := TrimAll(ms);
    assert r[0] == "" && r[1] == "Yo";
    assert r == ["", "Yo"];
    assert NonEmpty(r[1..]) == ["Yo"];
  }
}
