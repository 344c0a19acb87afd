/** `splitScriptToSentences` of App.tsx:
    `text.match(/[^.!?\n]+[.!?]?(\n|$)/g)?.map(s => s.trim()).filter(s => s.length > 0) || []`.

    The pattern has to end at a newline or at the end of the input, so each
    line contributes at most its final fragment: the longest suffix made of
    characters other than `.`, `!`, `?` followed by at most one of them. */
module Segmenter {
  import opened Types
  import opened JsStrings

  /** `[.!?]` */
  predicate IsMark(c: char)
  {
    c == '.' || c == '!' || c == '?'
  }

  /** `[^.!?\n]` */
  predicate IsBody(c: char)
  {
    !IsMark(c) && c != '\n'
  }

  /** The end of the run of body characters that starts at `p`. */
  function RunEnd(s: string, p: nat): (q: nat)
    requires p <= |s|
    ensures p <= q <= |s|
    ensures forall i :: p <= i < q ==> IsBody(s[i])
    ensures q < |s| ==> !IsBody(s[q])
    decreases |s| - p
  {
    if p < |s| && IsBody(s[p]) then RunEnd(s, p + 1) else p
  }

  /** `s[p..e]` is a match of the pattern whose body characters end at `k`:
      one or more body characters, at most one mark, then a newline or the
      end of the input. */
  ghost predicate MatchWith(s: string, p: nat, e: nat, k: nat)
  {
    p < k <= e <= |s| && (forall i :: p <= i < k ==> IsBody(s[i])) &&
    ((e == |s| && (k == e || (k + 1 == e && IsMark(s[k])))) ||
     (k < e && s[e - 1] == '\n' && (k + 1 == e || (k + 2 == e && IsMark(s[k])))))
  }

  /** `s[p..e]` is a match of the pattern. */
  ghost predicate IsMatch(s: string, p: nat, e: nat)
  {
    exists k: nat :: MatchWith(s, p, e, k)
  }

  /** The end of the match the regular expression finds when it is tried at
      position `p`, if it matches there. */
  function MatchAt(s: string, p: nat): (e: Option<nat>)
    requires p <= |s|
    ensures e.Some? ==> p < e.value <= |s|
  {
    var q := RunEnd(s, p);
    if q == p then None
    else if q == |s| then Some(q)
    else if s[q] == '\n' then Some(q + 1)
    else if q + 1 == |s| then Some(q + 1)
    else if s[q + 1] == '\n' then Some(q + 2)
    else None
  }

  /** `MatchAt` finds at `p` exactly the matches of the pattern there. */
  lemma MatchAtIsMatch(s: string, p: nat, e: nat)
    requires p <= |s|
    ensures MatchAt(s, p) == Some(e) <==> IsMatch(s, p, e)
  {
    var q := RunEnd(s, p);
    if MatchAt(s, p) == Some(e) {
      assert MatchWith(s, p, e, q);
    }
    if IsMatch(s, p, e) {
      var k: nat :| MatchWith(s, p, e, k);
      assert k < |s| ==> !IsBody(s[k]);
      assert k == q;
    }
  }

  /** The global `match`: the leftmost match at or after `p`, then the search
      resumes where that match ended. */
  function Scan(s: string, p: nat): seq<string>
    requires p <= |s|
    decreases |s| - p
  {
    if p == |s| then []
    else match MatchAt(s, p)
      case Some(e) => [s[p..e]] + Scan(s, e)
      case None => Scan(s, p + 1)
  }

  /** `.map(s => s.trim())` */
  function TrimAll(ms: seq<string>): (r: seq<string>)
    ensures |r| == |ms|
    ensures forall i :: 0 <= i < |ms| ==> r[i] == Trim(ms[i])
  {
    if ms == [] then [] else [Trim(ms[0])] + TrimAll(ms[1..])
  }

  /** `.filter(s => s.length > 0)` */
  function NonEmpty(ts: seq<string>): (r: seq<string>)
    ensures |r| <= |ts|
    ensures forall t :: t in r <==> t in ts && t != []
  {
    if ts == [] then []
    else if ts[0] == [] then NonEmpty(ts[1..])
    else [ts[0]] + NonEmpty(ts[1..])
  }

  /** The filter keeps order and repeats: it works element by element. */
  lemma {:induction false} NonEmptyConcat(a: seq<string>, b: seq<string>)
    ensures NonEmpty(a + b) == NonEmpty(a) + NonEmpty(b)
    ensures NonEmpty([]) == []
    ensures forall t :: NonEmpty([t]) == if t == [] then [] else [t]
  {
    if a == [] {
      assert a + b == b;
    } else {
      assert (a + b)[0] == a[0] && (a + b)[1..] == a[1..] + b;
      NonEmptyConcat(a[1..], b);
    }
  }

  lemma {:induction false} NonEmptyOfBlanks(ts: seq<string>)
    requires forall i :: 0 <= i < |ts| ==> ts[i] == []
    ensures NonEmpty(ts) == []
  {
    if ts != [] {
      NonEmptyOfBlanks(ts[1..]);
    }
  }

  function SplitScriptToSentences(text: string): seq<string>
  {
    NonEmpty(TrimAll(Scan(text, 0)))
  }

  // ---------------------------------------------------------------------
  // A reference definition, line by line.

  /** `t` is what the pattern matches inside one line: at least one body
      character, then at most one mark. */
  predicate IsFragment(t: string)
  {
    var k := if t != [] && IsMark(t[|t| - 1]) then |t| - 1 else |t|;
    k >= 1 && forall i :: 0 <= i < k ==> IsBody(t[i])
  }

  /** The longest suffix of `line` that is a fragment, if any. */
  function LineFragment(line: string): (f: Option<string>)
    ensures f.Some? ==> IsFragment(f.value) && |f.value| <= |line|
                        && f.value == line[|line| - |f.value|..]
  {
    if line == [] then None
    else if IsFragment(line) then Some(line)
    else LineFragment(line[1..])
  }

  /** The fragment found is the longest one: no longer suffix is a
      fragment, and when none is found no suffix is. */
  lemma {:induction false} LineFragmentLongest(line: string)
    ensures LineFragment(line).Some? ==>
              forall k :: 0 <= k < |line| - |LineFragment(line).value| ==> !IsFragment(line[k..])
    ensures LineFragment(line).None? ==> forall k :: 0 <= k < |line| ==> !IsFragment(line[k..])
  {
    if line != [] && !IsFragment(line) {
      LineFragmentLongest(line[1..]);
      forall k | 1 <= k <= |line|
        ensures line[k..] == line[1..][k - 1..]
      {
        TailSuffix(line, k);
      }
    }
  }

  /** A suffix of the tail is a suffix of the line. */
  lemma TailSuffix(line: string, k: nat)
    requires 1 <= k <= |line|
    ensures line[k..] == line[1..][k - 1..]
  {
    assert |line[k..]| == |line[1..][k - 1..]|;
    assert forall j :: 0 <= j < |line| - k ==> line[k..][j] == line[1..][k - 1..][j];
  }

  /** The fragments of the lines, in order, skipping the lines that have none. */
  function LineFragments(lines: seq<string>): (r: seq<string>)
    ensures |r| <= |lines|
  {
    if lines == [] then []
    else
      (match LineFragment(lines[0]) case Some(f) => [f] case None => [])
      + LineFragments(lines[1..])
  }

  /** The sentences as the source's regular expression actually defines them:
      of every line of `text.split('\n')`, its final fragment, trimmed, when
      that is not empty. */
  function SentencesByLine(text: string): seq<string>
  {
    NonEmpty(TrimAll(LineFragments(Split(text, '\n'))))
  }

  lemma {:induction false} TrimAllConcat(a: seq<string>, b: seq<string>)
    ensures TrimAll(a + b) == TrimAll(a) + TrimAll(b)
  {
    if a == [] {
      assert a + b == b;
    } else {
      assert (a + b)[0] == a[0] && (a + b)[1..] == a[1..] + b;
      TrimAllConcat(a[1..], b);
    }
  }

  /** The end of the line that contains position `p`. */
  function LineEnd(s: string, p: nat): (e: nat)
    requires p <= |s|
    ensures p <= e <= |s|
    ensures forall i :: p <= i < e ==> s[i] != '\n'
    ensures e < |s| ==> s[e] == '\n'
  {
    assert forall i :: p <= i < |s| ==> s[i] == s[p..][i - p];
    p + IndexOf(s[p..], '\n')
  }

  /** Whether a match starts at `p` is decided by the rest of the line:
      it does exactly when that rest (with `p < e`, `e` its end) is a
      fragment, and then it runs to the end of the line and takes the
      newline with it. */
  lemma MatchAtLine(s: string, p: nat, e: nat)
    requires p <= |s| && e == LineEnd(s, p)
    ensures (MatchAt(s, p).Some? <==> p < e && IsFragment(s[p..e])) &&
            (MatchAt(s, p).Some? ==> MatchAt(s, p).value == if e == |s| then e else e + 1)
  {
    var u := s[p..];
    var q := RunEnd(s, p);
    assert q <= e;
    var L := s[p..e];
    assert forall i :: 0 <= i < |L| ==> L[i] == s[p + i];
    if q == p {
      if p < e {
        assert !IsBody(s[p]) && s[p] != '\n';
        assert IsMark(L[0]) && !IsBody(L[0]);
      }
    } else if q == |s| {
      assert e == |s|;
      assert forall i :: 0 <= i < |L| ==> IsBody(L[i]);
    } else if s[q] == '\n' {
      assert e == q;
      assert forall i :: 0 <= i < |L| ==> IsBody(L[i]);
    } else if q + 1 == |s| {
      assert IsMark(s[q]);
      assert e == |s|;
      assert L[|L| - 1] == s[q];
    } else if s[q + 1] == '\n' {
      assert IsMark(s[q]);
      assert e == q + 1;
      assert L[|L| - 1] == s[q];
    } else {
      assert IsMark(s[q]);
      assert q + 1 < e;
      assert q - p < |L| - 1 && !IsBody(L[q - p]);
    }
  }

  /** A line that does not match from its first character has the same
      final fragment as the line without that character. */
  lemma LineFragmentTail(line: string)
    requires line != [] && !IsFragment(line)
    ensures LineFragment(line) == LineFragment(line[1..])
  {
  }

  function Fragments(f: Option<string>): seq<string>
  {
    match f case Some(t) => [t] case None => []
  }

  lemma LineFragmentsCons(line: string, rest: seq<string>)
    ensures LineFragments([line] + rest) == Fragments(LineFragment(line)) + LineFragments(rest)
  {
    assert ([line] + rest)[1..] == rest;
  }

  /** The lines of `u`: its first line, then the lines after the first
      newline. */
  lemma LinesOf(u: string, i: nat)
    requires i == IndexOf(u, '\n')
    ensures LineFragments(Split(u, '\n')) ==
              Fragments(LineFragment(u[..i])) +
              (if i == |u| then [] else LineFragments(Split(u[i + 1..], '\n')))
  {
    SplitFirst(u, '\n');
    LineFragmentsCons(u[..i], if i == |u| then [] else Split(u[i + 1..], '\n'));
  }

  /** The lines of `s[p..]`: the rest of the current line, which ends at
      `e`, then the lines after its newline. */
  lemma LinesFrom(s: string, p: nat, e: nat)
    requires p <= |s| && e == LineEnd(s, p)
    ensures LineFragments(Split(s[p..], '\n')) ==
              Fragments(LineFragment(s[p..e])) +
              (if e == |s| then [] else LineFragments(Split(s[e + 1..], '\n')))
  {
    var i := IndexOf(s[p..], '\n');
    LinesOf(s[p..], i);
    LinesOfSuffix(s, p, e, i);
  }

  /** `LinesOf` for the suffix `s[p..]`, put in terms of `s`. */
  lemma LinesOfSuffix(s: string, p: nat, e: nat, i: nat)
    requires p + i <= |s| && e == p + i
    requires LineFragments(Split(s[p..], '\n')) ==
               Fragments(LineFragment(s[p..][..i])) +
               (if i == |s[p..]| then [] else LineFragments(Split(s[p..][i + 1..], '\n')))
    ensures LineFragments(Split(s[p..], '\n')) ==
              Fragments(LineFragment(s[p..e])) +
              (if e == |s| then [] else LineFragments(Split(s[e + 1..], '\n')))
  {
    SliceOfSuffix(s, p, i, e);
    SameRest(s, p, e, i);
    SameLines(LineFragments(Split(s[p..], '\n')), s[p..][..i], s[p..e],
              if i == |s[p..]| then [] else LineFragments(Split(s[p..][i + 1..], '\n')),
              if e == |s| then [] else LineFragments(Split(s[e + 1..], '\n')));
  }

  /** The lines after the first newline of `s[p..]` are those after `e`.
      Kept apart so that `LinesOfSuffix` stays small. */
  lemma SameRest(s: string, p: nat, e: nat, i: nat)
    requires p + i <= |s| && e == p + i
    ensures (if i == |s[p..]| then [] else LineFragments(Split(s[p..][i + 1..], '\n'))) ==
            (if e == |s| then [] else LineFragments(Split(s[e + 1..], '\n')))
  {
    if e < |s| {
      SuffixOfSuffix(s, p, i + 1, e + 1);
      SameLinesOf(s[p..][i + 1..], s[e + 1..]);
    }
  }

  /** Equal texts have equal line fragments. A plain substitution, stated
      on variables so that the solver does not unfold `Split` on both sides. */
  lemma SameLinesOf(x: string, y: string)
    requires x == y
    ensures LineFragments(Split(x, '\n')) == LineFragments(Split(y, '\n'))
  {
  }

  /** A prefix of a suffix is a slice of `s`. */
  lemma SliceOfSuffix(s: string, p: nat, i: nat, e: nat)
    requires p + i <= |s| && e == p + i
    ensures s[p..][..i] == s[p..e]
  {
    assert |s[p..][..i]| == i;
    assert forall j :: 0 <= j < i ==> s[p..][..i][j] == s[p + j];
  }

  /** A suffix of a suffix is a suffix of `s`. */
  lemma SuffixOfSuffix(s: string, p: nat, i: nat, q: nat)
    requires p + i <= |s| && q == p + i
    ensures s[p..][i..] == s[q..]
  {
    assert |s[p..][i..]| == |s| - q;
    assert forall j :: 0 <= j < |s| - q ==> s[p..][i..][j] == s[q + j];
  }

  /** A plain substitution, stated on variables for the same reason. */
  lemma SameLines(all: seq<string>, line: string, line': string, rest: seq<string>, rest': seq<string>)
    requires all == Fragments(LineFragment(line)) + rest
    requires line == line' && rest == rest'
    ensures all == Fragments(LineFragment(line')) + rest'
  {
  }

  lemma LinesFromNext(s: string, p: nat)
    requires p < |s| && MatchAt(s, p).None?
    ensures LineFragments(Split(s[p..], '\n')) == LineFragments(Split(s[p + 1..], '\n'))
  {
    if s[p] == '\n' {
      LinesFromNewline(s, p);
    } else {
      MatchAtLine(s, p, LineEnd(s, p));
      LinesFromInside(s, p);
    }
  }

  lemma LinesFromNewline(s: string, p: nat)
    requires p < |s| && s[p] == '\n'
    ensures LineFragments(Split(s[p..], '\n')) == LineFragments(Split(s[p + 1..], '\n'))
  {
    assert LineEnd(s, p) == p;
    LinesFrom(s, p, p);
    EmptyLineFragments(LineFragments(Split(s[p..], '\n')), s[p..p], LineFragments(Split(s[p + 1..], '\n')));
  }

  /** An empty line adds no fragment. Stated on variables so that
      `LinesFromNewline` does not unfold the lines of `s` again. */
  lemma EmptyLineFragments(all: seq<string>, line: string, rest: seq<string>)
    requires line == [] && all == Fragments(LineFragment(line)) + rest
    ensures all == rest
  {
    assert Fragments(LineFragment(line)) == [];
  }

  lemma LineEndNext(s: string, p: nat)
    requires p < |s| && s[p] != '\n'
    ensures LineEnd(s, p + 1) == LineEnd(s, p)
  {
  }

  lemma LinesFromInside(s: string, p: nat)
    requires p <= |s|
    requires p < LineEnd(s, p) && !IsFragment(s[p..LineEnd(s, p)])
    ensures LineFragments(Split(s[p..], '\n')) == LineFragments(Split(s[p + 1..], '\n'))
  {
    var e := LineEnd(s, p);
    var line := s[p..e];
    var line' := s[p + 1..e];
    assert line[1..] == line';
    LineFragmentTail(line);
    LinesFrom(s, p, e);
    LineEndNext(s, p);
    LinesFrom(s, p + 1, e);
  }

  /** The scan takes the match at `p` and resumes where it ends. */
  lemma ScanTakes(s: string, p: nat, m: nat)
    requires p < |s| && MatchAt(s, p) == Some(m)
    ensures Scan(s, p) == [s[p..m]] + Scan(s, m)
  {
  }

  /** A line from `p` to `e` that the pattern matches whole: the scan takes
      it, newline included when there is one. */
  lemma ScanMatchedLine(s: string, p: nat, e: nat)
    requires p < |s| && e == LineEnd(s, p)
    requires MatchAt(s, p).Some?
    requires e < |s| ==> AgreesFrom(s, e + 1)
    ensures AgreesFrom(s, p)
  {
    MatchAtLine(s, p, e);
    var m := MatchAt(s, p).value;
    var line := s[p..e];
    LinesFrom(s, p, e);
    assert LineFragment(line) == Some(line);
    ScanTakes(s, p, m);
    if e == |s| {
      ScanMatchedLastLine(s, p, m);
    } else {
      ScanMatchedInnerLine(s, p, e, m);
    }
  }

  lemma ScanMatchedLastLine(s: string, p: nat, m: nat)
    requires p < m == |s|
    ensures TrimAll([s[p..m]] + Scan(s, m)) == TrimAll([s[p..m]])
  {
    assert Scan(s, m) == [];
    assert [s[p..m]] + [] == [s[p..m]];
  }

  lemma ScanMatchedInnerLine(s: string, p: nat, e: nat, m: nat)
    requires p <= e < |s| && m == e + 1 && s[e] == '\n'
    requires TrimAll(Scan(s, m)) == TrimAll(LineFragments(Split(s[m..], '\n')))
    ensures TrimAll([s[p..m]] + Scan(s, m)) ==
            TrimAll([s[p..e]] + LineFragments(Split(s[e + 1..], '\n')))
  {
    SliceExtend(s, p, e);
    TrimAllNewlineLine(s[p..e], Scan(s, m), LineFragments(Split(s[m..], '\n')));
  }

  /** A slice grown by one character. Kept apart to keep
      `ScanMatchedInnerLine` small. */
  lemma SliceExtend(s: string, p: nat, e: nat)
    requires p <= e < |s|
    ensures s[p..e + 1] == s[p..e] + [s[e]]
  {
  }

  /** A line taken with its newline trims like the line alone. */
  lemma TrimAllNewlineLine(line: string, ms: seq<string>, ts: seq<string>)
    requires TrimAll(ms) == TrimAll(ts)
    ensures TrimAll([line + ['\n']] + ms) == TrimAll([line] + ts)
  {
    TrimAppendWhiteSpace(line, '\n');
    TrimAllConcat([line + ['\n']], ms);
    TrimAllConcat([line], ts);
  }

  /** The scan from `p` agrees, after trimming, with the line fragments of
      `s[p..]`. */
  ghost predicate AgreesFrom(s: string, p: nat)
    requires p <= |s|
  {
    TrimAll(Scan(s, p)) == TrimAll(LineFragments(Split(s[p..], '\n')))
  }

  /** The scan from any position `p` agrees, after trimming, with the line
      fragments of `s[p..]`. */
  lemma ScanByLine(s: string, p: nat)
    requires p <= |s|
    ensures TrimAll(Scan(s, p)) == TrimAll(LineFragments(Split(s[p..], '\n')))
  {
    ScanAgrees(s, p);
  }

  lemma {:induction false} ScanAgrees(s: string, p: nat)
    requires p <= |s|
    ensures AgreesFrom(s, p)
    decreases |s| - p
  {
    if p == |s| {
      ScanAtEnd(s);
    } else {
      var next := NextStart(s, p);
      if next <= |s| {
        ScanAgrees(s, next);
      }
      ScanStep(s, p);
    }
  }

  /** Where the scan and the lines go on after position `p`: past the end
      of the line when a match starts at `p`, else the next position. */
  function NextStart(s: string, p: nat): (q: nat)
    requires p < |s|
    ensures p < q
  {
    if MatchAt(s, p).Some? then LineEnd(s, p) + 1 else p + 1
  }

  /** One step of the induction behind `ScanByLine`. */
  lemma ScanStep(s: string, p: nat)
    requires p < |s|
    requires NextStart(s, p) <= |s| ==> AgreesFrom(s, NextStart(s, p))
    ensures AgreesFrom(s, p)
  {
    if MatchAt(s, p).Some? {
      ScanMatchedNext(s, p);
    } else {
      ScanSkipped(s, p);
    }
  }

  /** At the end of the text both sides are empty. */
  lemma ScanAtEnd(s: string)
    ensures AgreesFrom(s, |s|)
  {
    assert s[|s|..] == [];
  }

  /** The matched case of `ScanStep`, with the induction hypothesis put
      as `ScanMatchedLine` takes it. */
  lemma ScanMatchedNext(s: string, p: nat)
    requires p < |s| && MatchAt(s, p).Some?
    requires NextStart(s, p) <= |s| ==> AgreesFrom(s, NextStart(s, p))
    ensures AgreesFrom(s, p)
  {
    var e := LineEnd(s, p);
    assert NextStart(s, p) == e + 1;
    if e < |s| {
      assert AgreesFrom(s, e + 1);
    }
    ScanMatchedLine(s, p, e);
  }

  /** A position where no match starts adds nothing to either side. */
  lemma ScanSkipped(s: string, p: nat)
    requires p < |s| && MatchAt(s, p).None?
    requires NextStart(s, p) <= |s| ==> AgreesFrom(s, NextStart(s, p))
    ensures AgreesFrom(s, p)
  {
    assert NextStart(s, p) == p + 1;
    LinesFromNext(s, p);
    assert Scan(s, p) == Scan(s, p + 1);
  }

  /** The segmenter keeps, of every line, only its final fragment: it
      agrees with the line-by-line reference definition. */
  lemma SegmentsAreLineFragments(text: string)
    ensures SplitScriptToSentences(text) == SentencesByLine(text)
  {
    ScanByLine(text, 0);
    assert text[0..] == text;
  }

  /** At most one sentence per line. */
  lemma AtMostOnePerLine(text: string)
    ensures |SplitScriptToSentences(text)| <= |Split(text, '\n')|
  {
    SegmentsAreLineFragments(text);
  }

  // ---------------------------------------------------------------------
  // The shape of every sentence.

  /** What every raw match looks like: a newline only as its last
      character, and a mark only as its last character or right before a
      final newline. Its characters come from `s`. */
  ghost predicate RawShape(m: string)
  {
    m != [] &&
    forall i :: 0 <= i < |m| ==>
      (m[i] == '\n' ==> i == |m| - 1) &&
      (IsMark(m[i]) ==> i == |m| - 1 || (i == |m| - 2 && m[|m| - 1] == '\n'))
  }

  lemma {:induction false} ScanShape(s: string, p: nat)
    requires p <= |s|
    ensures forall m :: m in Scan(s, p) ==> RawShape(m)
    ensures forall m, c :: m in Scan(s, p) && c in m ==> c in s
    decreases |s| - p
  {
    if p < |s| {
      match MatchAt(s, p)
      case Some(e) =>
        ScanShape(s, e);
        var m := s[p..e];
        var q := RunEnd(s, p);
        assert forall i :: 0 <= i < |m| ==> m[i] == s[p + i];
        assert forall i :: 0 <= i < q - p ==> IsBody(m[i]);
        assert RawShape(m);
        assert forall c :: c in m ==> c in s;
        assert Scan(s, p) == [m] + Scan(s, e);
      case None =>
        ScanShape(s, p + 1);
    }
  }

  /** What every sentence looks like: not empty, no white space at either
      end, no newline, and at most one of `.`, `!`, `?`, only as its last
      character. */
  predicate SentenceShape(t: string)
  {
    t != [] && !IsWhiteSpace(t[0]) && !IsWhiteSpace(t[|t| - 1]) &&
    (forall i :: 0 <= i < |t| ==> t[i] != '\n') &&
    (forall i :: 0 <= i < |t| - 1 ==> !IsMark(t[i]))
  }

  lemma TrimRawShape(m: string)
    requires RawShape(m)
    requires Trim(m) != []
    ensures SentenceShape(Trim(m))
  {
    var t := Trim(m);
    var a := TrimStartIndex(m);
    var b := a + |t|;
    assert forall j :: 0 <= j < |t| ==> t[j] == m[a + j];
    assert m[b - 1] == t[|t| - 1];
    assert IsWhiteSpace('\n');
    assert m[|m| - 1] == '\n' ==> b <= |m| - 1;
    forall j | 0 <= j < |t| ensures t[j] != '\n' {
      assert t[j] == m[a + j];
    }
    forall j | 0 <= j < |t| - 1 ensures !IsMark(t[j]) {
      assert t[j] == m[a + j];
    }
  }

  lemma SentencesHaveShape(text: string)
    ensures forall t :: t in SplitScriptToSentences(text) ==> SentenceShape(t)
  {
    ScanShape(text, 0);
    var ms := Scan(text, 0);
    forall t | t in SplitScriptToSentences(text) ensures SentenceShape(t) {
      assert t in TrimAll(ms) && t != [];
      var i :| 0 <= i < |ms| && TrimAll(ms)[i] == t;
      assert ms[i] in ms;
      TrimRawShape(ms[i]);
    }
  }

  /** An empty or all-white-space script has no sentences. */
  lemma BlankScriptHasNoSentences(text: string)
    requires AllWhiteSpace(text)
    ensures SplitScriptToSentences(text) == []
  {
    ScanShape(text, 0);
    var ms := Scan(text, 0);
    forall i | 0 <= i < |ms| ensures Trim(ms[i]) == [] {
      assert ms[i] in ms;
      assert AllWhiteSpace(ms[i]) by {
        forall j | 0 <= j < |ms[i]| ensures IsWhiteSpace(ms[i][j]) {
          assert ms[i][j] in ms[i];
          var k :| 0 <= k < |text| && text[k] == ms[i][j];
        }
      }
    }
    NonEmptyOfBlanks(TrimAll(ms));
  }
}
