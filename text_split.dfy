/** Splitting a text at the case-insensitive occurrences of a search phrase,
    so that the matched parts can be emphasised when search results are
    shown.

    A window as long as the phrase slides over the text one character at a
    time.  Whenever the window equals the phrase ignoring case, two pieces
    are emitted: the text since the previous split point, then the matched
    window.  The window is never emptied after a match, so overlapping
    matches are both reported.  If the window ending at the last character
    does not match, the rest of the text after the last match is emitted. */
module TextSplit {

  /** ASCII lower-casing of one character. */
  function LowerChar(c: char): (r: char)
    ensures 'A' <= c <= 'Z' ==> r as int == c as int + 32
    ensures !('A' <= c <= 'Z') ==> r == c
  {
    if 'A' <= c <= 'Z' then (c as int + 32) as char else c
  }

  /** `s.lower()`, character by character. */
  function Lower(s: string): (r: string)
    ensures |r| == |s|
  {
    if s == [] then [] else [LowerChar(s[0])] + Lower(s[1..])
  }

  /** Equality after lower-casing, compared character by character. */
  predicate EqualIgnoringCase(a: string, b: string)
  {
    |a| == |b| && (a == [] || (LowerChar(a[0]) == LowerChar(b[0]) && EqualIgnoringCase(a[1..], b[1..])))
  }

  /** Comparing the lower-cased strings is comparing them ignoring case. */
  lemma {:induction false} LowerEqualIffEqualIgnoringCase(a: string, b: string)
    ensures Lower(a) == Lower(b) <==> EqualIgnoringCase(a, b)
  {
    if |a| == |b| && a != [] {
      LowerEqualIffEqualIgnoringCase(a[1..], b[1..]);
      var la, lb := Lower(a), Lower(b);
      assert la[0] == LowerChar(a[0]) && la[1..] == Lower(a[1..]);
      assert lb[0] == LowerChar(b[0]) && lb[1..] == Lower(b[1..]);
    }
  }

  /** `s[lo:hi]` for indices inside the string: empty when `lo` is past `hi`. */
  function Slice(s: string, lo: int, hi: int): (r: string)
    requires 0 <= lo <= |s| && 0 <= hi <= |s|
    ensures |r| == if lo <= hi then hi - lo else 0
    ensures lo <= hi ==> r == s[lo..hi]
  {
    if lo <= hi then s[lo..hi] else []
  }

  /** The window that ends at index `i` is full and equals `substr` ignoring case. */
  predicate WindowMatches(substr: string, text: string, i: int)
    requires 0 <= i < |text|
  {
    |substr| <= i + 1 && EqualIgnoringCase(text[i + 1 - |substr|..i + 1], substr)
  }

  /** The pieces emitted so far and the current split point. */
  datatype SplitState = SplitState(pieces: seq<string>, cut: nat)

  /** What one iteration of the scan does when it reaches index `i`. */
  function StepAt(substr: string, text: string, i: nat, st: SplitState): (r: SplitState)
    requires i < |text| && st.cut <= i
    ensures r.cut <= i + 1
  {
    if WindowMatches(substr, text, i) then
      var left := i + 1 - |substr|;
      SplitState(st.pieces + [Slice(text, st.cut, left), text[left..i + 1]], i + 1)
    else if i == |text| - 1 && |substr| <= i + 1 then
      SplitState(st.pieces + [text[st.cut..]], st.cut)
    else
      st
  }

  /** The state after the first `n` characters of `text` have been scanned. */
  function Scan(substr: string, text: string, n: nat): (r: SplitState)
    requires n <= |text|
    ensures r.cut <= n
    decreases n
  {
    if n == 0 then SplitState([], 0)
    else StepAt(substr, text, n - 1, Scan(substr, text, n - 1))
  }

  /** The pieces `split_text_at_substring_occurrences(substr, text)` returns. */
  function Split(substr: string, text: string): seq<string>
  {
    Scan(substr, text, |text|).pieces
  }

  /** Number of matching windows ending before index `n`. */
  function MatchCount(substr: string, text: string, n: nat): nat
    requires n <= |text|
  {
    if n == 0 then 0
    else MatchCount(substr, text, n - 1) + (if WindowMatches(substr, text, n - 1) then 1 else 0)
  }

  /** The scan ends with the unmatched tail: the text is at least as long as
      the phrase and the window on its last character does not match. */
  predicate HasTail(substr: string, text: string)
  {
    0 < |text| && |substr| <= |text| && !WindowMatches(substr, text, |text| - 1)
  }

  /** No two matching windows share a character. */
  predicate NonOverlapping(substr: string, text: string)
  {
    forall i, j :: 0 <= i < j < |text| && WindowMatches(substr, text, i) && WindowMatches(substr, text, j) ==>
      j - i >= |substr|
  }

  /** The pieces glued back together. */
  function Concat(pieces: seq<string>): string
  {
    if pieces == [] then [] else Concat(pieces[..|pieces| - 1]) + pieces[|pieces| - 1]
  }

  /** The loop of `split_text_at_substring_occurrences`.  The sliding window
      is kept in `charSeq` and is always `Window(substr, text, i)`; each
      branch of the body is justified by one `ScanStep` lemma. */
  method SplitTextAtSubstringOccurrences(substr: string, text: string) returns (textSplit: seq<string>)
    ensures textSplit == Split(substr, text)
  {
    var charSeq: seq<char> := [];
    var currentSplitPoint: nat := 0;
    textSplit := [];
    for i := 0 to |text|
      invariant charSeq == Window(substr, text, i)
      invariant SplitState(textSplit, currentSplitPoint) == Scan(substr, text, i)
    {
      charSeq := charSeq + [text[i]];
      if |charSeq| < |substr| {
        ScanStepBeforeFull(substr, text, i);
        continue;
      }
      if |charSeq| > |substr| {
        charSeq := charSeq[1..];
      }
      var currentSubstr := charSeq;
      if Lower(currentSubstr) == Lower(substr) {
        ScanStepOnMatch(substr, text, i, textSplit, currentSplitPoint);
        var leftSplitPoint := i - (|substr| - 1);
        textSplit := textSplit + [Slice(text, currentSplitPoint, leftSplitPoint)];
        currentSplitPoint := i + 1;
        textSplit := textSplit + [text[leftSplitPoint..currentSplitPoint]];
      } else if i == |text| - 1 {
        ScanStepOnTail(substr, text, i, textSplit, currentSplitPoint);
        textSplit := textSplit + [text[currentSplitPoint..]];
      } else {
        ScanStepOnMiss(substr, text, i);
      }
    }
  }

  /** `char_seq` after one character: appended, then the oldest character
      dropped once the window is longer than the phrase. */
  function Push(window: string, c: char, size: nat): string
  {
    var grown := window + [c];
    if |grown| > size then grown[1..] else grown
  }

  /** The sliding window after the first `n` characters of `text`. */
  function Window(substr: string, text: string, n: nat): string
    requires n <= |text|
  {
    if n == 0 then [] else Push(Window(substr, text, n - 1), text[n - 1], |substr|)
  }

  /** The window holds the last `|substr|` characters read, or all of them
      while fewer have been read. */
  lemma {:induction false} WindowIsSuffix(substr: string, text: string, n: nat)
    requires n <= |text|
    ensures Window(substr, text, n) == text[if n < |substr| then 0 else n - |substr|..n]
  {
    if n > 0 {
      WindowIsSuffix(substr, text, n - 1);
    }
  }

  /** The window grows by one per character until it is as long as the phrase. */
  lemma {:induction false} WindowLength(substr: string, text: string, n: nat)
    requires n <= |text|
    ensures |Window(substr, text, n)| == if n < |substr| then n else |substr|
  {
    if n > 0 {
      WindowLength(substr, text, n - 1);
    }
  }

  /** Comparing the full window with the phrase is testing `WindowMatches`. */
  lemma WindowTest(substr: string, text: string, i: nat)
    requires i < |text| && |Window(substr, text, i + 1)| >= |substr|
    ensures |substr| <= i + 1
    ensures Lower(Window(substr, text, i + 1)) == Lower(substr) <==> WindowMatches(substr, text, i)
  {
    WindowIsSuffix(substr, text, i + 1);
    LowerEqualIffEqualIgnoringCase(Window(substr, text, i + 1), substr);
  }

  /** While the window is not yet full, a step changes nothing. */
  lemma ScanStepBeforeFull(substr: string, text: string, i: nat)
    requires i < |text| && |Window(substr, text, i + 1)| < |substr|
    ensures Scan(substr, text, i + 1) == Scan(substr, text, i)
  {
    WindowLength(substr, text, i + 1);
    assert i + 1 < |substr|;
    assert !WindowMatches(substr, text, i);
    assert Scan(substr, text, i + 1) == StepAt(substr, text, i, Scan(substr, text, i));
  }

  /** A matching window emits the gap and the window and moves the split point past it. */
  lemma ScanStepOnMatch(substr: string, text: string, i: nat, pieces: seq<string>, cut: nat)
    requires i < |text| && |Window(substr, text, i + 1)| >= |substr|
    requires Lower(Window(substr, text, i + 1)) == Lower(substr)
    requires SplitState(pieces, cut) == Scan(substr, text, i)
    ensures |substr| <= i + 1 && cut <= |text|
    ensures SplitState(pieces + [Slice(text, cut, i - (|substr| - 1))] + [text[i - (|substr| - 1)..i + 1]], i + 1)
         == Scan(substr, text, i + 1)
  {
    WindowTest(substr, text, i);
    assert Scan(substr, text, i + 1) == StepAt(substr, text, i, Scan(substr, text, i));
    var gap, hit := Slice(text, cut, i - (|substr| - 1)), text[i - (|substr| - 1)..i + 1];
    assert pieces + [gap] + [hit] == pieces + [gap, hit];
  }

  /** A miss on the last character appends the rest of the text. */
  lemma ScanStepOnTail(substr: string, text: string, i: nat, pieces: seq<string>, cut: nat)
    requires i == |text| - 1 && |Window(substr, text, i + 1)| >= |substr|
    requires Lower(Window(substr, text, i + 1)) != Lower(substr)
    requires SplitState(pieces, cut) == Scan(substr, text, i)
    ensures cut <= |text| && SplitState(pieces + [text[cut..]], cut) == Scan(substr, text, i + 1)
  {
    WindowTest(substr, text, i);
    assert Scan(substr, text, i + 1) == StepAt(substr, text, i, Scan(substr, text, i));
  }

  /** A miss before the last character changes nothing. */
  lemma ScanStepOnMiss(substr: string, text: string, i: nat)
    requires i < |text| - 1 && |Window(substr, text, i + 1)| >= |substr|
    requires Lower(Window(substr, text, i + 1)) != Lower(substr)
    ensures Scan(substr, text, i + 1) == Scan(substr, text, i)
  {
    WindowTest(substr, text, i);
    assert Scan(substr, text, i + 1) == StepAt(substr, text, i, Scan(substr, text, i));
  }

  /** Each match contributes two pieces, the tail one more. */
  lemma {:induction false} ScanLength(substr: string, text: string, n: nat)
    requires n <= |text|
    ensures |Scan(substr, text, n).pieces|
         == 2 * MatchCount(substr, text, n) + (if n == |text| && HasTail(substr, text) then 1 else 0)
  {
    if n > 0 {
      ScanLength(substr, text, n - 1);
    }
  }

  /** The result has `2k` pieces, or `2k + 1` when the tail is appended,
      where `k` is the number of matching windows. */
  lemma SplitLength(substr: string, text: string)
    ensures |Split(substr, text)| == 2 * MatchCount(substr, text, |text|) + (if HasTail(substr, text) then 1 else 0)
  {
    ScanLength(substr, text, |text|);
  }

  /** Every odd-indexed piece is as long as the phrase and equals it ignoring case. */
  lemma {:induction false} ScanOddPieces(substr: string, text: string, n: nat)
    requires n <= |text|
    ensures forall j :: 0 <= j < |Scan(substr, text, n).pieces| && j % 2 == 1 ==>
      |Scan(substr, text, n).pieces[j]| == |substr| && EqualIgnoringCase(Scan(substr, text, n).pieces[j], substr)
  {
    if n > 0 {
      var i := n - 1;
      var st := Scan(substr, text, i);
      var pieces := Scan(substr, text, n).pieces;
      assert Scan(substr, text, n) == StepAt(substr, text, i, st);
      ScanOddPieces(substr, text, i);
      ScanLength(substr, text, i);
      assert |st.pieces| % 2 == 0;
      assert st.pieces == pieces[..|st.pieces|];
      forall j | 0 <= j < |pieces| && j % 2 == 1
        ensures |pieces[j]| == |substr| && EqualIgnoringCase(pieces[j], substr)
      {
        if j < |st.pieces| {
          assert pieces[j] == st.pieces[j];
        } else {
          assert WindowMatches(substr, text, i) && j == |st.pieces| + 1;
          assert pieces[j] == text[i + 1 - |substr|..i + 1];
        }
      }
    }
  }

  lemma OddPiecesMatch(substr: string, text: string)
    ensures forall j :: 0 <= j < |Split(substr, text)| && j % 2 == 1 ==>
      |Split(substr, text)[j]| == |substr| && Lower(Split(substr, text)[j]) == Lower(substr)
  {
    ScanOddPieces(substr, text, |text|);
    forall j | 0 <= j < |Split(substr, text)| && j % 2 == 1
      ensures Lower(Split(substr, text)[j]) == Lower(substr)
    {
      LowerEqualIffEqualIgnoringCase(Split(substr, text)[j], substr);
    }
  }

  /** No character has been reached at which a window is full. */
  lemma {:induction false} ShortScanIsEmpty(substr: string, text: string, n: nat)
    requires n <= |text| && |text| < |substr|
    ensures Scan(substr, text, n) == SplitState([], 0)
  {
    if n > 0 {
      ShortScanIsEmpty(substr, text, n - 1);
    }
  }

  /** A text shorter than the phrase, the empty text among them, gives no pieces. */
  lemma ShortTextGivesNothing(substr: string, text: string)
    requires |text| < |substr|
    ensures Split(substr, text) == []
  {
    ShortScanIsEmpty(substr, text, |text|);
  }

  /** No match is counted exactly when no window matches. */
  lemma {:induction false} NoMatchCountZero(substr: string, text: string, n: nat)
    requires n <= |text|
    ensures MatchCount(substr, text, n) == 0 <==> forall i :: 0 <= i < n ==> !WindowMatches(substr, text, i)
  {
    if n > 0 {
      NoMatchCountZero(substr, text, n - 1);
      if WindowMatches(substr, text, n - 1) {
        assert MatchCount(substr, text, n) > 0;
      } else {
        assert MatchCount(substr, text, n) == MatchCount(substr, text, n - 1);
        assert (forall i :: 0 <= i < n ==> !WindowMatches(substr, text, i))
           <==> (forall i :: 0 <= i < n - 1 ==> !WindowMatches(substr, text, i));
      }
    }
  }

  /** Before the last character, a scan without matches has emitted nothing. */
  lemma {:induction false} UnmatchedScanIsEmpty(substr: string, text: string, n: nat)
    requires n < |text|
    requires forall i :: 0 <= i < n ==> !WindowMatches(substr, text, i)
    ensures Scan(substr, text, n) == SplitState([], 0)
  {
    if n > 0 {
      UnmatchedScanIsEmpty(substr, text, n - 1);
    }
  }

  /** The result is the whole text as one piece exactly when the text is
      non-empty, at least as long as the phrase, and no window matches. */
  lemma WholeTextWhenNoMatch(substr: string, text: string)
    ensures Split(substr, text) == [text] <==>
      0 < |text| && |substr| <= |text| && forall i :: 0 <= i < |text| ==> !WindowMatches(substr, text, i)
  {
    SplitLength(substr, text);
    NoMatchCountZero(substr, text, |text|);
    if 0 < |text| && |substr| <= |text| && forall i :: 0 <= i < |text| ==> !WindowMatches(substr, text, i) {
      UnmatchedScanIsEmpty(substr, text, |text| - 1);
      assert text[0..] == text;
    }
  }

  /** When the window on the last character matches, no tail follows: the
      result ends with that window and has an even number of pieces. */
  lemma FinalMatchEndsWithWindow(substr: string, text: string)
    requires 0 < |text| && WindowMatches(substr, text, |text| - 1)
    ensures |Split(substr, text)| % 2 == 0 && 2 <= |Split(substr, text)|
    ensures Split(substr, text)[|Split(substr, text)| - 1] == text[|text| - |substr|..]
  {
    SplitLength(substr, text);
  }

  /** The tail is appended (the count is odd) exactly in the `HasTail` case. */
  lemma OddLengthIffTail(substr: string, text: string)
    ensures |Split(substr, text)| % 2 == 1 <==> HasTail(substr, text)
  {
    SplitLength(substr, text);
  }

  /** Gluing distributes over concatenation of the piece lists. */
  lemma {:induction false} ConcatAppend(pieces: seq<string>, extra: seq<string>)
    ensures Concat(pieces + extra) == Concat(pieces) + Concat(extra)
    decreases |extra|
  {
    if extra == [] {
      assert pieces + extra == pieces;
    } else {
      var init, last := extra[..|extra| - 1], extra[|extra| - 1];
      assert (pieces + extra)[..|pieces + extra| - 1] == pieces + init;
      ConcatAppend(pieces, init);
      assert Concat(extra) == Concat(init) + last;
      assert Concat(pieces) + Concat(init) + last == Concat(pieces) + (Concat(init) + last);
    }
  }

  /** The split point is 0 or just past a matching window. */
  lemma {:induction false} CutFollowsMatch(substr: string, text: string, n: nat)
    requires n <= |text|
    ensures Scan(substr, text, n).cut == 0 || WindowMatches(substr, text, Scan(substr, text, n).cut - 1)
  {
    if n > 0 {
      CutFollowsMatch(substr, text, n - 1);
    }
  }

  lemma ConcatTwo(a: string, b: string)
    ensures Concat([a, b]) == a + b
  {
    assert [a][..0] == [];
    assert Concat([a]) == a;
    assert [a, b][..1] == [a];
  }

  /** A matching window, preceded by the gap since the split point, extends
      the spelled prefix to the end of the window. */
  lemma MatchStepConcat(substr: string, text: string, i: nat, st: SplitState)
    requires i < |text| && st.cut <= i && WindowMatches(substr, text, i)
    requires st.cut <= i + 1 - |substr|
    requires Concat(st.pieces) == text[..st.cut]
    ensures Concat(StepAt(substr, text, i, st).pieces) == text[..i + 1]
  {
    var left := i + 1 - |substr|;
    var gap, hit := text[st.cut..left], text[left..i + 1];
    assert StepAt(substr, text, i, st).pieces == st.pieces + [gap, hit];
    ConcatAppend(st.pieces, [gap, hit]);
    ConcatTwo(gap, hit);
    assert text[..st.cut] + gap + hit == text[..i + 1];
  }

  /** The tail completes the spelled prefix to the whole text. */
  lemma TailStepConcat(substr: string, text: string, st: SplitState)
    requires 0 < |text| && st.cut <= |text| - 1 && HasTail(substr, text)
    requires Concat(st.pieces) == text[..st.cut]
    ensures Concat(StepAt(substr, text, |text| - 1, st).pieces) == text
  {
    assert StepAt(substr, text, |text| - 1, st).pieces == st.pieces + [text[st.cut..]];
    ConcatAppend(st.pieces, [text[st.cut..]]);
    assert [text[st.cut..]][..0] == [];
    assert text[..st.cut] + text[st.cut..] == text;
  }

  /** Without overlapping matches, the pieces so far spell the text up to
      the split point, or the whole text once the tail is appended. */
  lemma {:induction false} ScanConcat(substr: string, text: string, n: nat)
    requires n <= |text| && NonOverlapping(substr, text)
    ensures Concat(Scan(substr, text, n).pieces)
         == if n == |text| && HasTail(substr, text) then text else text[..Scan(substr, text, n).cut]
  {
    if n > 0 {
      var i := n - 1;
      var st := Scan(substr, text, i);
      assert Scan(substr, text, n) == StepAt(substr, text, i, st);
      ScanConcat(substr, text, i);
      if WindowMatches(substr, text, i) {
        CutFollowsMatch(substr, text, i);
        assert st.cut <= i + 1 - |substr| by {
          if st.cut > 0 {
            assert WindowMatches(substr, text, st.cut - 1);
          }
        }
        MatchStepConcat(substr, text, i, st);
      } else if i == |text| - 1 && |substr| <= i + 1 {
        TailStepConcat(substr, text, st);
      }
    }
  }

  /** For a text at least as long as the phrase and matches that do not
      overlap, the pieces concatenate back to the text. */
  lemma ConcatRestoresText(substr: string, text: string)
    requires |substr| <= |text| && NonOverlapping(substr, text)
    ensures Concat(Split(substr, text)) == text
  {
    ScanConcat(substr, text, |text|);
    if !HasTail(substr, text) && 0 < |text| {
      assert Scan(substr, text, |text|).cut == |text|;
    }
  }

  /** Overlapping matches are both reported: the window is not reset, and
      the slice between them (`text[2:1]`) is empty. */
  lemma OverlappingMatchesBothEmitted()
    ensures Split("aa", "aaa") == ["", "aa", "", "aa"]
  {
    assert WindowMatches("aa", "aaa", 1) && WindowMatches("aa", "aaa", 2);
    assert !WindowMatches("aa", "aaa", 0);
    assert Scan("aa", "aaa", 1) == SplitState([], 0);
    assert Slice("aaa", 0, 0) == "" && "aaa"[0..2] == "aa";
    assert Scan("aa", "aaa", 2) == SplitState(["", "aa"], 2);
    assert Slice("aaa", 2, 1) == "" && "aaa"[1..3] == "aa";
  }
}
