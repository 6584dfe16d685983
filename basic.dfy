/** The button-driven page (reversestring_basic-MBA/script.js): the reverse button or Enter
    trims the input, ignores it when nothing is left, and otherwise records the trimmed text
    and its reversal at the head of the history at once. There is no duplicate suppression. */
module BasicPage {
  import opened Strings
  import opened History
  import opened Controls

  /** `executeReverse`, as it affects the history. */
  function Executed(h: seq<Entry>, input: JsString, ts: Timestamp): seq<Entry>
  {
    var value := Trim(input);
    if |value| == 0 then h else Push(h, Entry(value, Reverse(value), ts))
  }

  /** The keypress listener: Enter with more than three raw (untrimmed) code units runs
      `executeReverse`; any other key, or a shorter input, does nothing. */
  function KeyPressed(h: seq<Entry>, enter: bool, input: JsString, ts: Timestamp): seq<Entry>
  {
    if enter && |input| > ButtonThreshold then Executed(h, input, ts) else h
  }

  /** A row as `executeReverse` builds it: a trimmed, non-empty text and its reversal. */
  predicate WellFormed(e: Entry)
  {
    e.original != [] && Trim(e.original) == e.original && e.reversed == Reverse(e.original)
  }

  /** What every history this page can reach satisfies. */
  predicate Inv(h: seq<Entry>)
  {
    |h| <= MaxHistory && forall i :: 0 <= i < |h| ==> WellFormed(h[i])
  }

  /** A blank input (empty once trimmed) leaves the history alone; any other input adds
      exactly one row, the trimmed text and its reversal, at the head. */
  lemma {:induction false} ExecutedCommitsTrimmed(h: seq<Entry>, input: JsString, ts: Timestamp)
    ensures AllWhiteSpace(input) ==> Executed(h, input, ts) == h
    ensures !AllWhiteSpace(input) ==>
              Executed(h, input, ts) == Push(h, Entry(Trim(input), Reverse(Trim(input)), ts))
  {
    TrimEmptyIffBlank(input);
  }

  lemma {:induction false} ExecutedPreservesInv(h: seq<Entry>, input: JsString, ts: Timestamp)
    requires Inv(h)
    ensures Inv(Executed(h, input, ts))
  {
    var value := Trim(input);
    if value != [] {
      TrimIdempotent(input);
      var r := Push(h, Entry(value, Reverse(value), ts));
      forall i | 0 <= i < |r|
        ensures WellFormed(r[i])
      {
        if i > 0 {
          assert r[i] == h[i - 1];
        }
      }
    }
  }

  lemma {:induction false} KeyPressedPreservesInv(h: seq<Entry>, enter: bool, input: JsString, ts: Timestamp)
    requires Inv(h)
    ensures Inv(KeyPressed(h, enter, input, ts))
  {
    if enter && |input| > ButtonThreshold {
      ExecutedPreservesInv(h, input, ts);
    }
  }

  /** Nothing suppresses repeats: reversing the same non-blank input twice puts two equal
      rows at the head, above the earlier rows that still fit. */
  lemma {:induction false} NoDuplicateSuppression(h: seq<Entry>, input: JsString, ts: Timestamp)
    requires |h| <= MaxHistory && !AllWhiteSpace(input)
    ensures var twice := Executed(Executed(h, input, ts), input, ts);
            var e := Entry(Trim(input), Reverse(Trim(input)), ts);
            && |twice| == (if |h| + 2 <= MaxHistory then |h| + 2 else MaxHistory)
            && twice[0] == e && twice[1] == e
            && twice[2..] == h[..|twice| - 2]
  {
    var e := Entry(Trim(input), Reverse(Trim(input)), ts);
    ExecutedCommitsTrimmed(h, input, ts);
    var once := Push(h, e);
    PushEvictsOnlyOldest(h, e);
    ExecutedCommitsTrimmed(once, input, ts);
    var twice := Push(once, e);
    forall i | 0 <= i < |twice| - 2
      ensures twice[2..][i] == h[i]
    {
      assert twice[i + 2] == once[i + 1];
    }
  }

  /** Enter is honoured exactly when the button is visible, whatever whitespace the input
      holds; other keys never change the history. */
  lemma {:induction false} EnterMatchesButton(h: seq<Entry>, input: JsString, ts: Timestamp)
    ensures ButtonVisible(input) ==> KeyPressed(h, true, input, ts) == Executed(h, input, ts)
    ensures !ButtonVisible(input) ==> KeyPressed(h, true, input, ts) == h
    ensures KeyPressed(h, false, input, ts) == h
  {
  }

  /** Three spaces and a letter, the letter alone, and four spaces. */
  const PaddedLetter: JsString := [0x20, 0x20, 0x20, 0x61]
  const Letter: JsString := [0x61]
  const FourSpaces: JsString := [0x20, 0x20, 0x20, 0x20]

  lemma {:induction false} TrimPaddedLetter()
    ensures Trim(PaddedLetter) == Letter && Reverse(Letter) == Letter
  {
    LetterIsTrimmed();
    var tail := PaddedLetter[1..][1..];
    assert tail == [0x20] + Letter;
    assert TrimStart(tail) == TrimStart(Letter);
    assert TrimStart(PaddedLetter) == TrimStart(tail);
  }

  lemma {:induction false} LetterIsTrimmed()
    ensures TrimStart(Letter) == Letter && TrimEnd(Letter) == Letter && Reverse(Letter) == Letter
  {
  }

  lemma {:induction false} TrimFourSpaces()
    ensures Trim(FourSpaces) == []
  {
    assert AllWhiteSpace(FourSpaces);
    TrimEmptyIffBlank(FourSpaces);
  }

  /** Because the Enter guard counts raw code units, three spaces and a letter pass it and
      commit a one-letter row, while four spaces pass it and commit nothing. */
  lemma {:induction false} EnterGuardIsUntrimmed(h: seq<Entry>, ts: Timestamp)
    ensures KeyPressed(h, true, PaddedLetter, ts) == Push(h, Entry(Letter, Letter, ts))
    ensures KeyPressed(h, true, FourSpaces, ts) == h
  {
    TrimPaddedLetter();
    TrimFourSpaces();
  }

  /** The page: its module-level `history` array. */
  class Page {
    var history: seq<Entry>

    ghost predicate Valid()
      reads this
    {
      |history| <= MaxHistory
    }

    /** Page load: the history starts empty. */
    constructor ()
      ensures Valid() && Inv(history)
      ensures history == []
    {
      history := [];
    }

    /** `addToHistory`: unshift the new row, and pop the oldest once the list is too long. */
    method AddToHistory(original: JsString, reversed: JsString, ts: Timestamp)
      requires Valid()
      modifies this
      ensures Valid()
      ensures history == Push(old(history), Entry(original, reversed, ts))
    {
      history := [Entry(original, reversed, ts)] + history;
      if |history| > MaxHistory {
        history := history[..|history| - 1];
      }
    }

    /** `executeReverse`: trim, return on an empty result, otherwise commit. */
    method ExecuteReverse(input: JsString, ts: Timestamp)
      requires Valid()
      modifies this
      ensures Valid()
      ensures history == Executed(old(history), input, ts)
      ensures Inv(old(history)) ==> Inv(history)
    {
      ghost var before := history;
      var value := Trim(input);
      if |value| == 0 {
        return;
      }
      var reversed := Reverse(value);
      AddToHistory(value, reversed, ts);
      if Inv(before) {
        ExecutedPreservesInv(before, input, ts);
      }
    }

    /** The keypress listener: Enter with more than three raw code units reverses. */
    method KeyPress(enter: bool, input: JsString, ts: Timestamp)
      requires Valid()
      modifies this
      ensures Valid()
      ensures history == KeyPressed(old(history), enter, input, ts)
      ensures Inv(old(history)) ==> Inv(history)
    {
      if enter && |input| > ButtonThreshold {
        ExecuteReverse(input, ts);
      }
    }
  }
}
