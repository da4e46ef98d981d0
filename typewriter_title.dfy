/** The typewriter heading (components/ui/typewriter-title.tsx): a step
    machine over the index of the current title, the text on screen and
    whether it is deleting. Time is abstracted into two events: a `Tick` (the
    typing or deleting timer firing, which runs `handleTyping`) and the end of
    the pause armed once a title has been typed out.

    The step machine is stated for any table of titles; the component uses
    the four `Titles`. */
module Typewriter {

  /** The titles, in the order they are shown. */
  const Titles: seq<string> := ["Full Stack Developer", "BCA Student", "Problem Solver", "Tech Enthusiast"]

  /** JavaScript `s.slice(0, end)`: a negative end counts back from the end
      of `s`, and the end is clamped to the string. */
  function SliceTo(s: string, end: int): (r: string)
    ensures r <= s
    ensures 0 <= end ==> |r| == (if end < |s| then end else |s|)
    ensures end < 0 ==> |r| == (if -end < |s| then |s| + end else 0)
  {
    var stop := if end < 0 then |s| + end else end;
    if stop <= 0 then [] else if stop < |s| then s[..stop] else s
  }

  /** The component's state, plus whether the pause timer set once a title
      is fully typed is still pending. */
  datatype TypingState = TypingState(
    currentIndex: int,
    displayedText: string,
    isDeleting: bool,
    pausePending: bool)

  /** The state on mount. */
  const Initial: TypingState := TypingState(0, "", false, false)

  /** `(i + 1) % titles.length`: the index after `i`, wrapping to 0 after
      the last title. */
  function NextIndex(titles: seq<string>, i: int): (j: int)
    requires 0 <= i < |titles|
    ensures 0 <= j < |titles|
    ensures j == if i + 1 < |titles| then i + 1 else 0
  {
    (i + 1) % |titles|
  }

  /** The index before `i` in the cycle. */
  function PrevIndex(titles: seq<string>, i: int): int
    requires 0 <= i < |titles|
  {
    if i == 0 then |titles| - 1 else i - 1
  }

  function Min(a: nat, b: nat): nat { if a < b then a else b }

  predicate InRange(titles: seq<string>, s: TypingState)
  {
    0 <= s.currentIndex < |titles|
  }

  /** The invariant of reachable states: the index is in range; a pending
      pause means the current title is fully typed; while deleting the text is
      a prefix of the current title; otherwise it is a prefix of the current
      title or, right after the index advanced, of the previous one. */
  predicate Inv(titles: seq<string>, s: TypingState)
  {
    InRange(titles, s) &&
    (s.pausePending ==> !s.isDeleting && s.displayedText == titles[s.currentIndex]) &&
    (s.isDeleting ==> s.displayedText <= titles[s.currentIndex]) &&
    (s.displayedText <= titles[s.currentIndex] || s.displayedText <= titles[PrevIndex(titles, s.currentIndex)])
  }

  /** One run of `handleTyping`. Both branches write a prefix of the title
      at the index read when the step starts. */
  function HandleTyping(titles: seq<string>, s: TypingState): (t: TypingState)
    requires InRange(titles, s)
    ensures t.displayedText <= titles[s.currentIndex]
    ensures InRange(titles, t)
  {
    var currentText := titles[s.currentIndex];
    if s.isDeleting then
      var text := SliceTo(currentText, |s.displayedText| - 1);
      if s.displayedText == "" then
        TypingState(NextIndex(titles, s.currentIndex), text, false, s.pausePending)
      else
        s.(displayedText := text)
    else
      var text := SliceTo(currentText, |s.displayedText| + 1);
      if s.displayedText == currentText then
        s.(displayedText := text, pausePending := true)
      else
        s.(displayedText := text)
  }

  /** The pause timer fires: `setIsDeleting(true)`. */
  function AfterPause(s: TypingState): (t: TypingState)
    ensures t.isDeleting && !t.pausePending
    ensures t.currentIndex == s.currentIndex && t.displayedText == s.displayedText
  {
    s.(isDeleting := true, pausePending := false)
  }

  /** `n` ticks in a row. */
  function Run(titles: seq<string>, s: TypingState, n: nat): (t: TypingState)
    requires InRange(titles, s)
    ensures InRange(titles, t)
    decreases n
  {
    if n == 0 then s else HandleTyping(titles, Run(titles, s, n - 1))
  }

  // ----- Invariant -----

  lemma InitialInv()
    ensures Inv(Titles, Initial)
  {
  }

  /** A tick keeps the invariant. */
  lemma TickKeepsInv(titles: seq<string>, s: TypingState)
    requires Inv(titles, s)
    ensures Inv(titles, HandleTyping(titles, s))
  {
    if s.isDeleting && s.displayedText == "" {
      var t := HandleTyping(titles, s);
      assert PrevIndex(titles, t.currentIndex) == s.currentIndex;
    }
  }

  /** The end of the pause keeps the invariant. */
  lemma PauseKeepsInv(titles: seq<string>, s: TypingState)
    requires Inv(titles, s) && s.pausePending
    ensures Inv(titles, AfterPause(s))
  {
  }

  // ----- One step -----

  /** The index changes only in a deleting step from empty text; it then
      advances by one modulo the number of titles and deleting stops. */
  lemma IndexAdvancesOnlyFromEmpty(titles: seq<string>, s: TypingState)
    requires InRange(titles, s)
    ensures HandleTyping(titles, s).currentIndex != s.currentIndex <==> s.isDeleting && s.displayedText == "" && |titles| > 1
    ensures s.isDeleting && s.displayedText == "" ==>
      HandleTyping(titles, s).currentIndex == NextIndex(titles, s.currentIndex) && !HandleTyping(titles, s).isDeleting
    ensures !(s.isDeleting && s.displayedText == "") ==>
      HandleTyping(titles, s).currentIndex == s.currentIndex && HandleTyping(titles, s).isDeleting == s.isDeleting
  {
  }

  /** A typing step on a proper prefix of the current title adds its next
      character. */
  lemma TypingAddsOneCharacter(titles: seq<string>, s: TypingState)
    requires InRange(titles, s)
    requires !s.isDeleting && s.displayedText < titles[s.currentIndex]
    ensures var t := HandleTyping(titles, s);
      |t.displayedText| == |s.displayedText| + 1 &&
      s.displayedText < t.displayedText &&
      t == s.(displayedText := titles[s.currentIndex][..|s.displayedText| + 1])
  {
  }

  /** A typing step on the full title leaves the text as it is, arms the
      pause and keeps the index. */
  lemma TypedOutArmsPause(titles: seq<string>, s: TypingState)
    requires InRange(titles, s)
    requires !s.isDeleting && s.displayedText == titles[s.currentIndex]
    ensures HandleTyping(titles, s) == s.(pausePending := true)
  {
  }

  /** A typing step on text at most one character shorter than the current
      title shows the whole title: `slice` clamps the end to the title. */
  lemma TypingClampsToTitle(titles: seq<string>, s: TypingState)
    requires InRange(titles, s)
    requires !s.isDeleting && |s.displayedText| + 1 >= |titles[s.currentIndex]|
    ensures HandleTyping(titles, s).displayedText == titles[s.currentIndex]
  {
  }

  /** A deleting step on non-empty text drops its last character. */
  lemma DeletingDropsOneCharacter(titles: seq<string>, s: TypingState)
    requires InRange(titles, s)
    requires s.isDeleting && s.displayedText != "" && s.displayedText <= titles[s.currentIndex]
    ensures HandleTyping(titles, s) == s.(displayedText := s.displayedText[..|s.displayedText| - 1])
  {
  }

  /** A deleting step on empty text: `slice(0, -1)` writes the title that was
      current minus its last character, in the same step that advances the
      index. */
  lemma DeletingFromEmptyWrapsAround(titles: seq<string>, s: TypingState)
    requires InRange(titles, s)
    requires s.isDeleting && s.displayedText == ""
    ensures var title := titles[s.currentIndex];
      HandleTyping(titles, s) ==
      TypingState(NextIndex(titles, s.currentIndex), if title == "" then "" else title[..|title| - 1], false, s.pausePending)
  {
  }

  // ----- Runs of ticks -----

  /** Typing from a prefix of the current title shows one more character
      of the title per tick, without changing index or flags, until the
      title is complete. */
  lemma {:induction false} TypesOut(titles: seq<string>, s: TypingState, j: nat)
    requires InRange(titles, s)
    requires !s.isDeleting && s.displayedText <= titles[s.currentIndex]
    requires j <= |titles[s.currentIndex]| - |s.displayedText|
    ensures Run(titles, s, j) == s.(displayedText := titles[s.currentIndex][..|s.displayedText| + j])
  {
    if j > 0 {
      TypesOut(titles, s, j - 1);
      TypingAddsOneCharacter(titles, Run(titles, s, j - 1));
    }
  }

  /** Deleting from a prefix of the current title drops one character per
      tick, still deleting and at the same index, until the text is empty. */
  lemma {:induction false} DeletesOut(titles: seq<string>, s: TypingState, j: nat)
    requires InRange(titles, s)
    requires s.isDeleting && s.displayedText <= titles[s.currentIndex]
    requires j <= |s.displayedText|
    ensures Run(titles, s, j) == s.(displayedText := s.displayedText[..|s.displayedText| - j])
  {
    if j > 0 {
      DeletesOut(titles, s, j - 1);
      DeletingDropsOneCharacter(titles, Run(titles, s, j - 1));
    }
  }

  /** Once the pause has elapsed, deleting a non-empty title takes one tick
      per character, and one more tick advances to the next title while
      showing the title just deleted minus its last character. */
  lemma {:induction false} DeletionCycle(titles: seq<string>, i: int)
    requires 0 <= i < |titles| && titles[i] != ""
    ensures var title := titles[i];
      Run(titles, TypingState(i, title, true, false), |title| + 1) ==
      TypingState(NextIndex(titles, i), title[..|title| - 1], false, false)
  {
    var title := titles[i];
    var deleting := TypingState(i, title, true, false);
    DeletesOut(titles, deleting, |title|);
    DeletingFromEmptyWrapsAround(titles, deleting.(displayedText := ""));
  }

  /** From mount the first title is typed out in full after as many ticks
      as it has characters, and the next tick arms the pause. */
  lemma FirstTitleTypedOut()
    ensures Run(Titles, Initial, |Titles[0]|) == TypingState(0, Titles[0], false, false)
    ensures HandleTyping(Titles, Run(Titles, Initial, |Titles[0]|)) == TypingState(0, Titles[0], false, true)
  {
    TypesOut(Titles, Initial, |Titles[0]|);
    TypedOutArmsPause(Titles, TypingState(0, Titles[0], false, false));
  }

  /** After a non-empty title is deleted, the first typing tick on the next
      title shows a prefix of it one character longer than the remnant of
      the deleted title, clamped to the new title. */
  lemma {:induction false} FirstAppearanceAfterWrap(titles: seq<string>, i: int)
    requires 0 <= i < |titles| && titles[i] != ""
    ensures var next := NextIndex(titles, i);
      Run(titles, TypingState(i, titles[i], true, false), |titles[i]| + 2) ==
      TypingState(next, titles[next][..Min(|titles[i]|, |titles[next]|)], false,
                  titles[i][..|titles[i]| - 1] == titles[next])
  {
    DeletionCycle(titles, i);
    var next := NextIndex(titles, i);
    var remnant := TypingState(next, titles[i][..|titles[i]| - 1], false, false);
    if remnant.displayedText == titles[next] {
      TypedOutArmsPause(titles, remnant);
    }
  }

  /** How each title first appears once the one before it is deleted: the
      second whole ("BCA Student"), the third as its first 11 characters
      ("Problem Sol"), the fourth as its first 14 ("Tech Enthusias"), and
      the first, on wrap-around, as its first 15 ("Full Stack Deve"). Only
      the very first title on mount is typed from the empty text. */
  lemma TitleFirstAppearances()
    ensures Run(Titles, TypingState(0, Titles[0], true, false), |Titles[0]| + 2).displayedText == Titles[1]
    ensures Run(Titles, TypingState(1, Titles[1], true, false), |Titles[1]| + 2).displayedText == Titles[2][..11]
    ensures Run(Titles, TypingState(2, Titles[2], true, false), |Titles[2]| + 2).displayedText == Titles[3][..14]
    ensures Run(Titles, TypingState(3, Titles[3], true, false), |Titles[3]| + 2).displayedText == Titles[0][..15]
  {
    FirstAppearanceAfterWrap(Titles, 0);
    FirstAppearanceAfterWrap(Titles, 1);
    FirstAppearanceAfterWrap(Titles, 2);
    FirstAppearanceAfterWrap(Titles, 3);
  }

  /** The component's state fields, and the pause timer it has armed. */
  class TypewriterTitle {
    var currentIndex: nat
    var displayedText: string
    var isDeleting: bool
    var pausePending: bool

    function State(): TypingState
      reads this
    {
      TypingState(currentIndex, displayedText, isDeleting, pausePending)
    }

    ghost predicate Valid()
      reads this
    {
      Inv(Titles, State())
    }

    /** Mount: index 0, empty text, typing. */
    constructor ()
      ensures Valid() && State() == Initial
    {
      currentIndex := 0;
      displayedText := "";
      isDeleting := false;
      pausePending := false;
    }

    /** The typing or deleting timer fires and runs `handleTyping`. No such
        timer is scheduled while the pause is pending, because arming the
        pause leaves the state unchanged and the effect does not run again. */
    method Tick()
      requires Valid() && !pausePending
      modifies this
      ensures Valid() && State() == HandleTyping(Titles, old(State()))
      ensures currentIndex < |Titles|
    {
      ghost var before := State();
      TickKeepsInv(Titles, before);
      var currentText := Titles[currentIndex];
      if isDeleting {
        var wasEmpty := displayedText == "";
        displayedText := SliceTo(currentText, |displayedText| - 1);
        if wasEmpty {
          isDeleting := false;
          currentIndex := (currentIndex + 1) % |Titles|;
        }
      } else {
        var wasFull := displayedText == currentText;
        displayedText := SliceTo(currentText, |displayedText| + 1);
        if wasFull {
          pausePending := true;
        }
      }
      assert State() == HandleTyping(Titles, before);
    }

    /** The pause timer fires: `setIsDeleting(true)`. */
    method PauseElapsed()
      requires Valid() && pausePending
      modifies this
      ensures Valid() && State() == AfterPause(old(State()))
      ensures isDeleting && displayedText == Titles[currentIndex]
    {
      PauseKeepsInv(Titles, State());
      isDeleting := true;
      pausePending := false;
    }
  }
}
