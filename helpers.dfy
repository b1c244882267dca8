/**
  The pure helpers of the trim-and-validate directive: the text normaliser,
  the two string predicates the caret rule uses, the caret decision table,
  and the two helpers that act on the governed form control.

  Strings are sequences of code units; caret positions are code-unit offsets.
 */
module Helpers {
  import opened Wrappers
  import opened Forms

  // ---------------------------------------------------------------------------
  // Whitespace
  // ---------------------------------------------------------------------------

  /** The characters matched by the regular-expression class `\s` and removed by
      `trimStart`: ECMAScript's WhiteSpace (section 12.2 of ECMA-262) and
      LineTerminator (section 12.3) code points. */
  predicate IsWhitespace(c: char) {
    var n := c as int;
    n == 0x09 || n == 0x0A || n == 0x0B || n == 0x0C || n == 0x0D ||
    n == 0x20 || n == 0xA0 || n == 0x1680 || (0x2000 <= n <= 0x200A) ||
    n == 0x2028 || n == 0x2029 || n == 0x202F || n == 0x205F ||
    n == 0x3000 || n == 0xFEFF
  }

  predicate NoLeadingWhitespace(s: string) {
    |s| > 0 ==> !IsWhitespace(s[0])
  }

  /** Both `s[i]` and the character after it are whitespace. */
  predicate WhitespacePairAt(s: string, i: nat)
    requires i + 1 < |s|
  {
    IsWhitespace(s[i]) && IsWhitespace(s[i + 1])
  }

  predicate NoAdjacentWhitespace(s: string) {
    forall i: nat :: i + 1 < |s| ==> !WhitespacePairAt(s, i)
  }

  /** The shape of every normalised string. */
  predicate Normalised(s: string) {
    NoLeadingWhitespace(s) && NoAdjacentWhitespace(s)
  }

  /** The non-whitespace characters of `s`, in order. */
  function NonWhitespace(s: string): string {
    if s == [] then []
    else if IsWhitespace(s[0]) then NonWhitespace(s[1..])
    else [s[0]] + NonWhitespace(s[1..])
  }

  // ---------------------------------------------------------------------------
  // trimStringStartAndRemoveMultipleSpaces
  // ---------------------------------------------------------------------------

  /** The number of whitespace characters at the start of `s`. */
  function LeadingWhitespace(s: string): (n: nat)
    ensures n <= |s|
    ensures forall i :: 0 <= i < n ==> IsWhitespace(s[i])
    ensures n < |s| ==> !IsWhitespace(s[n])
    ensures NonWhitespace(s[n..]) == NonWhitespace(s)
  {
    if |s| > 0 && IsWhitespace(s[0]) then
      var m := LeadingWhitespace(s[1..]);
      assert s[1..][m..] == s[1 + m..];
      1 + m
    else
      0
  }

  /** `String.prototype.trimStart`: what is left after dropping every leading
      whitespace character. */
  function TrimStart(s: string): (r: string)
    ensures NoLeadingWhitespace(r)
    ensures NonWhitespace(r) == NonWhitespace(s)
    ensures NoAdjacentWhitespace(s) ==> NoAdjacentWhitespace(r)
  {
    var n := LeadingWhitespace(s);
    assert forall i: nat :: i + 1 < |s[n..]| ==> WhitespacePairAt(s[n..], i) == WhitespacePairAt(s, i + n);
    s[n..]
  }

  /** `s.replace(/\s\s+/g, " ")`: scanning left to right, every maximal run of two
      or more whitespace characters becomes one space; a lone whitespace
      character is kept as it is. The greedy `\s+` consumes the whole run, and
      the next match is searched after it. */
  function CollapseRuns(s: string): (r: string)
    ensures |r| <= |s|
    ensures (r == []) == (s == [])
    ensures s != [] ==> IsWhitespace(r[0]) == IsWhitespace(s[0])
    ensures NoAdjacentWhitespace(r)
    ensures NonWhitespace(r) == NonWhitespace(s)
  {
    if |s| >= 2 && IsWhitespace(s[0]) && IsWhitespace(s[1]) then
      var tail := CollapseRuns(TrimStart(s[2..]));
      PrependKeepsNoAdjacentWhitespace(' ', tail);
      assert NonWhitespace(s) == NonWhitespace(s[2..]) by {
        assert s[1..][1..] == s[2..];
      }
      [' '] + tail
    else if s == [] then
      []
    else
      var tail := CollapseRuns(s[1..]);
      PrependKeepsNoAdjacentWhitespace(s[0], tail);
      [s[0]] + tail
  }

  /** Putting a character in front of a string with no adjacent whitespace pair
      creates none, unless both that character and the string's first one are
      whitespace. */
  lemma PrependKeepsNoAdjacentWhitespace(c: char, t: string)
    requires NoAdjacentWhitespace(t)
    requires t != [] && IsWhitespace(c) ==> !IsWhitespace(t[0])
    ensures NoAdjacentWhitespace([c] + t)
  {
    var r := [c] + t;
    forall i: nat | i + 1 < |r|
      ensures !WhitespacePairAt(r, i)
    {
      if i > 0 {
        assert r[i] == t[i - 1] && r[i + 1] == t[i];
        assert !WhitespacePairAt(t, i - 1);
      }
    }
  }

  /** The text normaliser: collapse whitespace runs, then trim the start. */
  function TrimStringStartAndRemoveMultipleSpaces(name: string): (r: string)
    ensures Normalised(r)
    ensures |r| <= |name|
    ensures NonWhitespace(r) == NonWhitespace(name)
  {
    TrimStart(CollapseRuns(name))
  }

  /** A string that is already normalised is returned unchanged by the run collapser. */
  lemma {:induction false} CollapseRunsFixpoint(s: string)
    requires NoAdjacentWhitespace(s)
    ensures CollapseRuns(s) == s
  {
    if s != [] {
      assert NoAdjacentWhitespace(s[1..]) by {
        forall i: nat | i + 1 < |s[1..]|
          ensures !WhitespacePairAt(s[1..], i)
        {
          assert !WhitespacePairAt(s, i + 1);
        }
      }
      CollapseRunsFixpoint(s[1..]);
      if |s| >= 2 {
        assert !WhitespacePairAt(s, 0);
      }
      assert [s[0]] + s[1..] == s;
    }
  }

  /** Normalised strings, and only they, are left unchanged by the normaliser. */
  lemma NormaliseFixpointIff(s: string)
    ensures TrimStringStartAndRemoveMultipleSpaces(s) == s <==> Normalised(s)
  {
    if Normalised(s) {
      CollapseRunsFixpoint(s);
    }
  }

  /** Normalising twice is the same as normalising once. */
  lemma NormaliseIdempotent(s: string)
    ensures TrimStringStartAndRemoveMultipleSpaces(TrimStringStartAndRemoveMultipleSpaces(s))
         == TrimStringStartAndRemoveMultipleSpaces(s)
  {
    NormaliseFixpointIff(TrimStringStartAndRemoveMultipleSpaces(s));
  }

  /** A string that ends in a non-whitespace character has some non-whitespace
      character. */
  lemma {:induction false} NonWhitespaceOfLast(x: string)
    requires x != [] && !IsWhitespace(x[|x| - 1])
    ensures NonWhitespace(x) != []
  {
    if |x| > 1 {
      NonWhitespaceOfLast(x[1..]);
    }
  }

  /** The leading whitespace of a concatenation whose first part is not all
      whitespace lies in that first part. */
  lemma {:induction false} LeadingWhitespaceAppend(x: string, y: string)
    requires LeadingWhitespace(x) < |x|
    ensures LeadingWhitespace(x + y) == LeadingWhitespace(x)
  {
    if IsWhitespace(x[0]) {
      assert (x + y)[1..] == x[1..] + y;
      LeadingWhitespaceAppend(x[1..], y);
    }
  }

  /** Trimming the start of a concatenation whose first part is not all
      whitespace only trims that first part. */
  lemma TrimStartAppend(x: string, y: string)
    requires LeadingWhitespace(x) < |x|
    ensures TrimStart(x + y) == TrimStart(x) + y
  {
    LeadingWhitespaceAppend(x, y);
    SliceOfAppend(x, y, LeadingWhitespace(x));
  }

  /** A suffix of a concatenation that starts inside its first part. */
  lemma SliceOfAppend(x: string, y: string, n: nat)
    requires n <= |x|
    ensures (x + y)[n..] == x[n..] + y
  {
  }

  /** Trimming the start of whitespace followed by a word leaves the word. */
  lemma {:induction false} TrimStartOfWhitespaceThenWord(p: string, y: string)
    requires forall i :: 0 <= i < |p| ==> IsWhitespace(p[i])
    requires y != [] && !IsWhitespace(y[0])
    ensures TrimStart(p + y) == y
  {
    if p == [] {
      assert p + y == y;
    } else {
      assert (p + y)[1..] == p[1..] + y;
      TrimStartOfWhitespaceThenWord(p[1..], y);
    }
  }

  /** The run collapser works on the two sides of a word boundary
      independently: a text that ends in a non-whitespace character can be
      collapsed on its own and followed by the collapse of what comes after. */
  lemma {:induction false} CollapseRunsSplit(x: string, y: string)
    requires x != [] && !IsWhitespace(x[|x| - 1])
    ensures CollapseRuns(x + y) == CollapseRuns(x) + CollapseRuns(y)
    decreases |x|
  {
    SliceOfAppend(x, y, 1);
    if |x| >= 2 && IsWhitespace(x[0]) && IsWhitespace(x[1]) {
      var x2 := x[2..];
      SliceOfAppend(x, y, 2);
      TrimStartKeepsLast(x2);
      TrimStartAppend(x2, y);
      var t := TrimStart(x2);
      CollapseRunsSplit(t, y);
      CollapseRunsAtRun(x);
      CollapseRunsAtRun(x + y);
      PrependAppend(' ', CollapseRuns(t), CollapseRuns(y));
    } else {
      var x1 := x[1..];
      if x1 == [] {
        CollapseRunsAtChar(x);
        assert x + y == [x[0]] + y;
        CollapseRunsAtChar(x + y);
      } else {
        CollapseRunsSplit(x1, y);
        CollapseRunsAtChar(x);
        CollapseRunsAtChar(x + y);
        PrependAppend(x[0], CollapseRuns(x1), CollapseRuns(y));
      }
    }
  }

  /** One step of the run collapser at a run of two or more. */
  lemma CollapseRunsAtRun(s: string)
    requires |s| >= 2 && IsWhitespace(s[0]) && IsWhitespace(s[1])
    ensures CollapseRuns(s) == [' '] + CollapseRuns(TrimStart(s[2..]))
  {
  }

  /** One step of the run collapser at a character that does not start a run. */
  lemma CollapseRunsAtChar(s: string)
    requires s != [] && !(|s| >= 2 && IsWhitespace(s[0]) && IsWhitespace(s[1]))
    ensures CollapseRuns(s) == [s[0]] + CollapseRuns(s[1..])
  {
  }

  lemma PrependAppend(c: char, a: string, b: string)
    ensures [c] + (a + b) == ([c] + a) + b
  {
  }

  /** Trimming the start of a text that ends in a non-whitespace character
      keeps that last character. */
  lemma TrimStartKeepsLast(s: string)
    requires s != [] && !IsWhitespace(s[|s| - 1])
    ensures LeadingWhitespace(s) < |s|
    ensures TrimStart(s) != [] && TrimStart(s)[|TrimStart(s)| - 1] == s[|s| - 1]
  {
  }

  /** A single whitespace character between two words is kept as it is, in any
      surrounding text: a lone tab is not turned into a space, and a lone
      separator is never removed. */
  lemma LoneWhitespaceKept(x: string, w: char, y: string)
    requires x != [] && !IsWhitespace(x[|x| - 1])
    requires IsWhitespace(w)
    requires y != [] && !IsWhitespace(y[0])
    ensures CollapseRuns(x + ([w] + y)) == CollapseRuns(x) + ([w] + CollapseRuns(y))
    ensures TrimStringStartAndRemoveMultipleSpaces(x + ([w] + y))
         == TrimStringStartAndRemoveMultipleSpaces(x) + ([w] + CollapseRuns(y))
  {
    assert ([w] + y)[1..] == y;
    CollapseRunsSplit(x, [w] + y);
    NonWhitespaceOfLast(x);
    assert LeadingWhitespace(CollapseRuns(x)) < |CollapseRuns(x)|;
    TrimStartAppend(CollapseRuns(x), [w] + CollapseRuns(y));
  }

  /** A run of two or more whitespace characters between two words becomes one
      space, whatever characters it is made of and in any surrounding text. */
  lemma RunBetweenWordsCollapses(x: string, run: string, y: string)
    requires x != [] && !IsWhitespace(x[|x| - 1])
    requires |run| >= 2 && forall i :: 0 <= i < |run| ==> IsWhitespace(run[i])
    requires y != [] && !IsWhitespace(y[0])
    ensures CollapseRuns(x + (run + y)) == CollapseRuns(x) + ([' '] + CollapseRuns(y))
    ensures TrimStringStartAndRemoveMultipleSpaces(x + (run + y))
         == TrimStringStartAndRemoveMultipleSpaces(x) + ([' '] + CollapseRuns(y))
  {
    assert CollapseRuns(run + y) == [' '] + CollapseRuns(y) by {
      assert (run + y)[2..] == run[2..] + y;
      TrimStartOfWhitespaceThenWord(run[2..], y);
    }
    CollapseRunsSplit(x, run + y);
    NonWhitespaceOfLast(x);
    assert LeadingWhitespace(CollapseRuns(x)) < |CollapseRuns(x)|;
    TrimStartAppend(CollapseRuns(x), [' '] + CollapseRuns(y));
  }

  // ---------------------------------------------------------------------------
  // hasNoSpaces
  // ---------------------------------------------------------------------------

  /** The indices of the matches of `/ /g` in `s` at or after `from`, as
      `[...s.matchAll(/ /g)].map(m => m.index)` lists them. */
  function SpaceIndicesFrom(s: string, from: nat): (r: seq<nat>)
    decreases |s| - from
    ensures forall k :: 0 <= k < |r| ==> from <= r[k] < |s| && s[r[k]] == ' '
    ensures forall k :: 0 <= k < |r| - 1 ==> r[k] < r[k + 1]
    ensures forall i :: from <= i < |s| && s[i] == ' ' ==> i in r
  {
    if from >= |s| then []
    else if s[from] == ' ' then [from] + SpaceIndicesFrom(s, from + 1)
    else SpaceIndicesFrom(s, from + 1)
  }

  /** `hasNoSpaces`: the list of match indices of `/ /g` is empty. */
  predicate HasNoSpaces(name: string) {
    |SpaceIndicesFrom(name, 0)| == 0
  }

  /** Only U+0020 counts: other whitespace, such as a tab, is not a space here. */
  lemma HasNoSpacesIff(name: string)
    ensures HasNoSpaces(name) <==> ' ' !in name
  {
    var r := SpaceIndicesFrom(name, 0);
    if ' ' in name {
      var i :| 0 <= i < |name| && name[i] == ' ';
      assert i in r;
    }
    if |r| > 0 {
      assert name[r[0]] == ' ';
    }
  }

  // ---------------------------------------------------------------------------
  // hasSpaceBeforeSelectionStart
  // ---------------------------------------------------------------------------

  /** The search loop of `String.prototype.indexOf` from index `from`. */
  function IndexOfFrom(s: string, c: char, from: nat): (r: int)
    decreases |s| - from
    ensures r == -1 || (from <= r < |s| && s[r] == c)
    ensures r == -1 ==> forall j :: from <= j < |s| ==> s[j] != c
    ensures r != -1 ==> forall j :: from <= j < r ==> s[j] != c
  {
    if from >= |s| then -1
    else if s[from] == c then from
    else IndexOfFrom(s, c, from + 1)
  }

  /** `s.indexOf(c, position)`: the start position is first clamped to `[0, |s|]`. */
  function IndexOf(s: string, c: char, position: int): int {
    var start := if position < 0 then 0 else if position > |s| then |s| else position;
    IndexOfFrom(s, c, start)
  }

  /** `hasSpaceBeforeSelectionStart`. */
  predicate HasSpaceBeforeSelectionStart(previousName: string, previousSelectionStart: int) {
    IndexOf(previousName, ' ', previousSelectionStart - 1) != -1
  }

  /** Despite its name, the predicate holds when a space lies at or AFTER index
      `start - 1` (an index below 0 counts as 0). */
  lemma HasSpaceBeforeSelectionStartIff(name: string, start: int)
    ensures HasSpaceBeforeSelectionStart(name, start) <==>
      exists i :: (if start - 1 < 0 then 0 else start - 1) <= i < |name| && name[i] == ' '
    ensures start - 1 >= |name| ==> !HasSpaceBeforeSelectionStart(name, start)
  {
    var lo := if start - 1 < 0 then 0 else start - 1;
    if HasSpaceBeforeSelectionStart(name, start) {
      var r := IndexOf(name, ' ', start - 1);
      assert lo <= r < |name| && name[r] == ' ';
    }
  }

  // ---------------------------------------------------------------------------
  // handleCaretPosition
  // ---------------------------------------------------------------------------

  /** The text and selection before an edit. */
  datatype Previous = Previous(name: string, selectionStart: int, selectionEnd: int)

  /** The text after an edit and the classification of the key that made it. */
  datatype Current = Current(name: string, keyIsSpace: bool, keyIsBackspace: bool)

  /** One processed edit: the pair `handleCaretPosition` decides on. */
  datatype EditTransition = EditTransition(previous: Previous, current: Current)

  predicate EndsWithSpace(s: string) {
    |s| > 0 && s[|s| - 1] == ' '
  }

  /** `handleCaretPosition`: the caret positions passed to `setCaretPosition`, in
      call order. Each write moves a collapsed caret to that offset; when there
      are two, the second one is where the caret ends up. */
  function HandleCaretPosition(previous: Previous, current: Current): (writes: seq<int>)
    ensures |writes| <= 2
  {
    if HasNoSpaces(previous.name) then
      (if |previous.name| < |current.name| && previous.selectionStart != previous.selectionEnd
       then [previous.selectionStart] else [])
      +
      (if previous.name != "" &&
          (|previous.name| + 1 < |current.name| || |previous.name| > |current.name|)
       then [previous.selectionStart] else [])
    else
      (if HasSpaceBeforeSelectionStart(previous.name, previous.selectionStart) && current.keyIsSpace
       then [previous.selectionStart - 1] else [])
      +
      (if EndsWithSpace(current.name) && previous.selectionStart == |current.name|
       then [previous.selectionStart] else [])
  }

  /** Where the caret is left by a sequence of writes: the last one wins, and
      no write leaves the caret where the browser put it. */
  function FinalCaret(writes: seq<int>): Option<int> {
    if writes == [] then None else Some(writes[|writes| - 1])
  }

  /** Previous text without a space: every write restores the previous selection
      start, and a write happens exactly when the text grew over a non-empty
      selection, or the previous text was non-empty and the text grew by more
      than one character or shrank. */
  lemma CaretWithoutSpaces(previous: Previous, current: Current)
    requires ' ' !in previous.name
    ensures forall k :: 0 <= k < |HandleCaretPosition(previous, current)| ==>
      HandleCaretPosition(previous, current)[k] == previous.selectionStart
    ensures HandleCaretPosition(previous, current) != [] <==>
      (|previous.name| < |current.name| && previous.selectionStart != previous.selectionEnd) ||
      (previous.name != "" &&
        (|previous.name| + 1 < |current.name| || |previous.name| > |current.name|))
    ensures FinalCaret(HandleCaretPosition(previous, current)) == None ||
      FinalCaret(HandleCaretPosition(previous, current)) == Some(previous.selectionStart)
  {
    HasNoSpacesIff(previous.name);
  }

  /** Previous text without a space: growing by exactly one character with a
      collapsed selection (plain typing) leaves the caret alone. */
  lemma CaretPlainTypingUntouched(previous: Previous, current: Current)
    requires ' ' !in previous.name
    requires |current.name| == |previous.name| + 1
    requires previous.selectionStart == previous.selectionEnd
    ensures HandleCaretPosition(previous, current) == []
  {
    HasNoSpacesIff(previous.name);
  }

  /** Previous text with a space: a space at or after `start - 1` together with a
      space key moves the caret one left of `start`; a current text ending in a
      space with `start` at its end puts the caret at `start`; the latter wins
      when both hold, and otherwise the caret is left alone. */
  lemma CaretWithSpaces(previous: Previous, current: Current)
    requires ' ' in previous.name
    ensures var start := previous.selectionStart;
      var spaceTyped := current.keyIsSpace &&
        exists i :: (if start - 1 < 0 then 0 else start - 1) <= i < |previous.name| &&
          previous.name[i] == ' ';
      var atEnd := |current.name| > 0 && current.name[|current.name| - 1] == ' ' &&
        start == |current.name|;
      FinalCaret(HandleCaretPosition(previous, current)) ==
        if atEnd then Some(start) else if spaceTyped then Some(start - 1) else None
  {
    HasNoSpacesIff(previous.name);
    HasSpaceBeforeSelectionStartIff(previous.name, previous.selectionStart);
  }

  /** Pasting over a selection of a space-free text puts the caret back at the
      start of the replaced span: "ab" with (0, 2) selected becomes "abXY". */
  lemma CaretAfterPasteOverSelection()
    ensures FinalCaret(HandleCaretPosition(Previous("ab", 0, 2), Current("abXY", false, false)))
      == Some(0)
  {
    HasNoSpacesIff("ab");
  }

  /** "a  b" normalises to "a b". */
  lemma DoubleSpaceNormalised()
    ensures TrimStringStartAndRemoveMultipleSpaces("a  b") == "a b"
  {
    RunBetweenWordsCollapses("a", "  ", "b");
    assert "a  b" == "a" + ("  " + "b");
    assert CollapseRuns("a") == "a" && CollapseRuns("b") == "b";
    assert TrimStringStartAndRemoveMultipleSpaces("a") == "a";
  }

  /** A second space typed after "a b" with the caret at 2 gives "a  b"; the
      caret goes to 1, where the collapsed text "a b" has its one space. */
  lemma CaretAfterDoubleSpace()
    ensures FinalCaret(HandleCaretPosition(Previous("a b", 2, 2), Current("a  b", true, false)))
      == Some(1)
  {
    assert "a b"[1] == ' ';
    HasSpaceBeforeSelectionStartIff("a b", 2);
    HasNoSpacesIff("a b");
  }

  // ---------------------------------------------------------------------------
  // setInputValue and addAsyncValidators
  // ---------------------------------------------------------------------------

  /** The pristine test of `setInputValue`: it compares the raw current text, not
      the normalised one, with the initial text. */
  predicate MarksPristine(initialName: string, currentName: string, settingValueForFirstTime: bool) {
    initialName != "" && initialName == currentName && settingValueForFirstTime
  }

  /** Retyping a non-empty initial value on the first write keeps the control
      pristine; a later write, or a different value, marks it dirty. Since the
      raw text is compared, a value that merely normalises to the initial one
      marks it dirty too. */
  lemma PristineLaw(initialName: string, currentName: string, first: bool)
    ensures initialName != "" ==> MarksPristine(initialName, initialName, true)
    ensures !first ==> !MarksPristine(initialName, currentName, first)
    ensures currentName != initialName ==> !MarksPristine(initialName, currentName, first)
  {
  }

  /** A normalised text with a whitespace character put in front of it
      normalises back to itself, yet with that text as the initial value the
      control is marked dirty, since the raw texts differ: " abc" is written
      back as "abc" and still counts as an edit of "abc". */
  lemma PristineComparesRawText(w: char, initialName: string)
    requires IsWhitespace(w) && initialName != [] && Normalised(initialName)
    ensures TrimStringStartAndRemoveMultipleSpaces([w] + initialName) == initialName
    ensures !MarksPristine(initialName, [w] + initialName, true)
  {
    var s := [w] + initialName;
    assert s[1..] == initialName;
    CollapseRunsFixpoint(initialName);
    assert CollapseRuns(s) == s;
    assert LeadingWhitespace(s) == 1 by {
      assert LeadingWhitespace(s[1..]) == 0;
    }
  }

  /** `setInputValue`: silently writes the normalised text, then marks the
      control pristine or dirty. It reads, and leaves alone, the first-write flag. */
  method SetInputValue(initialName: string, currentName: string, settingValueForFirstTime: bool,
                       control: FormControl)
    modifies control
    ensures control.value == TrimStringStartAndRemoveMultipleSpaces(currentName)
    ensures control.dirty == !MarksPristine(initialName, currentName, settingValueForFirstTime)
    ensures control.silentWrites == old(control.silentWrites) + 1
    ensures control.emissions == old(control.emissions)
    ensures control.asyncValidators == old(control.asyncValidators)
    ensures control.validityUpdates == old(control.validityUpdates)
  {
    control.PatchValueSilently(TrimStringStartAndRemoveMultipleSpaces(currentName));
    if initialName != "" && initialName == currentName && settingValueForFirstTime {
      control.MarkAsPristine();
    } else {
      control.MarkAsDirty();
    }
  }

  /** `addAsyncValidators`: attaches the validators, then recomputes the
      validity of this control only. That call does not pass
      `emitEvent: false`, so the control announces its current value. */
  method AddAsyncValidators(control: FormControl, validators: seq<AsyncValidatorFn>)
    modifies control
    ensures control.asyncValidators == old(control.asyncValidators) + validators
    ensures control.validityUpdates == old(control.validityUpdates) + 1
    ensures control.emissions == old(control.emissions) + 1
    ensures control.value == old(control.value) && control.dirty == old(control.dirty)
    ensures control.silentWrites == old(control.silentWrites)
  {
    control.AddAsyncValidators(validators);
    control.UpdateValueAndValidity(true);
  }
}
