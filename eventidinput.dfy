/** The event-id text box's input discipline: the KeyDown guard over WPF Key values and
    the TextChanged handler that strips what the regex "^[0-9]*$" rejects character by
    character. */
module EventIdInput {
  import opened Text

  /** System.Windows.Input.Key, by its numeric value. */
  type Key = int

  const Back: Key := 2
  const Tab: Key := 3
  const Delete: Key := 32
  const D0: Key := 34
  const D9: Key := 43
  const NumPad0: Key := 74
  const NumPad9: Key := 83

  /** IsNumberKey: the top-row digit keys and the keypad digit keys. */
  function IsNumberKey(key: Key): (r: bool)
    ensures r <==> (D0 <= key <= D9 || NumPad0 <= key <= NumPad9)
  {
    if key < D0 || key > D9 then
      if key < NumPad0 || key > NumPad9 then false else true
    else true
  }

  function IsDelOrBackspaceOrTabKey(key: Key): bool
  {
    key == Delete || key == Back || key == Tab
  }

  /** textBoxEventIds_KeyDown: the value given to KeyEventArgs.Handled, true when the key
      press is swallowed. */
  function KeyDownHandled(key: Key): (handled: bool)
    ensures handled <==> !(D0 <= key <= D9) && !(NumPad0 <= key <= NumPad9)
                         && key != Delete && key != Back && key != Tab
  {
    !IsNumberKey(key) && !IsDelOrBackspaceOrTabKey(key)
  }

  // ---------------------------------------------------------------- the TextChanged handler

  /** Regex.IsMatch(s, "^[0-9]*$") as .NET evaluates it: `$` matches at the very end and
      also just before a final '\n'. */
  predicate MatchesDigitPattern(s: string) {
    (forall i :: 0 <= i < |s| ==> IsAsciiDigit(s[i]))
    || (|s| > 0 && s[|s| - 1] == '\n' && forall i :: 0 <= i < |s| - 1 ==> IsAsciiDigit(s[i]))
  }

  /** The handler's per-character test, Regex.IsMatch(c.ToString(), "^[0-9]*$"). */
  predicate KeptAsWritten(c: char) {
    MatchesDigitPattern([c])
  }

  /** On one character the pattern accepts a digit and also a line feed. */
  lemma KeptAsWrittenMeaning(c: char)
    ensures KeptAsWritten(c) <==> IsAsciiDigit(c) || c == '\n'
  {
    assert [c][0] == c;
  }

  /** The handler's loop: walks the original text and, for each character the test rejects,
      removes every occurrence of it from the working copy (tmp.Replace(c.ToString(), "")). */
  method StripRejected(text: string, keep: char -> bool) returns (tmp: string)
    ensures tmp == KeepOnly(text, keep)
  {
    tmp := text;
    ghost var removed: set<char> := {};
    StripNothing(text);
    for i := 0 to |text|
      invariant tmp == StripSet(text, removed)
      invariant forall c :: c in removed <==> (c in text[..i] && !keep(c))
    {
      var c := text[i];
      if !keep(c) {
        RemoveCharFromStripped(text, removed, c);
        tmp := RemoveChar(tmp, c);
        removed := removed + {c};
      }
      assert text[..i + 1] == text[..i] + [c];
    }
    assert text[..|text|] == text;
    StripRejectedIsKeep(text, removed, keep);
  }

  lemma {:induction false} StripNothing(s: string)
    ensures StripSet(s, {}) == s
  {
    if s != [] {
      StripNothing(s[1..]);
    }
  }

  /** textBoxEventIds_TextChanged as written: digits and line feeds survive. */
  method SanitizeAsWritten(text: string) returns (tmp: string)
    ensures tmp == KeepOnly(text, KeptAsWritten)
    ensures forall i :: 0 <= i < |tmp| ==> IsAsciiDigit(tmp[i]) || tmp[i] == '\n'
  {
    tmp := StripRejected(text, KeptAsWritten);
    KeepOnlyExact(text, KeptAsWritten);
    forall i | 0 <= i < |tmp|
      ensures IsAsciiDigit(tmp[i]) || tmp[i] == '\n'
    {
      KeptAsWrittenMeaning(tmp[i]);
    }
  }

  /** The handler as written also fires again on its own output, and changes nothing then. */
  lemma SanitizeAsWrittenIdempotent(text: string)
    ensures KeepOnly(KeepOnly(text, KeptAsWritten), KeptAsWritten) == KeepOnly(text, KeptAsWritten)
  {
    KeepOnlyIdempotent(text, KeptAsWritten);
  }

  /** A line feed in the event-id text is not stripped, though the handler's purpose is to
      leave digits only. */
  lemma LineFeedSurvivesAsWritten()
    ensures KeepOnly("7\n", KeptAsWritten) == "7\n"
    ensures KeepOnly("7\n", IsAsciiDigit) == "7"
  {
    KeptAsWrittenMeaning('7');
    KeptAsWrittenMeaning('\n');
    assert "7\n"[1..] == "\n";
    assert "7\n"[1..][1..] == "";
  }

  /** textBoxEventIds_TextChanged with the one-character test read as "is an ASCII digit":
      the result is the input's digits, all of them, in their original order. */
  method SanitizeEventIds(text: string) returns (tmp: string)
    ensures tmp == KeepOnly(text, IsAsciiDigit)
    ensures forall i :: 0 <= i < |tmp| ==> IsAsciiDigit(tmp[i])
    ensures forall c :: IsAsciiDigit(c) ==> multiset(tmp)[c] == multiset(text)[c]
  {
    tmp := StripRejected(text, IsAsciiDigit);
    KeepOnlyExact(text, IsAsciiDigit);
  }

  /** Setting the text box to the handler's output fires the handler again; that second
      round changes nothing. */
  lemma SanitizeIdempotent(text: string)
    ensures KeepOnly(KeepOnly(text, IsAsciiDigit), IsAsciiDigit) == KeepOnly(text, IsAsciiDigit)
  {
    KeepOnlyIdempotent(text, IsAsciiDigit);
  }
}
