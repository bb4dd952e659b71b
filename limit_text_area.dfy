/** The output area of the command queue view (src/CommandRunner/gui/commandqueuetree/LimitTextArea.java
    and its copy in src/main/java/se/itello/commandrunner/gui/commandqueuetree/LimitTextArea.java):
    a text whose oldest characters are dropped, on append, once it grows beyond the bound. */
module LimitTextAreas {

  const MAX_LENGTH: nat := 102400

  /** The text after `appendTextLimited(text)`: when the current text is over the bound, the oldest
      `|current| - MAX_LENGTH` characters go first, then `text` is added. */
  function AppendLimited(current: string, text: string): string
  {
    (if |current| > MAX_LENGTH then current[|current| - MAX_LENGTH..] else current) + text
  }

  /** At or under the bound the append is a plain concatenation; over it, exactly the newest
      `MAX_LENGTH` characters of the old text precede the new text. Either way the result ends
      with the new text after a suffix of the old one. */
  lemma AppendLimitedKeepsNewest(current: string, text: string)
    ensures |current| <= MAX_LENGTH ==> AppendLimited(current, text) == current + text
    ensures |current| > MAX_LENGTH ==>
              |AppendLimited(current, text)| == MAX_LENGTH + |text| &&
              AppendLimited(current, text)[..MAX_LENGTH] == current[|current| - MAX_LENGTH..]
    ensures var r := AppendLimited(current, text);
            |r| >= |text| && r[|r| - |text|..] == text &&
            var kept := r[..|r| - |text|];
            |kept| <= |current| && current[|current| - |kept|..] == kept
  {
    var r := AppendLimited(current, text);
    if |current| > MAX_LENGTH {
      assert r[..MAX_LENGTH] == current[|current| - MAX_LENGTH..];
    } else {
      assert r[..|r| - |text|] == current;
    }
  }

  /** What `setTextLimited` evidently means to leave: the newest `MAX_LENGTH` characters. */
  function NewestLimited(text: string): (r: string)
    ensures |r| <= MAX_LENGTH
    ensures |text| <= MAX_LENGTH ==> r == text
    ensures |text| > MAX_LENGTH ==> |r| == MAX_LENGTH && text[|text| - MAX_LENGTH..] == r
  {
    if |text| > MAX_LENGTH then text[|text| - MAX_LENGTH..] else text
  }

  class LimitTextArea {
    var text: string

    constructor ()
      ensures text == ""
    {
      text := "";
    }

    method AppendTextLimited(added: string)
      modifies this
      ensures text == AppendLimited(old(text), added)
    {
      var length := |text|;
      if length > MAX_LENGTH {
        text := text[length - MAX_LENGTH..];
      }
      text := text + added;
    }

    /** `setTextLimited(text)` as written: the truncated text set first is overwritten by the full
        one, and the final empty append changes nothing, so the content is the whole argument. */
    method SetTextLimited(t: string)
      modifies this
      ensures text == t
    {
      var textLength := |t|;
      if textLength > MAX_LENGTH {
        text := t[textLength - MAX_LENGTH..textLength];
      }
      text := t;
      text := text + "";
    }

    /** The bound `setTextLimited` evidently intends: only the newest `MAX_LENGTH` characters. */
    method SetTextLimitedCapped(t: string)
      modifies this
      ensures text == NewestLimited(t)
      ensures |text| <= MAX_LENGTH
    {
      var textLength := |t|;
      if textLength > MAX_LENGTH {
        text := t[textLength - MAX_LENGTH..textLength];
      } else {
        text := t;
      }
    }
  }

  /** A text one character over the bound: `setTextLimited` as written keeps all of it, more than
      `MAX_LENGTH`, while the capped version keeps `MAX_LENGTH`. */
  method SetTextLimitedExceedsBound() returns (asWritten: nat, capped: nat)
    ensures asWritten == MAX_LENGTH + 1 && asWritten > MAX_LENGTH
    ensures capped == MAX_LENGTH
  {
    var t := seq(MAX_LENGTH + 1, i => 'x');
    var area := new LimitTextArea();
    area.SetTextLimited(t);
    asWritten := |area.text|;
    area.SetTextLimitedCapped(t);
    capped := |area.text|;
  }
}
