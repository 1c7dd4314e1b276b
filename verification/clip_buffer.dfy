/** How a stored clip is shown in the buffer list: flattened onto one line, cropped
    when long, and summarised when long or multi-line.  `sep` is the platform line
    separator. */
module ClipBuffer {
  import Text
  import Decimal

  /** How many characters of a clip the list shows before cropping. */
  const BUFFER_CROP_LENGTH: nat := 70

  /** The clip with every line separator replaced by a space. */
  function Flatten(clip: string, sep: string): (flat: string)
    requires |sep| > 0
    ensures |flat| == |clip| - (|Text.Split(clip, sep)| - 1) * (|sep| - 1)
    ensures |Text.Split(clip, sep)| == 1 ==> flat == clip
    ensures ' ' !in sep ==> !Text.Occurs(flat, sep)
  {
    Text.CountMatchesIsSplitLength(clip, sep);
    Text.ReplaceWithCharLength(clip, sep, ' ');
    SingleTokenUnchanged(clip, sep);
    if ' ' !in sep then
      Text.ReplaceRemovesTarget(clip, sep, ' ');
      Text.Replace(clip, sep, " ")
    else
      Text.Replace(clip, sep, " ")
  }

  /** A clip that splits into one token has no separator to replace. */
  lemma SingleTokenUnchanged(clip: string, sep: string)
    requires |sep| > 0
    ensures |Text.Split(clip, sep)| == 1 ==> Text.Replace(clip, sep, " ") == clip
  {
    Text.ReplaceIsJoinOfSplit(clip, sep, " ");
    Text.JoinSplit(clip, sep);
  }

  /** The `" (L chars, M lines)"` summary. */
  function Summary(chars: int, lines: int): string
  {
    " (" + Decimal.FormatInt(chars) + " chars, " + Decimal.FormatInt(lines) + " lines)"
  }

  /** `ClipBuffer.toString`: the flattened clip when it is short and on one line;
      otherwise its first 70 characters, `"..."` if that cut something off, and a
      summary of the flattened length and the number of lines. */
  function Label(clip: string, sep: string): (text: string)
    requires |sep| > 0
    ensures var lines := |Text.Split(clip, sep)|;
      lines == 1 && |clip| <= BUFFER_CROP_LENGTH ==> text == clip
    ensures var flat := Flatten(clip, sep); var lines := |Text.Split(clip, sep)|;
      |flat| <= BUFFER_CROP_LENGTH && lines > 1 ==> text == flat + Summary(|flat|, lines)
    ensures var flat := Flatten(clip, sep); var lines := |Text.Split(clip, sep)|;
      |flat| > BUFFER_CROP_LENGTH ==>
        text == flat[..BUFFER_CROP_LENGTH] + "..." + Summary(|flat|, lines)
  {
    var lineCount := Text.CountMatches(clip, sep) + 1;
    var formatted := Flatten(clip, sep);
    Text.CountMatchesIsSplitLength(clip, sep);
    if |formatted| > BUFFER_CROP_LENGTH || lineCount > 1 then
      var suffix := if |formatted| > BUFFER_CROP_LENGTH then "..." else "";
      var shown := if |formatted| < BUFFER_CROP_LENGTH then |formatted| else BUFFER_CROP_LENGTH;
      formatted[..shown] + suffix + Summary(|formatted|, lineCount)
    else
      formatted
  }

  /** The label always begins with (up to 70 characters of) the flattened clip, so
      when a space is not part of the separator the visible text holds no line
      break, and the length it reports is the flattened length. */
  lemma LabelShowsFlatText(clip: string, sep: string)
    requires |sep| > 0
    ensures var flat := Flatten(clip, sep);
      var shown := if |flat| < BUFFER_CROP_LENGTH then |flat| else BUFFER_CROP_LENGTH;
      && shown <= |Label(clip, sep)|
      && Label(clip, sep)[..shown] == flat[..shown]
      && (' ' !in sep ==> !Text.Occurs(Label(clip, sep)[..shown], sep))
    ensures sep == "\n" || sep == "\r\n" ==> !Text.Occurs(Label(clip, sep), sep)
  {
    var flat := Flatten(clip, sep);
    var shown := if |flat| < BUFFER_CROP_LENGTH then |flat| else BUFFER_CROP_LENGTH;
    var text := Label(clip, sep);
    LabelSplitsAfterFlatText(clip, sep);
    if ' ' !in sep {
      PrefixKeepsAbsent(flat, shown, sep);
    }
    if sep == "\n" || sep == "\r\n" {
      assert text == text[..shown] + text[shown..];
      NoOccurrenceBeforeLastCharFree(text[..shown], text[shown..], sep);
    }
  }

  /** A text without the separator has no separator in any prefix either. */
  lemma PrefixKeepsAbsent(s: string, n: nat, sep: string)
    requires n <= |s| && !Text.Occurs(s, sep)
    ensures !Text.Occurs(s[..n], sep)
  {
    forall i: nat
      ensures !Text.OccursAt(s[..n], sep, i)
    {
      assert !Text.OccursAt(s, sep, i);
      if i + |sep| <= n {
        assert s[..n][i..i + |sep|] == s[i..i + |sep|];
      }
    }
  }

  /** The label is the shown part of the flattened clip followed by text on one
      line. */
  lemma LabelSplitsAfterFlatText(clip: string, sep: string)
    requires |sep| > 0
    ensures var flat := Flatten(clip, sep);
      var shown := if |flat| < BUFFER_CROP_LENGTH then |flat| else BUFFER_CROP_LENGTH;
      && shown <= |Label(clip, sep)|
      && Label(clip, sep)[..shown] == flat[..shown]
      && '\n' !in Label(clip, sep)[shown..]
  {
    var flat := Flatten(clip, sep);
    var lines := |Text.Split(clip, sep)|;
    SummaryHasNoLineFeed(|flat|, lines);
    LabelShapeSplits(flat, Summary(|flat|, lines), lines > 1, Label(clip, sep));
  }

  /** The three shapes of a label, over any flattened text and summary. */
  lemma LabelShapeSplits(flat: string, summary: string, multiLine: bool, text: string)
    requires '\n' !in summary
    requires |flat| > BUFFER_CROP_LENGTH ==> text == flat[..BUFFER_CROP_LENGTH] + "..." + summary
    requires |flat| <= BUFFER_CROP_LENGTH && multiLine ==> text == flat + summary
    requires |flat| <= BUFFER_CROP_LENGTH && !multiLine ==> text == flat
    ensures var shown := if |flat| < BUFFER_CROP_LENGTH then |flat| else BUFFER_CROP_LENGTH;
      && shown <= |text|
      && text[..shown] == flat[..shown]
      && '\n' !in text[shown..]
  {
    var shown := if |flat| < BUFFER_CROP_LENGTH then |flat| else BUFFER_CROP_LENGTH;
    if |flat| > BUFFER_CROP_LENGTH {
      SplitAfterPrefix(flat[..shown], "..." + summary, text);
    } else if multiLine {
      SplitAfterPrefix(flat, summary, text);
    } else {
      SplitAfterPrefix(flat, "", text);
    }
  }

  /** A text made of a prefix and a tail splits back into the two. */
  lemma SplitAfterPrefix(prefix: string, tail: string, text: string)
    requires text == prefix + tail
    ensures text[..|prefix|] == prefix && text[|prefix|..] == tail
    ensures forall c :: c in tail <==> c in text[|prefix|..]
  {
  }

  /** The summary is on one line. */
  lemma SummaryHasNoLineFeed(chars: int, lines: int)
    ensures '\n' !in Summary(chars, lines)
  {
    var c, l := Decimal.FormatInt(chars), Decimal.FormatInt(lines);
    assert '\n' !in c && '\n' !in l;
    assert Summary(chars, lines) == " (" + c + " chars, " + l + " lines)";
  }

  /** Text appended after a separator-free text cannot complete a separator when it
      lacks the separator's last character. */
  lemma NoOccurrenceBeforeLastCharFree(a: string, b: string, sep: string)
    requires |sep| > 0 && !Text.Occurs(a, sep)
    requires sep[|sep| - 1] !in b
    ensures !Text.Occurs(a + b, sep)
  {
    var s := a + b;
    forall i: nat
      ensures !Text.OccursAt(s, sep, i)
    {
      if i + |sep| <= |s| {
        var last := i + |sep| - 1;
        if last < |a| {
          assert !Text.OccursAt(a, sep, i);
          assert s[i..i + |sep|] == a[i..i + |sep|];
        } else {
          assert s[last] == b[last - |a|];
          assert s[i..i + |sep|][|sep| - 1] == s[last];
        }
      }
    }
  }
}
