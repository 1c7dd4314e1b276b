/** Two list commands of the controller, with the widgets taken away: the slice
    button (a slice expression applied to every line of the clipboard) and the uniq
    button (adjacent duplicate lines removed).  `sep` is the platform line
    separator. */
module ListCommands {
  import opened Wrappers
  import opened Sequences
  import Text
  import Decimal
  import StringUtil
  import SliceSyntax
  import BufferList
  import ClipListMutator

  // ---------------------------------------------------------------------------
  // Slice
  // ---------------------------------------------------------------------------

  /** The line function the slice button hands to the per-line combinator: one
      character for a single index, a range otherwise.  `None` only for a line longer
      than a Java string can be or an index outside `int`, neither of which the
      button can produce. */
  function SliceLine(args: SliceSyntax.SliceArgs, line: string): (r: Option<string>)
    ensures args.WellFormed() && |line| <= Decimal.INT_MAX ==> r.Some?
    ensures r.Some? && args.single.Some? ==>
              -|line| <= args.single.value < |line| ==> |r.value| == 1
    ensures r.Some? ==> |r.value| <= |line|
  {
    if args.single.Some? then
      if |line| <= Decimal.INT_MAX && Decimal.IsInt32(args.single.value) then
        Some(StringUtil.SliceAt(line, args.single.value))
      else None
    else
      Some(StringUtil.SliceRange(line, args.start, args.end))
  }

  /** `onBtnListSlice`: parse the expression; on a parse error nothing is read or
      written and the error is reported; otherwise every line of the clipboard is
      replaced by its slice. */
  function ListSlice(clipboard: string, sep: string, expr: string): (r: Result<ClipListMutator.Outcome, SliceSyntax.ArgParseError>)
    requires |sep| > 0
    requires |clipboard| <= Decimal.INT_MAX
    ensures SliceSyntax.ParseSliceSyntax(expr).Err? <==> r.Err?
    ensures r.Err? ==> r.error == SliceSyntax.ParseSliceSyntax(expr).error
    ensures r.Ok? ==>
      var lines := ClipListMutator.ReadAsLines(clipboard, sep);
      var args := SliceSyntax.ParseSliceSyntax(expr).value;
      && r.value.result.Some?
      && |r.value.result.value| == |lines|
      && (forall k :: 0 <= k < |lines| ==> r.value.result.value[k] == Sliced(args, lines[k]))
      && r.value.clipboard == Text.Join(r.value.result.value, sep)
  {
    match SliceSyntax.ParseSliceSyntax(expr)
    case Err(e) => Err(e)
    case Ok(args) => Ok(SliceLines(clipboard, sep, args))
  }

  /** Every line of the clipboard replaced by its slice under a parsed expression. */
  function SliceLines(clipboard: string, sep: string, args: SliceSyntax.SliceArgs): (o: ClipListMutator.Outcome)
    requires |sep| > 0
    requires |clipboard| <= Decimal.INT_MAX
    requires args.WellFormed()
    ensures var lines := ClipListMutator.ReadAsLines(clipboard, sep);
      && o.result.Some?
      && |o.result.value| == |lines|
      && (forall k :: 0 <= k < |lines| ==> o.result.value[k] == Sliced(args, lines[k]))
      && o.clipboard == Text.Join(o.result.value, sep)
  {
    var lines := ClipListMutator.ReadAsLines(clipboard, sep);
    var o := ClipListMutator.MutateByLine(clipboard, sep, line => SliceLine(args, line));
    assert forall k :: 0 <= k < |lines| ==> SliceLine(args, lines[k]) == Some(Sliced(args, lines[k])) by {
      forall k | 0 <= k < |lines| {
        SliceLineValue(args, lines[k]);
      }
    }
    o
  }

  /** The slice of one line a well-formed expression selects. */
  function Sliced(args: SliceSyntax.SliceArgs, line: string): string
    requires args.WellFormed() && |line| <= Decimal.INT_MAX
  {
    if args.single.Some? then StringUtil.SliceAt(line, args.single.value)
    else StringUtil.SliceRange(line, args.start, args.end)
  }

  /** For a parsed expression and a line a Java string can hold, the line function
      always answers, with the slice the expression selects. */
  lemma SliceLineValue(args: SliceSyntax.SliceArgs, line: string)
    requires args.WellFormed() && |line| <= Decimal.INT_MAX
    ensures SliceLine(args, line) == Some(Sliced(args, line))
  {
  }

  /** The expression `":"` selects every line whole, so the clipboard is left as it
      was. */
  lemma SliceAllLeavesClipboard(clipboard: string, sep: string)
    requires |sep| > 0
    requires |clipboard| <= Decimal.INT_MAX
    ensures ListSlice(clipboard, sep, ":").Ok?
    ensures ListSlice(clipboard, sep, ":").value.clipboard == clipboard
  {
    var all := SliceSyntax.SliceArgs(None, None, None);
    SliceSyntax.ParseFormatRoundTrip(all);
    assert SliceSyntax.FormatSliceArgs(all) == ":";
    assert SliceSyntax.ParseSliceSyntax(":") == Ok(all);
    var lines := ClipListMutator.ReadAsLines(clipboard, sep);
    var o := ListSlice(clipboard, sep, ":");
    var r := o.value.result.value;
    assert |r| == |lines|;
    forall k | 0 <= k < |lines|
      ensures r[k] == lines[k]
    {
      assert r[k] == StringUtil.SliceRange(lines[k], None, None);
    }
    assert r == lines;
    assert o.value.clipboard == Text.Join(lines, sep);
  }

  // ---------------------------------------------------------------------------
  // Uniq
  // ---------------------------------------------------------------------------

  /** `onBtnListUniq` as written: the lines are read split on the platform
      separator, but the kept lines are joined with `"\n"`. */
  function UniqAsWritten(clipboard: string, sep: string): (after: string)
    requires |sep| > 0
    ensures sep == "\n" ==> after == Uniq(clipboard, sep)
  {
    Text.Join(BufferList.Uniq(ClipListMutator.ReadAsLines(clipboard, sep)), "\n")
  }

  /** On a platform whose separator is `"\r\n"`, a clipboard with no duplicate lines
      at all is still changed: its separators become `"\n"`. */
  lemma UniqAsWrittenRewritesSeparators()
    ensures BufferList.NoAdjacentDuplicates(ClipListMutator.ReadAsLines("a\r\nb", "\r\n"))
    ensures UniqAsWritten("a\r\nb", "\r\n") == "a\nb"
    ensures UniqAsWritten("a\r\nb", "\r\n") != "a\r\nb"
  {
    var s := "a\r\nb";
    var sep := "\r\n";
    assert s[..2][0] == 'a' != sep[0];
    var tail := s[1..];
    assert tail[..2] == sep;
    assert tail[2..] == "b";
    assert "b"[1..] == "";
    assert Text.Split("", sep) == [""];
    assert Text.Split("b", sep) == [['b'] + ""];
    assert Text.Split(tail, sep) == [""] + Text.Split(tail[2..], sep);
    assert ['b'] + "" == "b";
    assert Text.Split(tail, sep) == ["", "b"];
    assert Text.Split(s, sep) == [[s[0]] + ""] + ["b"];
    assert [s[0]] + "" == "a";
    assert BufferList.Uniq(["a", "b"]) == ["a", "b"];
  }

  /** The uniq command as evidently intended: the kept lines joined with the same
      separator they were read with.  A clipboard without adjacent duplicates is
      left as it was, and the lines written are exactly the first line of every run
      of equal lines. */
  function Uniq(clipboard: string, sep: string): (after: string)
    requires |sep| > 0
    ensures var lines := ClipListMutator.ReadAsLines(clipboard, sep);
      BufferList.NoAdjacentDuplicates(lines) ==> after == clipboard
    ensures var lines := ClipListMutator.ReadAsLines(clipboard, sep);
      after == Text.Join(BufferList.RunTails(lines), sep)
    ensures |after| <= |clipboard|
  {
    var lines := ClipListMutator.ReadAsLines(clipboard, sep);
    var kept := BufferList.Uniq(lines);
    BufferList.UniqIsRunTails(lines);
    JoinSubsequenceNoLonger(kept, lines, sep);
    Text.Join(kept, sep)
  }

  /** With a one-character separator, reading the written clipboard back gives the
      kept lines (an all-empty clipboard of one blank line reads back as none). */
  lemma UniqReadsBack(clipboard: string, sep: string)
    requires |sep| == 1
    ensures var kept := BufferList.Uniq(ClipListMutator.ReadAsLines(clipboard, sep));
      ClipListMutator.ReadAsLines(Uniq(clipboard, sep), sep) == if kept == [""] then [] else kept
  {
    var lines := ClipListMutator.ReadAsLines(clipboard, sep);
    var kept := BufferList.Uniq(lines);
    SubsequenceElements(kept, lines);
    forall k | 0 <= k < |kept|
      ensures sep[0] !in kept[k]
    {
      var j :| 0 <= j < |lines| && lines[j] == kept[k];
      if sep[0] in kept[k] {
        var i :| 0 <= i < |kept[k]| && kept[k][i] == sep[0];
        assert sep == [sep[0]];
        assert lines[j][i..i + 1] == [lines[j][i]];
        assert Text.OccursAt(lines[j], sep, i);
      }
    }
    ClipListMutator.WriteThenRead(kept, sep);
  }

  /** Joining a subsequence of the parts gives a text no longer than joining them
      all. */
  lemma {:induction false} JoinSubsequenceNoLonger(a: seq<string>, b: seq<string>, sep: string)
    requires IsSubsequence(a, b)
    ensures |Text.Join(a, sep)| <= |Text.Join(b, sep)|
    decreases |b|
  {
    if |a| > 0 {
      if a[0] == b[0] {
        JoinSubsequenceNoLonger(a[1..], b[1..], sep);
        if |a| > 1 {
          assert |b| > 1;
        } else if |b| > 1 {
          assert |Text.Join(b, sep)| == |b[0]| + |sep| + |Text.Join(b[1..], sep)|;
        }
      } else {
        JoinSubsequenceNoLonger(a, b[1..], sep);
        if |b| > 1 {
          assert |Text.Join(b, sep)| == |b[0]| + |sep| + |Text.Join(b[1..], sep)|;
        }
      }
    }
  }
}
