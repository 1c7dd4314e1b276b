/** The list combinators of the packaged sources.  The clipboard is read as a list of
    lines (split on the platform line separator `sep`), changed as a whole, a line
    at a time, or by a filter, and written back joined with `sep`.  The clipboard is
    a plain string state: each combinator maps the text before to the text after. */
module ClipListMutator {
  import opened Wrappers
  import opened Sequences
  import Text

  /** What a run leaves behind: the list it hands back to its caller (`None` when a
      transformer threw, in which case nothing was written) and the clipboard
      text afterwards. */
  datatype Outcome = Outcome(result: Option<seq<string>>, clipboard: string)

  /** `SysClipboard.readAsLines`: the exact split of the clipboard on `sep`, empty
      lines kept, no lines at all for an empty clipboard. */
  function ReadAsLines(clipboard: string, sep: string): (lines: seq<string>)
    requires |sep| > 0
    ensures Text.Join(lines, sep) == clipboard
    ensures |lines| == 0 <==> clipboard == ""
    ensures forall k :: 0 <= k < |lines| ==> !Text.Occurs(lines[k], sep)
    ensures forall k :: 0 <= k < |lines| ==> |lines[k]| <= |clipboard|
  {
    Text.JoinSplitPreserveAllTokens(clipboard, sep);
    Text.SplitPreserveAllTokensSeparatorFree(clipboard, sep);
    Text.SplitTokensNoLonger(clipboard, sep);
    Text.SplitPreserveAllTokens(clipboard, sep)
  }

  /** Writing lines and reading them back gives the same lines, when the separator
      is one character that no line contains; the one exception is a single empty
      line, which is written as the empty clipboard and so reads back as no lines. */
  lemma WriteThenRead(lines: seq<string>, sep: string)
    requires |sep| == 1
    requires forall k :: 0 <= k < |lines| ==> sep[0] !in lines[k]
    ensures ReadAsLines(Text.Join(lines, sep), sep) == if lines == [""] then [] else lines
  {
    var c := sep[0];
    assert sep == [c];
    if |lines| > 0 {
      Text.SplitJoin(lines, c);
    }
  }

  /** `ClipboardAsListMutatorBase.mutate`: read the lines, let `impl` change them (or
      throw: `None`), and only when it returned, write the changed lines back joined
      with `sep`. */
  function Mutate(clipboard: string, sep: string, impl: seq<string> -> Option<seq<string>>): (o: Outcome)
    requires |sep| > 0
    ensures o.result == impl(ReadAsLines(clipboard, sep))
    ensures o.result.None? ==> o.clipboard == clipboard
    ensures o.result.Some? ==> o.clipboard == Text.Join(o.result.value, sep)
    ensures impl(ReadAsLines(clipboard, sep)) == Some(ReadAsLines(clipboard, sep)) ==> o.clipboard == clipboard
  {
    match impl(ReadAsLines(clipboard, sep))
    case None => Outcome(None, clipboard)
    case Some(changed) => Outcome(Some(changed), Text.Join(changed, sep))
  }

  /** The list `readAsLines` returns is a fixed-size view of an array: a transformer
      may rearrange or overwrite its elements, but one that would add or remove an
      element throws instead. */
  function OnFixedSizeList(transform: seq<string> -> Option<seq<string>>): seq<string> -> Option<seq<string>>
  {
    lines =>
      match transform(lines)
      case None => None
      case Some(changed) => if |changed| == |lines| then Some(changed) else None
  }

  /** `ClipboardAsListMutator`: the whole list handed to one transformer. */
  function MutateList(clipboard: string, sep: string, transform: seq<string> -> Option<seq<string>>): (o: Outcome)
    requires |sep| > 0
    ensures var lines := ReadAsLines(clipboard, sep);
      && (o.result.Some? <==> transform(lines).Some? && |transform(lines).value| == |lines|)
      && (o.result.Some? ==> o.result == transform(lines) && o.clipboard == Text.Join(o.result.value, sep))
      && (o.result.None? ==> o.clipboard == clipboard)
  {
    Mutate(clipboard, sep, OnFixedSizeList(transform))
  }

  /** The loop of `ClipboardAsListMutatorByLine.mutateImpl`: every line replaced by
      its image under `f`; if `f` throws on any line, the whole loop throws. */
  function MapLines(lines: seq<string>, f: string -> Option<string>): (r: Option<seq<string>>)
    ensures r.Some? <==> forall k :: 0 <= k < |lines| ==> f(lines[k]).Some?
    ensures r.Some? ==> |r.value| == |lines|
    ensures r.Some? ==> forall k :: 0 <= k < |lines| ==> f(lines[k]) == Some(r.value[k])
    decreases |lines|
  {
    if |lines| == 0 then Some([])
    else
      match f(lines[0])
      case None => None
      case Some(first) =>
        match MapLines(lines[1..], f)
        case None => None
        case Some(rest) => Some([first] + rest)
  }

  /** `ClipboardAsListMutatorByLine`: each line changed by `f`; the number of lines
      never changes, and lines `f` leaves alone stay as they were. */
  function MutateByLine(clipboard: string, sep: string, f: string -> Option<string>): (o: Outcome)
    requires |sep| > 0
    ensures var lines := ReadAsLines(clipboard, sep);
      && (o.result.Some? <==> forall k :: 0 <= k < |lines| ==> f(lines[k]).Some?)
      && (o.result.Some? ==> |o.result.value| == |lines|
                             && (forall k :: 0 <= k < |lines| ==> f(lines[k]) == Some(o.result.value[k]))
                             && o.clipboard == Text.Join(o.result.value, sep))
      && (o.result.None? ==> o.clipboard == clipboard)
      && ((forall k :: 0 <= k < |lines| ==> f(lines[k]) == Some(lines[k])) ==> o.clipboard == clipboard)
  {
    var lines := ReadAsLines(clipboard, sep);
    var o := Mutate(clipboard, sep, ls => MapLines(ls, f));
    if forall k :: 0 <= k < |lines| ==> f(lines[k]) == Some(lines[k]) then
      assert o.result.value == lines;
      o
    else
      o
  }

  /** The pair `ClipboardAsListFilter.filter` returns: the lines read and the lines
      kept. */
  datatype Filtered = Filtered(original: seq<string>, kept: seq<string>)

  /** What a filter run leaves behind. */
  datatype FilterOutcome = FilterOutcome(result: Option<Filtered>, clipboard: string)

  /** Every line the predicate accepts, as often as it occurs, and nothing else. */
  ghost predicate HoldsAcceptedLines(kept: seq<string>, lines: seq<string>, p: string -> Option<bool>)
  {
    forall x :: multiset(kept)[x] == if p(x) == Some(true) then multiset(lines)[x] else 0
  }

  /** The loop of `filter`: the lines the predicate accepts, in order; if the
      predicate throws on any line, the whole loop throws. */
  function KeepLines(lines: seq<string>, p: string -> Option<bool>): (r: Option<seq<string>>)
    ensures r.Some? <==> forall k :: 0 <= k < |lines| ==> p(lines[k]).Some?
    ensures r.Some? ==> IsSubsequence(r.value, lines)
    ensures r.Some? ==> forall k :: 0 <= k < |r.value| ==> p(r.value[k]) == Some(true)
    ensures r.Some? ==> forall k :: 0 <= k < |lines| && p(lines[k]) == Some(true) ==> lines[k] in r.value
    ensures (forall k :: 0 <= k < |lines| ==> p(lines[k]) == Some(true)) ==> r == Some(lines)
    decreases |lines|
  {
    if |lines| == 0 then Some([])
    else
      match p(lines[0])
      case None => None
      case Some(keep) =>
        match KeepLines(lines[1..], p)
        case None => None
        case Some(rest) =>
          KeptLinesCover(lines, rest, keep, p);
          if keep then Some([lines[0]] + rest) else Some(rest)
  }

  /** The step of `KeepLines`: the kept tail, with the first line in front if it
      passed, still has the contract's shape. */
  lemma KeptLinesCover(lines: seq<string>, rest: seq<string>, keep: bool, p: string -> Option<bool>)
    requires |lines| > 0 && p(lines[0]) == Some(keep)
    requires IsSubsequence(rest, lines[1..])
    requires forall k :: 1 <= k < |lines| && p(lines[k]) == Some(true) ==> lines[k] in rest
    requires (forall k :: 1 <= k < |lines| ==> p(lines[k]) == Some(true)) ==> rest == lines[1..]
    ensures var r := if keep then [lines[0]] + rest else rest;
      && IsSubsequence(r, lines)
      && (forall k :: 0 <= k < |lines| && p(lines[k]) == Some(true) ==> lines[k] in r)
      && ((forall k :: 0 <= k < |lines| ==> p(lines[k]) == Some(true)) ==> r == lines)
  {
    var r := if keep then [lines[0]] + rest else rest;
    if keep {
      assert r[1..] == rest;
    } else {
      SubsequenceDropFront(rest, lines);
    }
    forall k | 1 <= k < |lines| && p(lines[k]) == Some(true)
      ensures lines[k] in r
    {
      assert lines[k] == lines[1..][k - 1];
    }
    if forall k :: 0 <= k < |lines| ==> p(lines[k]) == Some(true) {
      assert forall k :: 1 <= k < |lines| ==> p(lines[k]) == Some(true);
      assert lines == [lines[0]] + lines[1..];
    }
  }

  /** The step of `KeepLines`, counted: the first line adds one occurrence to the
      kept lines exactly when it passed. */
  lemma KeptLinesCount(lines: seq<string>, rest: seq<string>, keep: bool, p: string -> Option<bool>)
    requires |lines| > 0 && p(lines[0]) == Some(keep)
    requires HoldsAcceptedLines(rest, lines[1..], p)
    ensures HoldsAcceptedLines(if keep then [lines[0]] + rest else rest, lines, p)
  {
    var r := if keep then [lines[0]] + rest else rest;
    assert lines == [lines[0]] + lines[1..];
    assert multiset(lines) == multiset([lines[0]]) + multiset(lines[1..]);
    assert keep ==> multiset(r) == multiset([lines[0]]) + multiset(rest);
  }

  /** The kept lines are exactly the accepted ones: in order (a subsequence, by
      the contract of `KeepLines`) and each accepted line as often as it occurs. */
  lemma {:induction false} KeepLinesExact(lines: seq<string>, p: string -> Option<bool>)
    ensures KeepLines(lines, p).Some? ==> HoldsAcceptedLines(KeepLines(lines, p).value, lines, p)
    decreases |lines|
  {
    if |lines| > 0 && KeepLines(lines, p).Some? {
      var keep := p(lines[0]).value;
      var rest := KeepLines(lines[1..], p).value;
      KeepLinesExact(lines[1..], p);
      KeptLinesCount(lines, rest, keep, p);
      assert KeepLines(lines, p).value == if keep then [lines[0]] + rest else rest;
    }
  }

  /** Those three facts single the kept list out: any list of accepted lines,
      taken in order from `lines`, that holds each accepted line as often as it
      occurs is the list `KeepLines` keeps. */
  lemma {:induction false} AcceptedLinesUnique(a: seq<string>, lines: seq<string>, p: string -> Option<bool>)
    requires KeepLines(lines, p).Some?
    requires IsSubsequence(a, lines)
    requires forall k :: 0 <= k < |a| ==> p(a[k]) == Some(true)
    requires HoldsAcceptedLines(a, lines, p)
    ensures a == KeepLines(lines, p).value
    decreases |lines|
  {
    if |lines| > 0 {
      KeepLinesUnfold(lines, p);
      if p(lines[0]) == Some(true) {
        FirstAcceptedIsKept(a, lines, p);
        HoldsAfterBothDrop(a, lines, p);
        AcceptedLinesUnique(a[1..], lines[1..], p);
        assert a == [a[0]] + a[1..];
      } else {
        HoldsAfterRejectedDrop(a, lines, p);
        AcceptedLinesUnique(a, lines[1..], p);
      }
    }
  }

  /** One step of `KeepLines` on a list whose every line got an answer. */
  lemma KeepLinesUnfold(lines: seq<string>, p: string -> Option<bool>)
    requires |lines| > 0 && KeepLines(lines, p).Some?
    ensures KeepLines(lines[1..], p).Some?
    ensures var rest := KeepLines(lines[1..], p).value;
      KeepLines(lines, p).value == if p(lines[0]) == Some(true) then [lines[0]] + rest else rest
  {
  }

  /** An accepted first line must open any list holding all accepted lines in order. */
  lemma FirstAcceptedIsKept(a: seq<string>, lines: seq<string>, p: string -> Option<bool>)
    requires |lines| > 0 && p(lines[0]) == Some(true)
    requires IsSubsequence(a, lines)
    requires HoldsAcceptedLines(a, lines, p)
    ensures |a| > 0 && a[0] == lines[0] && IsSubsequence(a[1..], lines[1..])
  {
    var l := lines[0];
    assert lines == [l] + lines[1..];
    assert multiset(lines)[l] == multiset(lines[1..])[l] + 1;
    assert multiset(a)[l] > 0;
    if |a| > 0 && a[0] != l {
      SubsequenceMultiset(a, lines[1..]);
    }
  }

  /** Taking the shared first line off both keeps the multiplicities right. */
  lemma HoldsAfterBothDrop(a: seq<string>, lines: seq<string>, p: string -> Option<bool>)
    requires |a| > 0 && |lines| > 0 && a[0] == lines[0]
    requires HoldsAcceptedLines(a, lines, p)
    ensures HoldsAcceptedLines(a[1..], lines[1..], p)
  {
    assert a == [a[0]] + a[1..];
    assert lines == [lines[0]] + lines[1..];
    assert multiset(a) == multiset([a[0]]) + multiset(a[1..]);
    assert multiset(lines) == multiset([a[0]]) + multiset(lines[1..]);
  }

  /** A rejected first line counts for nothing. */
  lemma HoldsAfterRejectedDrop(a: seq<string>, lines: seq<string>, p: string -> Option<bool>)
    requires |lines| > 0 && p(lines[0]) != Some(true)
    requires IsSubsequence(a, lines)
    requires forall k :: 0 <= k < |a| ==> p(a[k]) == Some(true)
    requires HoldsAcceptedLines(a, lines, p)
    ensures IsSubsequence(a, lines[1..]) && HoldsAcceptedLines(a, lines[1..], p)
  {
    assert |a| > 0 ==> p(a[0]) == Some(true);
    assert lines == [lines[0]] + lines[1..];
    assert multiset(lines) == multiset([lines[0]]) + multiset(lines[1..]);
  }

  /** `ClipboardAsListFilter.filter`: read the lines, keep the ones the predicate
      accepts, write them back joined with `sep`, and return both lists. */
  function Filter(clipboard: string, sep: string, p: string -> Option<bool>): (o: FilterOutcome)
    requires |sep| > 0
    ensures var lines := ReadAsLines(clipboard, sep);
      && (o.result.Some? <==> forall k :: 0 <= k < |lines| ==> p(lines[k]).Some?)
      && (o.result.Some? ==> o.result.value.original == lines
                             && IsSubsequence(o.result.value.kept, lines)
                             && (forall k :: 0 <= k < |o.result.value.kept| ==> p(o.result.value.kept[k]) == Some(true))
                             && HoldsAcceptedLines(o.result.value.kept, lines, p)
                             && o.clipboard == Text.Join(o.result.value.kept, sep))
      && (o.result.None? ==> o.clipboard == clipboard)
      && ((forall k :: 0 <= k < |lines| ==> p(lines[k]) == Some(true)) ==> o.clipboard == clipboard)
  {
    var lines := ReadAsLines(clipboard, sep);
    KeepLinesExact(lines, p);
    match KeepLines(lines, p)
    case None => FilterOutcome(None, clipboard)
    case Some(kept) => FilterOutcome(Some(Filtered(lines, kept)), Text.Join(kept, sep))
  }
}
