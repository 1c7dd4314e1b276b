/** The list combinators of the older, unpackaged sources.  They differ from the
    packaged ones in one place: the changed lines are always written back joined
    with `"\n"`, whatever separator the lines were read with.  The older clipboard
    wrapper has no line reader of its own, so the separator the lines are split on
    is a parameter here. */
module LegacyClipListMutator {
  import opened Wrappers
  import Text
  import ClipListMutator

  /** The separator the older combinators always write. */
  const LINE_BREAK: string := "\n"

  /** `ClipboardAsListMutatorBase.mutate`: read the lines (split on `splitSep`), let
      `impl` change them (or throw: `None`), and only when it returned, write them
      back joined with `"\n"`. */
  function Mutate(clipboard: string, splitSep: string, impl: seq<string> -> Option<seq<string>>): (o: ClipListMutator.Outcome)
    requires |splitSep| > 0
    ensures o.result == impl(ClipListMutator.ReadAsLines(clipboard, splitSep))
    ensures o.result.None? ==> o.clipboard == clipboard
    ensures o.result.Some? ==> o.clipboard == Text.Join(o.result.value, LINE_BREAK)
    ensures o.result.Some? && (forall k :: 0 <= k < |o.result.value| ==> '\n' !in o.result.value[k]) ==>
              ClipListMutator.ReadAsLines(o.clipboard, LINE_BREAK)
              == if o.result.value == [""] then [] else o.result.value
  {
    match impl(ClipListMutator.ReadAsLines(clipboard, splitSep))
    case None => ClipListMutator.Outcome(None, clipboard)
    case Some(changed) =>
      var o := ClipListMutator.Outcome(Some(changed), Text.Join(changed, LINE_BREAK));
      if forall k :: 0 <= k < |changed| ==> '\n' !in changed[k] then
        ClipListMutator.WriteThenRead(changed, LINE_BREAK);
        o
      else
        o
  }

  /** A transformer that changes nothing still rewrites every `splitSep` between
      lines as `"\n"`: the clipboard comes back with `splitSep` replaced. */
  lemma UnchangedLinesNormaliseSeparators(clipboard: string, splitSep: string)
    requires |splitSep| > 0
    ensures Mutate(clipboard, splitSep, lines => Some(lines)).clipboard
            == Text.Replace(clipboard, splitSep, LINE_BREAK)
  {
    Text.ReplaceIsJoinOfSplit(clipboard, splitSep, LINE_BREAK);
  }

  /** `ClipboardAsListMutator`: the whole list handed to one transformer. */
  function MutateList(clipboard: string, splitSep: string, transform: seq<string> -> Option<seq<string>>): (o: ClipListMutator.Outcome)
    requires |splitSep| > 0
    ensures var lines := ClipListMutator.ReadAsLines(clipboard, splitSep);
      && (o.result.Some? <==> transform(lines).Some?)
      && (o.result.Some? ==> o.result == transform(lines) && o.clipboard == Text.Join(o.result.value, LINE_BREAK))
      && (o.result.None? ==> o.clipboard == clipboard)
  {
    Mutate(clipboard, splitSep, transform)
  }

  /** `ClipboardAsListMutatorByLine`: each line changed by `f`, the number of lines
      kept, the result joined with `"\n"`. */
  function MutateByLine(clipboard: string, splitSep: string, f: string -> Option<string>): (o: ClipListMutator.Outcome)
    requires |splitSep| > 0
    ensures var lines := ClipListMutator.ReadAsLines(clipboard, splitSep);
      && (o.result.Some? <==> forall k :: 0 <= k < |lines| ==> f(lines[k]).Some?)
      && (o.result.Some? ==> |o.result.value| == |lines|
                             && (forall k :: 0 <= k < |lines| ==> f(lines[k]) == Some(o.result.value[k]))
                             && o.clipboard == Text.Join(o.result.value, LINE_BREAK))
      && (o.result.None? ==> o.clipboard == clipboard)
  {
    Mutate(clipboard, splitSep, lines => ClipListMutator.MapLines(lines, f))
  }
}
