/** What the older, unpackaged `StringUtil` does differently: its escape expansion
    knows only `\n` (always a line feed) and `\t`.  Its `ltrim`, `rtrim` and `slice`
    are the ones modelled in `StringUtil`. */
module LegacyStringUtil {
  import Text
  import StringUtil

  /** The legacy `replaceSpecialChars`: `\n` becomes a line feed, `\t` a tab. */
  function ReplaceSpecialChars(s: string): string
  {
    Text.Replace(Text.Replace(s, "\\n", "\n"), "\\t", "\t")
  }

  /** `\n` and `\t` escapes between backslash-free pieces are expanded, while a `\r`
      escape survives as the two characters it was written with. */
  lemma ReplaceSpecialCharsLeavesReturnEscape(parts: seq<string>)
    requires StringUtil.BackslashFree(parts)
    ensures ReplaceSpecialChars(Text.Join(parts, "\\n")) == Text.Join(parts, "\n")
    ensures ReplaceSpecialChars(Text.Join(parts, "\\t")) == Text.Join(parts, "\t")
    ensures ReplaceSpecialChars(Text.Join(parts, "\\r")) == Text.Join(parts, "\\r")
  {
    var n := Text.Join(parts, "\n");
    StringUtil.ReplaceInJoin(parts, "\\n", "\\n", "\n");
    StringUtil.JoinKeepsCharOut(parts, "\n", '\\');
    StringUtil.NoFirstCharNoOccurrence(n, "\\t");
    Text.ReplaceAbsent(n, "\\t", "\t");

    StringUtil.ReplaceInJoin(parts, "\\t", "\\n", "\n");
    StringUtil.ReplaceInJoin(parts, "\\t", "\\t", "\t");

    StringUtil.ReplaceInJoin(parts, "\\r", "\\n", "\n");
    StringUtil.ReplaceInJoin(parts, "\\r", "\\t", "\t");
  }

  /** What one escape stands for in the older expansion: `\n` a line feed, `\t` a
      tab; `\r`, like anything else, stands for itself. */
  function Expansion(e: string): string
  {
    if e == "\\n" then "\n"
    else if e == "\\t" then "\t"
    else e
  }

  /** Every joint expanded on its own. */
  function ExpandAll(escapes: seq<string>): (r: seq<string>)
    ensures |r| == |escapes|
    ensures forall k :: 0 <= k < |r| ==> r[k] == Expansion(escapes[k])
  {
    seq(|escapes|, k requires 0 <= k < |escapes| => Expansion(escapes[k]))
  }

  /** Backslash-free pieces joined by any mix of `\n`, `\t` and `\r` escapes: the
      first two are expanded joint by joint and every `\r` is left as written. */
  lemma ExpandsMixedEscapes(parts: seq<string>, escapes: seq<string>)
    requires StringUtil.BackslashFree(parts)
    requires |parts| == |escapes| + 1
    requires forall k :: 0 <= k < |escapes| ==> StringUtil.IsKnownEscape(escapes[k])
    ensures ReplaceSpecialChars(StringUtil.Interleave(parts, escapes))
            == StringUtil.Interleave(parts, ExpandAll(escapes))
  {
    var s1 := StringUtil.ReplaceJoints(escapes, "\\n", "\n");
    StringUtil.ReplaceInInterleave(parts, escapes, "\\n", "\n");
    var s2 := StringUtil.ReplaceJoints(s1, "\\t", "\t");
    StringUtil.ReplaceInInterleave(parts, s1, "\\t", "\t");
    assert s2 == ExpandAll(escapes);
  }
}
